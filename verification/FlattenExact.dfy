/** Flattening preserves meaning only then: shells in which it does not. */
module SequenceExactness {
  import opened SyntaxTrees
  import opened SequenceMeaning
  import opened SequenceFlattening

  const OTHER_COMMAND := Node(OTHER(0), "", Nil, Nil)

  /** A result after which the operator goes on, and that is not what it yields without
      operands. */
  function Going(op: string): Value { if op == "%and" then [] else ["5"] }

  lemma GoingGoes(op: string)
    requires IsOp(op)
    ensures Goes(op, Going(op)) && Going(op) != Empty(op)
  {
    assert ["5"][0] == "5" && TRUE[0] == "0" && FALSE[0] == "1";
  }

  /** A shell where every command leaves its mark, and evaluating words fails if it can,
      telling the state it did so in. */
  function Telltale(op: string): World {
    World((t, s) => [], (t, s) => (Raised(s, s), []), (t, s) => (Raised(s, s), Text("", false, false)), (t, s) => [],
          (t, s) => Returned(TRUE, s), (t, s) => Returned(Going(op), ["ran"]))
  }

  lemma {:induction false} LoudCollects(op: string, t: Tree, s: State)
    requires !Quiet(t)
    ensures var r := Collect(Telltale(op), t, s);
            if r.Failed? then r == Failed(s, s)
            else r.state == s && exists i :: 0 <= i < |r.terms| && LeadsTilde(r.terms[i])
  {
    var w := Telltale(op);
    if Is(t, LIST) {
      if Quiet(t.car) {
        QuietCollects(w, t.car, s);
        LoudCollects(op, t.cdr, s);
        var first, second := Collected(w, t.car, s), Collect(w, t.cdr, s);
        if second.Terms? {
          var i :| 0 <= i < |second.terms| && LeadsTilde(second.terms[i]);
          assert LeadsTilde((first + second.terms)[|first| + i]);
        }
      } else {
        LoudCollects(op, t.car, s);
        var first, all := Collect(w, t.car, s), Collect(w, t, s);
        if first.Terms? {
          var i :| 0 <= i < |first.terms| && LeadsTilde(first.terms[i]);
          if all.Terms? {
            assert LeadsTilde(all.terms[i]);
          }
          if Quiet(t.cdr) {
            QuietCollects(w, t.cdr, s);
          } else {
            LoudCollects(op, t.cdr, s);
          }
        }
      }
    }
  }

  lemma {:induction false} TildeFails(op: string, terms: seq<Term>, i: nat, s: State)
    requires i < |terms| && LeadsTilde(terms[i])
    ensures Homes(Telltale(op), terms, s) == Failed(s, s)
    decreases i
  {
    if i > 0 {
      TildeFails(op, terms[1..], i - 1, s);
    }
  }

  lemma LoudFails(op: string, t: Tree, s: State)
    requires !Quiet(t)
    ensures Glom(Telltale(op), t, s) == Failed(s, s)
  {
    LoudCollects(op, t, s);
    var r := Collect(Telltale(op), t, s);
    if r.Terms? {
      var i :| 0 <= i < |r.terms| && LeadsTilde(r.terms[i]);
      TildeFails(op, r.terms, i, s);
    }
  }

  /** Words whose evaluation may have an effect would have it before the left command. */
  lemma LoudDiffers(op: string, words: Tree, flat: Tree, t2: Tree)
    requires IsOp(op) && !Quiet(words) && FirstIs(flat, op) && FirstIs(t2, op) && t2.cdr == words
    requires flat.cdr == Append(List(Thunk(OTHER_COMMAND), Nil), words)
    ensures Run(Telltale(op), flat, []) != Binary(Telltale(op), op, OTHER_COMMAND, t2, [])
  {
    hide RunWords, Apply, Glom, Collect, Homes, Files;
    var w := Telltale(op);
    RunOp(w, op, flat, []);
    RunOp(w, op, t2, ["ran"]);
    RunWordsIs(w, op, flat.cdr, [], Size(flat));
    RunWordsIs(w, op, words, ["ran"], Size(t2));
    assert !Quiet(flat.cdr);
    LoudFails(op, flat.cdr, []);
    LoudFails(op, words, ["ran"]);
    assert Run(w, OTHER_COMMAND, []) == Returned(Going(op), ["ran"]);
    GoingGoes(op);
  }

  lemma FlatSlots(words: Tree)
    ensures Slots(Append(List(Thunk(OTHER_COMMAND), Nil), words)) == [Known(Closure(OTHER_COMMAND))] + Slots(words)
  {
    assert Append(List(Thunk(OTHER_COMMAND), Nil), words) == List(Thunk(OTHER_COMMAND), words);
    assert LiteralTerms(Thunk(OTHER_COMMAND)) == [Closure(OTHER_COMMAND)];
    assert Slots(Thunk(OTHER_COMMAND)) == [Known(Closure(OTHER_COMMAND))];
  }

  lemma OnlyCommand(words: Tree)
    requires Steady(words) && KnownPrefix(Slots(words)) == []
    ensures var flat := Append(List(Thunk(OTHER_COMMAND), Nil), words);
            Steady(flat) && KnownPrefix(Slots(flat)) == [Closure(OTHER_COMMAND)]
  {
    var flat := Append(List(Thunk(OTHER_COMMAND), Nil), words);
    FlatSlots(words);
    assert Slots(words) == [];
    assert Slots(flat) == [Known(Closure(OTHER_COMMAND))] && Slots(flat)[1..] == [];
  }

  /** Without operands the operator yields a value of its own. */
  lemma EmptyDiffers(op: string, words: Tree, flat: Tree, t2: Tree)
    requires IsOp(op) && Steady(words) && KnownPrefix(Slots(words)) == []
    requires FirstIs(flat, op) && FirstIs(t2, op) && t2.cdr == words
    requires flat.cdr == Append(List(Thunk(OTHER_COMMAND), Nil), words)
    ensures Run(Telltale(op), flat, []) != Binary(Telltale(op), op, OTHER_COMMAND, t2, [])
  {
    hide RunWords, Apply, Glom, Slots, KnownPrefix, Steady;
    var w := Telltale(op);
    RunOp(w, op, flat, []);
    RunOp(w, op, t2, ["ran"]);
    RunWordsIs(w, op, flat.cdr, [], Size(flat));
    RunWordsIs(w, op, words, ["ran"], Size(t2));
    OnlyCommand(words);
    SteadyGlom(w, flat.cdr, []);
    SteadyGlom(w, words, ["ran"]);
    ApplyOne(w, op, OTHER_COMMAND, [], Size(flat.cdr));
    ApplyNone(w, op, ["ran"], Size(words));
    assert Run(w, OTHER_COMMAND, []) == Returned(Going(op), ["ran"]);
    GoingGoes(op);
  }

  lemma ApplyNone(w: World, op: string, s: State, n: nat)
    ensures Apply(w, op, [], s, n) == Returned(Empty(op), s)
  {
  }

  // ----- a shell that follows a script

  const BEGIN := "begin"
  const LATER := "later"

  function Mark(s: State): string { if s != [] && s[0] == BEGIN then BEGIN else LATER }

  function MarkText(m: string): Text { Text(m, false, false) }

  /** The next result on the script. */
  function Next(op: string, s: State): Ran {
    if s == [] then Returned(TRUE, s)
    else Returned(if s[0] == BEGIN then Going(op) else if s[0] == "yes" then TRUE else FALSE, s[1..])
  }

  /** The state is what is left of a script for the results of commands.  Words that are not
      constant tell whether the script is at its beginning; calling one that does fails. */
  function Scripted(op: string): World {
    World((t, s) => [MarkText(Mark(s))], (t, s) => (Returned(TRUE, s), [MarkText(Mark(s))]),
          (t, s) => (Returned(TRUE, s), MarkText(Mark(s))), (t, s) => [Mark(s)],
          (t, s) => if t == Opaque(MarkText(BEGIN)) then Raised([BEGIN], s) else Next(op, s),
          (t, s) => Next(op, s))
  }

  lemma ScriptedIs(op: string)
    ensures forall t, s :: Scripted(op).run(t, s) == Next(op, s)
    ensures forall t, s :: Scripted(op).call(t, s) == if t == Opaque(MarkText(BEGIN)) then Raised([BEGIN], s) else Next(op, s)
    ensures forall t, s :: Scripted(op).vars(t, s) == [MarkText(Mark(s))]
    ensures forall t, s :: Scripted(op).words(t, s) == (Returned(TRUE, s), [MarkText(Mark(s))])
    ensures forall t, s :: Scripted(op).home(t, s) == (Returned(TRUE, s), MarkText(Mark(s)))
    ensures forall t, s :: Scripted(op).files(t, s) == [Mark(s)]
  {
  }

  function SlotTerms(slots: seq<Slot>, m: string): seq<Term> {
    seq(|slots|, i requires 0 <= i < |slots| => if slots[i].Known? then slots[i].term else Opaque(MarkText(m)))
  }

  lemma MarksAreTame(m: string)
    ensures Tame(Opaque(MarkText(m)))
  {
  }

  lemma {:induction false} ScriptedCollects(op: string, t: Tree, s: State)
    ensures var r := Collect(Scripted(op), t, s);
            r.Terms? && r.state == s && SlotTerms(SlotsOf(r.terms), Mark(s)) == SlotTerms(Slots(t), Mark(s))
  {
    hide Scripted, Literal, IsReader, NoTerms, Expands, LeadsTilde;
    ScriptedIs(op);
    MarksAreTame(Mark(s));
    if Is(t, LIST) {
      var w := Scripted(op);
      ScriptedCollects(op, t.car, s);
      ScriptedCollects(op, t.cdr, s);
      var first, second := Collected(w, t.car, s), Collected(w, t.cdr, s);
      SlotsOfAppend(first, second);
      SlotTermsAppend(SlotsOf(first), SlotsOf(second), Mark(s));
      SlotTermsAppend(Slots(t.car), Slots(t.cdr), Mark(s));
    } else if !Literal(t) {
      var r := Collect(Scripted(op), t, s);
      assert r.terms == if NoTerms(t) then [] else [Opaque(MarkText(Mark(s)))];
    }
  }

  lemma SlotTermsAppend(a: seq<Slot>, b: seq<Slot>, m: string)
    ensures SlotTerms(a + b, m) == SlotTerms(a, m) + SlotTerms(b, m)
  {
  }

  lemma {:induction false} ScriptedGlobs(op: string, terms: seq<Term>, s: State)
    ensures var r := Homes(Scripted(op), terms, s);
            r.Terms? && r.state == s && Files(Scripted(op), r.terms, s) == SlotTerms(SlotsOf(terms), Mark(s))
    decreases |terms|
  {
    hide Scripted, LeadsTilde, Expands;
    if terms != [] {
      var w := Scripted(op);
      ScriptedIs(op);
      MarksAreTame(Mark(s));
      ScriptedGlobs(op, terms[1..], s);
      assert SlotsOf(terms)[1..] == SlotsOf(terms[1..]);
      var r := Homes(w, terms, s);
      var mark := Opaque(MarkText(Mark(s)));
      var t := if LeadsTilde(terms[0]) then mark else terms[0];
      assert r.terms == [t] + Homes(w, terms[1..], s).terms && r.terms[1..] == Homes(w, terms[1..], s).terms;
      assert FilesOf(w, t, s) == [if Tame(terms[0]) then terms[0] else mark];
    }
  }

  lemma ScriptedGlom(op: string, t: Tree, s: State)
    ensures Glom(Scripted(op), t, s) == Terms(SlotTerms(Slots(t), Mark(s)), s)
  {
    hide Collect, Homes, Files, Slots, SlotsOf;
    ScriptedCollects(op, t, s);
    ScriptedGlobs(op, Collected(Scripted(op), t, s), s);
  }

  predicate NoBegin(s: State) { BEGIN !in s }

  predicate Plain(terms: seq<Term>) {
    forall i | 0 <= i < |terms| :: terms[i] != Opaque(MarkText(BEGIN))
  }

  lemma {:induction false} LiteralNotOpaque(t: Tree)
    requires Literal(t)
    ensures forall i | 0 <= i < |LiteralTerms(t)| :: !LiteralTerms(t)[i].Opaque?
  {
    if Is(t, LIST) {
      LiteralNotOpaque(t.car);
      LiteralNotOpaque(t.cdr);
    } else if Is(t, CONCAT) {
      ProductNotOpaque(LiteralTerms(t.car), LiteralTerms(t.cdr));
    }
  }

  lemma {:induction false} ProductNotOpaque(left: seq<Term>, right: seq<Term>)
    ensures forall i | 0 <= i < |Product(left, right)| :: !Product(left, right)[i].Opaque?
  {
    if left != [] {
      ProductNotOpaque(left[1..], right);
    }
  }

  lemma {:induction false} KnownNotOpaque(t: Tree)
    ensures forall i | 0 <= i < |Slots(t)| :: Slots(t)[i].Known? ==> !Slots(t)[i].term.Opaque?
  {
    if Is(t, LIST) {
      KnownNotOpaque(t.car);
      KnownNotOpaque(t.cdr);
    } else if Literal(t) {
      LiteralNotOpaque(t);
    }
  }

  /** Past its beginning the script has no exceptions. */
  lemma {:induction false} NeverRaises(op0: string, t: Tree, s: State)
    requires NoBegin(s)
    ensures var r := Run(Scripted(op0), t, s); r.Returned? && NoBegin(r.state)
    decreases Size(t), 1
  {
    if FirstIs(t, "%seq") {
      OpNeverRaises(op0, "%seq", t, s);
    } else if FirstIs(t, "%and") {
      OpNeverRaises(op0, "%and", t, s);
    } else if FirstIs(t, "%or") {
      OpNeverRaises(op0, "%or", t, s);
    } else if Is(t, THUNK) {
      NeverRaises(op0, t.car, s);
    } else if Is(t, LIST) && Is(t.car, THUNK) && t.cdr.Nil? {
      assert Size(t.car) < Size(t);
      NeverRaises(op0, t.car.car, s);
    }
  }

  lemma {:induction false} OpNeverRaises(op0: string, op: string, t: Tree, s: State)
    requires IsOp(op) && FirstIs(t, op) && NoBegin(s)
    ensures var r := Run(Scripted(op0), t, s); r.Returned? && NoBegin(r.state)
    decreases Size(t), 0
  {
    hide Run, Slots;
    var w := Scripted(op0);
    RunOp(w, op, t, s);
    RunWordsIs(w, op, t.cdr, s, Size(t));
    ScriptedGlom(op0, t.cdr, s);
    KnownNotOpaque(t.cdr);
    AllNeverRaise(op0, op, SlotTerms(Slots(t.cdr), LATER), s, Size(t.cdr));
  }

  lemma {:induction false} AllNeverRaise(op0: string, op: string, terms: seq<Term>, s: State, n: nat)
    requires Smaller(terms, n) && Plain(terms) && NoBegin(s)
    ensures var r := Apply(Scripted(op0), op, terms, s, n); r.Returned? && NoBegin(r.state)
    decreases n, 0, |terms|
  {
    if terms != [] {
      var first := CallTerm(Scripted(op0), terms[0], s, n);
      if terms[0].Closure? {
        NeverRaises(op0, terms[0].body, s);
      }
      if |terms| > 1 {
        AllNeverRaise(op0, op, terms[1..], first.state, n);
      }
    }
  }

  /** The result has this truth value and leaves the rest of the script. */
  predicate Yields(r: Ran, goal: bool, rest: State) {
    r.Returned? && IsTrue(r.value) == goal && r.state == rest
  }

  ghost predicate Follows(w: World, t: Tree, goal: bool, p: State) {
    NoBegin(p) && forall rest | NoBegin(rest) :: Yields(Run(w, t, p + rest), goal, rest)
  }

  ghost predicate TermFollows(w: World, t: Term, n: nat, goal: bool, p: State)
    requires t.Closure? ==> Size(t.body) < n
  {
    NoBegin(p) && forall rest | NoBegin(rest) :: Yields(CallTerm(w, t, p + rest, n), goal, rest)
  }

  ghost predicate AllFollow(w: World, op: string, terms: seq<Term>, n: nat, goal: bool, p: State)
    requires Smaller(terms, n)
  {
    NoBegin(p) && forall rest | NoBegin(rest) :: Yields(Apply(w, op, terms, p + rest, n), goal, rest)
  }

  /** Whatever a command can yield, there is a script with which it does. */
  lemma {:induction false} ScriptFor(op0: string, t: Tree, goal: bool) returns (p: State)
    requires Allows(Can(t), goal)
    ensures Follows(Scripted(op0), t, goal, p)
    decreases Size(t), 1
  {
    if t.Nil? {
      p := [];
      assert forall rest: State :: p + rest == rest;
    } else if FirstIs(t, "%seq") {
      p := ScriptForOp(op0, "%seq", t, goal);
    } else if FirstIs(t, "%and") {
      p := ScriptForOp(op0, "%and", t, goal);
    } else if FirstIs(t, "%or") {
      p := ScriptForOp(op0, "%or", t, goal);
    } else if Is(t, THUNK) {
      p := ScriptFor(op0, t.car, goal);
    } else if Is(t, LIST) && Is(t.car, THUNK) && t.cdr.Nil? {
      assert Size(t.car) < Size(t);
      p := ScriptFor(op0, t.car.car, goal);
    } else {
      p := [Entry(goal)];
      EntryNext(op0, goal);
    }
  }

  function Entry(goal: bool): string { if goal then "yes" else "no" }

  lemma EntryNext(op0: string, goal: bool)
    ensures NoBegin([Entry(goal)])
    ensures forall rest: State :: Yields(Next(op0, [Entry(goal)] + rest), goal, rest)
  {
    assert "yes"[0] == 'y' && "no"[0] == 'n' && BEGIN[0] == 'b' && TRUE[0] == "0" && FALSE[0] == "1";
    forall rest: State
      ensures Yields(Next(op0, [Entry(goal)] + rest), goal, rest)
    {
      assert ([Entry(goal)] + rest)[1..] == rest && ([Entry(goal)] + rest)[0] == Entry(goal);
    }
  }

  lemma {:induction false} ScriptForOp(op0: string, op: string, t: Tree, goal: bool) returns (p: State)
    requires IsOp(op) && FirstIs(t, op) && Allows(Can(t), goal)
    ensures Follows(Scripted(op0), t, goal, p)
    decreases Size(t), 0
  {
    hide Run, Slots, Can, Combine, Apply, RunWords;
    var w, words := Scripted(op0), t.cdr;
    var terms := SlotTerms(Slots(words), LATER);
    CanOp(op, t);
    CanSlotsAt(Slots(words), Size(words));
    KnownNotOpaque(words);
    assert CanTerms(terms) == CanSlots(Slots(words), Size(words));
    RunOp(w, op, t, []);
    p := ScriptForAll(op0, op, terms, Size(words), goal);
    forall rest | NoBegin(rest)
      ensures Yields(Run(w, t, p + rest), goal, rest)
    {
      RunOp(w, op, t, p + rest);
      RunWordsIs(w, op, words, p + rest, Size(t));
      ScriptedGlom(op0, words, p + rest);
      assert NoBegin(p + rest);
    }
  }

  lemma {:induction false} ScriptForTerm(op0: string, t: Term, n: nat, goal: bool) returns (p: State)
    requires t.Closure? ==> Size(t.body) < n
    requires t != Opaque(MarkText(BEGIN)) && Allows(CanTerm(t), goal)
    ensures TermFollows(Scripted(op0), t, n, goal, p)
    decreases n, 0, 0
  {
    hide Scripted, Next;
    ScriptedIs(op0);
    if t.Closure? {
      p := ScriptFor(op0, t.body, goal);
    } else {
      p := [Entry(goal)];
      EntryNext(op0, goal);
    }
  }

  lemma {:induction false} ScriptForAll(op0: string, op: string, terms: seq<Term>, n: nat, goal: bool) returns (p: State)
    requires IsOp(op) && Smaller(terms, n) && Plain(terms) && Allows(Combine(op, CanTerms(terms)), goal)
    ensures AllFollow(Scripted(op0), op, terms, n, goal, p)
    decreases n, 0, |terms|
  {
    hide Scripted, IsTrue, Can;
    if terms == [] {
      p := [];
      assert forall rest: State :: p + rest == rest;
      EmptyTruth(op);
    } else if |terms| == 1 {
      p := ScriptForTerm(op0, terms[0], n, goal);
      OneFollows(Scripted(op0), op, terms, n, goal, p);
    } else {
      assert CanTerms(terms)[1..] == CanTerms(terms[1..]);
      var first := CanTerm(terms[0]);
      var stops := op != "%seq" && goal == (op == "%or") && Allows(first, goal);
      var begin := if op == "%seq" then first.yes else if stops then goal else op == "%and";
      p := ScriptForTerm(op0, terms[0], n, begin);
      if stops {
        OneFollows(Scripted(op0), op, terms, n, goal, p);
      } else {
        var more := ScriptForAll(op0, op, terms[1..], n, goal);
        MoreFollow(Scripted(op0), op, terms, n, begin, goal, p, more);
        p := p + more;
      }
    }
  }

  lemma EmptyTruth(op: string)
    requires IsOp(op)
    ensures IsTrue(Empty(op)) <==> op != "%or"
  {
    assert TRUE[0] == "0" && FALSE[0] == "1";
  }

  /** The first operand is the last one that is run. */
  lemma OneFollows(w: World, op: string, terms: seq<Term>, n: nat, goal: bool, p: State)
    requires IsOp(op) && Smaller(terms, n) && terms != [] && TermFollows(w, terms[0], n, goal, p)
    requires |terms| == 1 || (op != "%seq" && goal == (op == "%or"))
    ensures AllFollow(w, op, terms, n, goal, p)
  {
    hide CallTerm, IsTrue;
    forall rest | NoBegin(rest)
      ensures Yields(Apply(w, op, terms, p + rest, n), goal, rest)
    {
      assert Yields(CallTerm(w, terms[0], p + rest, n), goal, rest);
    }
  }

  /** The others are run after the first operand. */
  lemma MoreFollow(w: World, op: string, terms: seq<Term>, n: nat, begin: bool, goal: bool, p: State, more: State)
    requires IsOp(op) && Smaller(terms, n) && |terms| > 1 && TermFollows(w, terms[0], n, begin, p)
    requires op != "%seq" ==> begin == (op == "%and")
    requires AllFollow(w, op, terms[1..], n, goal, more)
    ensures AllFollow(w, op, terms, n, goal, p + more)
  {
    hide CallTerm, IsTrue, Apply;
    forall rest | NoBegin(rest)
      ensures Yields(Apply(w, op, terms, p + more + rest, n), goal, rest)
    {
      assert p + more + rest == p + (more + rest) && NoBegin(more + rest);
      var r := CallTerm(w, terms[0], p + (more + rest), n);
      assert Yields(r, begin, more + rest);
      ApplyGoes(w, op, terms, p + (more + rest), n);
    }
  }

  lemma ApplyGoes(w: World, op: string, terms: seq<Term>, s: State, n: nat)
    requires Smaller(terms, n) && |terms| > 1
    ensures var r := CallTerm(w, terms[0], s, n);
            r.Returned? && Goes(op, r.value) ==> Apply(w, op, terms, s, n) == Apply(w, op, terms[1..], r.state, n)
  {
  }

  // ----- words that are read too early

  lemma {:induction false} FirstUnknown(slots: seq<Slot>)
    requires !forall i | 0 <= i < |slots| :: slots[i].Known?
    ensures |KnownPrefix(slots)| < |slots| && slots[|KnownPrefix(slots)|].Unknown?
    decreases |slots|
  {
    if slots[0].Known? {
      assert exists i :: 0 <= i < |slots[1..]| && !slots[1..][i].Known? by {
        var i :| 0 <= i < |slots| && !slots[i].Known?;
        assert slots[1..][i - 1] == slots[i];
      }
      FirstUnknown(slots[1..]);
    }
  }

  /** A script with which the operator gets past the operands. */
  lemma ScriptPast(op: string, terms: seq<Term>, n: nat) returns (p: State)
    requires IsOp(op) && CanPass(op, terms) && Smaller(terms, n) && Plain(terms)
    ensures NoBegin(p)
    ensures var r := Apply(Scripted(op), op, terms, p, n); r.Returned? && Goes(op, r.value) && r.state == []
  {
    if terms == [] {
      p := [];
      EmptyGoes(op);
    } else {
      var goal := if op == "%seq" then Combine(op, CanTerms(terms)).yes else op == "%and";
      p := ScriptForAll(op, op, terms, n, goal);
      assert p + [] == p && NoBegin([]);
    }
  }

  lemma OtherRuns(w: World, s: State)
    ensures Run(w, OTHER_COMMAND, s) == w.run(OTHER_COMMAND, s)
  {
  }

  /** The flattened operands, with the block of the left command and the first word that is
      read too early. */
  lemma ReadTooEarly(op: string, first: seq<Term>, more: seq<Term>, p: State, n: nat)
    requires IsOp(op) && Smaller(first, n) && Smaller(more, n) && Size(OTHER_COMMAND) < n
    requires var r := Apply(Scripted(op), op, first, p, n); r.Returned? && Goes(op, r.value) && r.state == []
    ensures var terms := [Closure(OTHER_COMMAND)] + (first + ([Opaque(MarkText(BEGIN))] + more));
            Smaller(terms, n) && Apply(Scripted(op), op, terms, [BEGIN] + p, n) == Raised([BEGIN], [])
  {
    hide Scripted, Run;
    ScriptedIs(op);
    var w, bad := Scripted(op), [Opaque(MarkText(BEGIN))] + more;
    var command := [Closure(OTHER_COMMAND)];
    assert Smaller(bad, n) && Smaller(command, n);
    ApplyAppend(w, op, first, bad, p, n);
    assert bad[0] == Opaque(MarkText(BEGIN));
    assert Apply(w, op, bad, [], n) == Raised([BEGIN], []);
    ApplyAppend(w, op, command, first + bad, [BEGIN] + p, n);
    assert ([BEGIN] + p)[1..] == p;
    ApplyOne(w, op, OTHER_COMMAND, [BEGIN] + p, n);
    OtherRuns(w, [BEGIN] + p);
    GoingGoes(op);
  }

  /** The terms up to the first place that is not known, and the rest. */
  lemma CutAtUnknown(slots: seq<Slot>, m: string) returns (more: seq<Term>)
    requires !forall i | 0 <= i < |slots| :: slots[i].Known?
    ensures SlotTerms(slots, m) == KnownPrefix(slots) + ([Opaque(MarkText(m))] + more)
  {
    FirstUnknown(slots);
    hide KnownPrefix;
    var first, terms := KnownPrefix(slots), SlotTerms(slots, m);
    more := terms[|first| + 1..];
    assert forall i | 0 <= i < |first| :: terms[i] == first[i];
    assert terms == terms[..|first|] + ([terms[|first|]] + more);
  }

  lemma SomeUnknown(words: Tree)
    requires Quiet(words) && !Steady(words)
    ensures !forall i | 0 <= i < |Slots(words)| :: Slots(words)[i].Known?
  {
  }

  lemma PrefixIsPlain(words: Tree)
    ensures Plain(KnownPrefix(Slots(words)))
  {
    KnownNotOpaque(words);
    var first := KnownPrefix(Slots(words));
    forall i | 0 <= i < |first|
      ensures first[i] != Opaque(MarkText(BEGIN))
    {
      assert Slots(words)[i] == Known(first[i]);
    }
  }

  /** The flattened command fails on the first word that is read too early. */
  lemma FlatFails(op: string, words: Tree, flat: Tree, p: State)
    requires IsOp(op) && Quiet(words) && !Steady(words) && FirstIs(flat, op)
    requires flat.cdr == Append(List(Thunk(OTHER_COMMAND), Nil), words)
    requires var n := Size(flat.cdr); var first := KnownPrefix(Slots(words));
             && Smaller(first, n)
             && var r := Apply(Scripted(op), op, first, p, n); r.Returned? && Goes(op, r.value) && r.state == []
    ensures Run(Scripted(op), flat, [BEGIN] + p) == Raised([BEGIN], [])
  {
    hide Apply, RunWords, Slots, Scripted, Run, KnownPrefix, Glom, Goes, Steady;
    var w, s, n := Scripted(op), [BEGIN] + p, Size(flat.cdr);
    var first := KnownPrefix(Slots(words));
    RunOp(w, op, flat, s);
    RunWordsIs(w, op, flat.cdr, s, Size(flat));
    ScriptedGlom(op, flat.cdr, s);
    FlatSlots(words);
    SomeUnknown(words);
    var more := CutAtUnknown(Slots(words), BEGIN);
    SlotTermsAppend([Known(Closure(OTHER_COMMAND))], Slots(words), BEGIN);
    assert SlotTerms([Known(Closure(OTHER_COMMAND))], BEGIN) == [Closure(OTHER_COMMAND)];
    PartsSmaller([Closure(OTHER_COMMAND)], first + ([Opaque(MarkText(BEGIN))] + more), n);
    PartsSmaller(first, [Opaque(MarkText(BEGIN))] + more, n);
    PartsSmaller([Opaque(MarkText(BEGIN))], more, n);
    CommandSmaller(words);
    ReadTooEarly(op, first, more, p, n);
  }

  lemma CommandSmaller(words: Tree)
    ensures var n := Size(Append(List(Thunk(OTHER_COMMAND), Nil), words)); Size(OTHER_COMMAND) < n && Size(words) < n
  {
    assert Append(List(Thunk(OTHER_COMMAND), Nil), words) == List(Thunk(OTHER_COMMAND), words);
  }

  /** Words that only read would be read before the left command, if they are reached. */
  lemma EarlyDiffers(op: string, words: Tree, flat: Tree, t2: Tree) returns (s: State)
    requires IsOp(op) && Quiet(words) && !Steady(words) && CanPass(op, KnownPrefix(Slots(words)))
    requires FirstIs(flat, op) && FirstIs(t2, op) && t2.cdr == words
    requires flat.cdr == Append(List(Thunk(OTHER_COMMAND), Nil), words)
    ensures Run(Scripted(op), flat, s) != Binary(Scripted(op), op, OTHER_COMMAND, t2, s)
  {
    hide Apply, RunWords, CanPass, Slots, Scripted, Run, KnownPrefix, Steady;
    var first := KnownPrefix(Slots(words));
    CommandSmaller(words);
    PrefixIsPlain(words);
    var p := ScriptPast(op, first, Size(flat.cdr));
    s := [BEGIN] + p;
    FlatFails(op, words, flat, p);
    ScriptedIs(op);
    OtherRuns(Scripted(op), s);
    assert s[1..] == p;
    NeverRaises(op, t2, p);
  }

  lemma FlatteningFails(op: string, t2: Tree) returns (w: World, s: State)
    requires IsOp(op) && !Flattens(op, t2)
    ensures Run(w, Mkseq(op, OTHER_COMMAND, t2), s) != Binary(w, op, OTHER_COMMAND, t2, s)
  {
    var flat, words := Mkseq(op, OTHER_COMMAND, t2), t2.cdr;
    assert Operands(op, OTHER_COMMAND) == List(Thunk(OTHER_COMMAND), Nil) && Operands(op, t2) == words;
    MkseqOperands(op, OTHER_COMMAND, t2);
    hide Run, Binary, Mkseq, Quiet, Steady, CanPass, KnownPrefix;
    w, s := Telltale(op), [];
    if !Quiet(words) {
      LoudDiffers(op, words, flat, t2);
    } else if Steady(words) {
      EmptyDiffers(op, words, flat, t2);
    } else {
      w := Scripted(op);
      s := EarlyDiffers(op, words, flat, t2);
    }
  }

  /** For a command on the right that is not empty: flattening it preserves meaning, for
      every command on the left and whatever the shell does, if and only if it is not a call
      of the operator itself, or one whose words can be evaluated before the left command. */
  lemma FlatteningExactly(op: string, t2: Tree)
    requires IsOp(op) && (op == "%seq" ==> !t2.Nil?)
    ensures Flattens(op, t2) <==>
            forall w, t1, s | IsWords(Operands(op, t1)) ::
              Run(w, Mkseq(op, t1, t2), s) == Binary(w, op, t1, t2, s)
  {
    if Flattens(op, t2) {
      forall w, t1, s | IsWords(Operands(op, t1))
        ensures Run(w, Mkseq(op, t1, t2), s) == Binary(w, op, t1, t2, s)
      {
        FlatteningPreserves(w, op, t1, t2, s);
      }
    } else {
      var w, s := FlatteningFails(op, t2);
      assert IsWords(Operands(op, OTHER_COMMAND));
    }
  }

  /** A call of the operator with one word may be flattened if and only if the word has no
      wildcard and no leading tilde. */
  lemma OneWord(op: string, text: string)
    ensures Flattens(op, Prefix(op, List(Leaf(WORD, text), Nil))) <==> Tame(Fixed(Leaf(WORD, text)))
  {
    var word := Leaf(WORD, text);
    var words := List(word, Nil);
    assert LiteralTerms(word) == [Fixed(word)] && Slots(Nil) == [];
    var slots := Slots(words);
    assert Slots(word) == SlotsOf([Fixed(word)]);
    assert slots == Slots(word) + Slots(Nil);
    assert |slots| == 1 && slots[1..] == [];
    assert LiteralTerms(word)[0] == Fixed(word);
    assert LiteralTerms(Nil) == [] && Quiet(Nil);
    assert Quiet(words) <==> Quiet(word);
    assert Quiet(word) <==> !LeadsTilde(Fixed(word));
    assert Prefix(op, words).cdr == words;
    if Tame(Fixed(word)) {
      assert slots[0] == Known(Fixed(word)) && KnownPrefix(slots) == [Fixed(word)] + KnownPrefix(slots[1..]);
      assert Steady(words);
    } else {
      assert slots[0] == Unknown && KnownPrefix(slots) == [];
      assert !Steady(words);
    }
  }

  lemma {:induction false} WildToken(p: string, raw: seq<bool>, i: nat, k: nat)
    requires |raw| == |p| && i <= k < |p| && (p[k] == '*' || p[k] == '?') && forall j | 0 <= j < |p| :: raw[j]
    ensures exists n :: 0 <= n < |Patterns.Parse(p, raw, i)| && !Patterns.Parse(p, raw, i)[n].Lit?
    decreases k - i
  {
    var ts := Patterns.Parse(p, raw, i);
    if ts[0].Lit? {
      WildToken(p, raw, i + 1, k);
      var rest := Patterns.Parse(p, raw, i + 1);
      var n :| 0 <= n < |rest| && !rest[n].Lit?;
      assert ts == [ts[0]] + rest && ts[n + 1] == rest[n];
    }
  }

  lemma {:induction false} WildPart(p: string, raw: seq<bool>, from: nat, i: nat, k: nat)
    requires |raw| == |p| && from <= i <= |p| && from <= k < |p|
    requires (p[k] == '*' || p[k] == '?') && forall j | 0 <= j < |p| :: raw[j]
    ensures HasPattern(p, raw, from, i)
    decreases |p| - i
  {
    if i < |p| && p[i] != '/' {
      WildPart(p, raw, from, i + 1, k);
    } else if k < i {
      assert p[from..i][k - from] == p[k];
      WildToken(p[from..i], raw[from..i], 0, k - from);
    } else {
      WildPart(p, raw, i + 1, i + 1, k);
    }
  }

  /** In characters: a word without any of `*`, `?` and `[` and without a leading `~` is
      flattened; one with a `*`, a `?` or a leading `~` is not. */
  lemma OneWordText(op: string, text: string)
    ensures var flattens := Flattens(op, Prefix(op, List(Leaf(WORD, text), Nil)));
            && ((forall i | 0 <= i < |text| :: text[i] !in "*?[") && (text != "" ==> text[0] != '~') ==> flattens)
            && ((exists i :: 0 <= i < |text| && (text[i] == '*' || text[i] == '?')) || (text != "" && text[0] == '~')
                ==> !flattens)
  {
    hide Flattens;
    OneWord(op, text);
    var t := Fixed(Leaf(WORD, text));
    if i :| 0 <= i < |text| && (text[i] == '*' || text[i] == '?') {
      WildPart(text, RawFlags(t), 0, 0, i);
    }
  }

  lemma VariableSlots(name: string)
    ensures var variable := Node(VAR, "", Leaf(QWORD, name), Nil);
            Slots(variable) == [Unknown] && (Quiet(variable) <==> name != "")
  {
    var leaf := Leaf(QWORD, name);
    assert Literal(leaf) && OnlyReads(leaf) && !NoTerms(leaf) && (MayBeEmpty(leaf) <==> name == "");
    var variable := Node(VAR, "", leaf, Nil);
    assert !Literal(variable) && !NoTerms(variable);
  }

  /** `%or {} $name`, where the block always ends the operator, may be flattened if and only
      if the variable has a name: the lookup of one without fails, and would fail first. */
  lemma OneVariable(name: string)
    ensures var variable := Node(VAR, "", Leaf(QWORD, name), Nil);
            Flattens("%or", Prefix("%or", List(Thunk(Nil), List(variable, Nil)))) <==> name != ""
  {
    hide Quiet, CanPass, Slots, Literal;
    var variable := Node(VAR, "", Leaf(QWORD, name), Nil);
    var rest := List(variable, Nil);
    var words := List(Thunk(Nil), rest);
    VariableSlots(name);
    AfterBlock(Nil, rest);
    LastWord(variable);
    assert Prefix("%or", words).cdr == words;
    var slots := Slots(words);
    assert slots == [Known(Closure(Nil)), Unknown];
    assert slots[1..] == [Unknown] && KnownPrefix(slots[1..]) == [];
    assert KnownPrefix(slots) == [Closure(Nil)];
    assert slots[1] == Unknown;
    EmptyBlockStops();
  }

  lemma EmptyBlockStops()
    ensures !CanPass("%or", [Closure(Nil)])
  {
    assert CanTerms([Closure(Nil)]) == [Outcomes(true, false)];
  }
}
