/** When flattening, as mkseq does it (src/syntax.c:130-154), preserves meaning. */
module SequenceFlattening {
  import opened SyntaxTrees
  import opened SequenceMeaning

  // ----- operands

  /** The bound only serves termination. */
  lemma {:induction false} AnyBound(w: World, op: string, terms: seq<Term>, s: State, n: nat, m: nat)
    requires Smaller(terms, n) && Smaller(terms, m)
    ensures Apply(w, op, terms, s, n) == Apply(w, op, terms, s, m)
    decreases |terms|
  {
    if terms != [] {
      assert Smaller(terms[1..], n) && Smaller(terms[1..], m);
      var first := CallTerm(w, terms[0], s, n);
      assert first == CallTerm(w, terms[0], s, m);
      if |terms| > 1 && first.Returned? {
        AnyBound(w, op, terms[1..], first.state, n, m);
      }
    }
  }

  /** Without operands the operator goes on. */
  lemma EmptyGoes(op: string)
    requires IsOp(op)
    ensures Goes(op, Empty(op))
  {
    assert FALSE[0] == "1";
  }

  /** An operator on some terms and then others is the operator on the two groups. */
  lemma {:induction false} ApplyAppend(w: World, op: string, a: seq<Term>, b: seq<Term>, s: State, n: nat)
    requires IsOp(op) && Smaller(a, n) && Smaller(b, n) && b != []
    ensures Smaller(a + b, n)
    ensures var first := Apply(w, op, a, s, n);
            Apply(w, op, a + b, s, n) ==
              if first.Raised? || !Goes(op, first.value) then first else Apply(w, op, b, first.state, n)
    decreases |a|
  {
    if a == [] {
      EmptyGoes(op);
      assert a + b == b;
    } else {
      assert Smaller(a[1..], n) && (a + b)[1..] == a[1..] + b && (a + b)[0] == a[0];
      var first := CallTerm(w, a[0], s, n);
      if first.Returned? && Goes(op, first.value) {
        if |a| == 1 {
          assert (a + b)[1..] == b;
        } else {
          ApplyAppend(w, op, a[1..], b, first.state, n);
        }
      }
    }
  }

  lemma RunOp(w: World, op: string, t: Tree, s: State)
    requires IsOp(op) && FirstIs(t, op)
    ensures Size(t.cdr) < Size(t) && Run(w, t, s) == RunWords(w, op, t.cdr, s, Size(t))
  {
  }

  lemma RunWordsIs(w: World, op: string, words: Tree, s: State, n: nat)
    requires Size(words) < n
    ensures var g := Glom(w, words, s);
            && (g.Terms? ==> Smaller(g.terms, Size(words)))
            && RunWords(w, op, words, s, n) == if g.Failed? then Raised(g.exception, g.state)
                                               else Apply(w, op, g.terms, g.state, Size(words))
  {
  }

  /** A command that is not a call of the operator becomes a block of its own. */
  function BlockOf(t: Tree): Tree {
    if Is(t, THUNK) then t.car else if IsThunk(t) then t.car.car else t
  }

  lemma BlockRuns(w: World, t: Tree, s: State)
    ensures Run(w, t, s) == Run(w, BlockOf(t), s)
  {
    if Is(t, LIST) && IsThunk(t) {
      assert !FirstIs(t, "%seq") && !FirstIs(t, "%and") && !FirstIs(t, "%or");
    }
  }

  lemma BlockSlots(t: Tree)
    ensures Literal(Thunkify(t)) && LiteralTerms(Thunkify(t)) == [Closure(BlockOf(t))]
    ensures Slots(List(Thunkify(t), Nil)) == [Known(Closure(BlockOf(t)))]
  {
    var thunk := Thunkify(t);
    assert SlotsOf([Closure(BlockOf(t))]) == [Known(Closure(BlockOf(t)))];
    assert LiteralTerms(Nil) == [] && SlotsOf([]) == [] && Slots(Nil) == [];
    if Is(thunk, LIST) {
      assert LiteralTerms(thunk.car) == [Closure(BlockOf(t))];
      assert [Closure(BlockOf(t))] + [] == [Closure(BlockOf(t))];
      assert Slots(thunk) == Slots(thunk.car) + Slots(thunk.cdr);
    }
    assert Slots(thunk) == [Known(Closure(BlockOf(t)))];
    assert [Known(Closure(BlockOf(t)))] + [] == [Known(Closure(BlockOf(t)))];
  }

  /** Words all of which are constant. */
  lemma SteadyGlom(w: World, t: Tree, s: State)
    requires Steady(t)
    ensures Glom(w, t, s) == Terms(KnownPrefix(Slots(t)), s)
  {
    GlomQuiet(w, t, s);
    GlomFits(w, t, s);
    FitsPrefix(Slots(t), Glom(w, t, s).terms);
  }

  lemma BlockSteady(t: Tree)
    ensures var b := List(Thunkify(t), Nil); Steady(b) && KnownPrefix(Slots(b)) == [Closure(BlockOf(t))]
  {
    BlockSlots(t);
    assert KnownPrefix([Known(Closure(BlockOf(t)))][1..]) == [];
  }

  lemma ApplyOne(w: World, op: string, body: Tree, s: State, n: nat)
    requires Size(body) < n
    ensures Apply(w, op, [Closure(body)], s, n) == Run(w, body, s)
  {
  }

  /** A command runs like the operator on the operands that it contributes. */
  lemma OperandsRun(w: World, op: string, t: Tree, s: State)
    requires IsOp(op)
    ensures Run(w, t, s) == RunWords(w, op, Operands(op, t), s, Size(Operands(op, t)) + 1)
  {
    hide Run, RunWords, Apply, Glom, Steady, KnownPrefix, Slots;
    var words := Operands(op, t);
    RunWordsIs(w, op, words, s, Size(words) + 1);
    if FirstIs(t, op) {
      RunOp(w, op, t, s);
      RunWordsIs(w, op, words, s, Size(t));
    } else {
      BlockRuns(w, t, s);
      BlockSteady(t);
      SteadyGlom(w, words, s);
      assert Glom(w, words, s).terms[0] == Closure(BlockOf(t));
      ApplyOne(w, op, BlockOf(t), s, Size(words));
    }
  }

  /** Running the node that has the two commands as blocks is running the one and then
      perhaps the other. */
  lemma BlocksRun(w: World, op: string, t1: Tree, t2: Tree, s: State)
    requires IsOp(op)
    ensures Run(w, Prefix(op, List(Thunk(t1), List(Thunk(t2), Nil))), s) == Binary(w, op, t1, t2, s)
  {
    hide Glom, RunWords, Steady, KnownPrefix, Slots;
    var second := List(Thunk(t2), Nil);
    var words := List(Thunk(t1), second);
    var node := Prefix(op, words);
    RunOp(w, op, node, s);
    RunWordsIs(w, op, words, s, Size(node));
    TwoBlocks(t1, t2);
    SteadyGlom(w, words, s);
    var terms := [Closure(t1), Closure(t2)];
    assert Glom(w, words, s).terms == terms;
    assert terms[0].body == t1 && terms[1].body == t2;
    assert terms[1..] == [Closure(t2)];
    var n := Size(words);
    var first := CallTerm(w, terms[0], s, n);
    assert first == Run(w, t1, s);
    if first.Returned? {
      ApplyOne(w, op, t2, first.state, n);
    }
  }

  /** The three operators on two blocks, and on none: `%and` goes on after a value all of
      whose words are empty or zero, `%or` after any other, and `%seq` always. */
  lemma OperatorsRun(w: World, t1: Tree, t2: Tree, s: State)
    ensures var first := Run(w, t1, s);
            var blocks := List(Thunk(t1), List(Thunk(t2), Nil));
            var holds := first.Returned? && forall x | x in first.value :: x == "" || x == "0";
            && Run(w, Prefix("%seq", blocks), s) == (if first.Raised? then first else Run(w, t2, first.state))
            && Run(w, Prefix("%and", blocks), s) == (if holds then Run(w, t2, first.state) else first)
            && Run(w, Prefix("%or", blocks), s) == (if first.Raised? || holds then first else Run(w, t2, first.state))
    ensures Run(w, Prefix("%seq", Nil), s) == Run(w, Prefix("%and", Nil), s) == Returned(["0"], s)
    ensures Run(w, Prefix("%or", Nil), s) == Returned(["1"], s)
  {
    hide Glom, Run, RunWords;
    BlocksRun(w, "%seq", t1, t2, s);
    BlocksRun(w, "%and", t1, t2, s);
    BlocksRun(w, "%or", t1, t2, s);
    NothingRuns(w, "%seq", s);
    NothingRuns(w, "%and", s);
    NothingRuns(w, "%or", s);
    var first := Run(w, t1, s);
    if first.Returned? {
      TrueWords(first.value);
    }
  }

  lemma TrueWords(v: Value)
    ensures IsTrue(v) <==> forall x | x in v :: x == "" || x == "0"
  {
    if forall x | x in v :: x == "" || x == "0" {
      assert forall i | 0 <= i < |v| :: v[i] in v;
    }
  }

  lemma NothingRuns(w: World, op: string, s: State)
    requires IsOp(op)
    ensures Run(w, Prefix(op, Nil), s) == Returned(if op == "%or" then ["1"] else ["0"], s)
  {
    hide Glom, Run, RunWords;
    RunOp(w, op, Prefix(op, Nil), s);
    RunWordsIs(w, op, Nil, s, Size(Prefix(op, Nil)));
    NoWords();
    assert KnownPrefix([]) == [];
    SteadyGlom(w, Nil, s);
  }

  lemma AfterBlock(body: Tree, rest: Tree)
    ensures var words := List(Thunk(body), rest);
            Slots(words) == [Known(Closure(body))] + Slots(rest) && (Quiet(words) <==> Quiet(rest))
  {
    var block := Thunk(body);
    assert LiteralTerms(block) == [Closure(body)];
    assert Slots(block) == SlotsOf([Closure(body)]) == [Known(Closure(body))];
  }

  lemma LastWord(word: Tree)
    ensures Slots(List(word, Nil)) == Slots(word) && (Quiet(List(word, Nil)) <==> Quiet(word))
  {
    assert LiteralTerms(Nil) == [] && Slots(Nil) == [] && Quiet(Nil);
    assert Slots(word) + [] == Slots(word);
  }

  lemma TwoBlocks(t1: Tree, t2: Tree)
    ensures var words := List(Thunk(t1), List(Thunk(t2), Nil));
            Steady(words) && KnownPrefix(Slots(words)) == [Closure(t1), Closure(t2)]
  {
    hide Slots, Quiet, Literal;
    var words := List(Thunk(t1), List(Thunk(t2), Nil));
    AfterBlock(t1, List(Thunk(t2), Nil));
    AfterBlock(t2, Nil);
    NoWords();
    assert Slots(words) == [Known(Closure(t1)), Known(Closure(t2))];
    assert Slots(words)[1..] == [Known(Closure(t2))] && [Known(Closure(t2))][1..] == [];
  }

  lemma NoWords()
    ensures Slots(Nil) == [] && Quiet(Nil)
  {
    assert LiteralTerms(Nil) == [];
  }

  // ----- what commands can yield

  /** Whether a command can yield a true value, and whether it can yield a false one. */
  datatype Outcomes = Outcomes(yes: bool, no: bool)

  const BOTH := Outcomes(true, true)

  predicate Sub(a: Outcomes, b: Outcomes) { (a.yes ==> b.yes) && (a.no ==> b.no) }

  predicate Allows(o: Outcomes, goal: bool) { if goal then o.yes else o.no }

  /** The operator on operands with these outcomes. */
  function Combine(op: string, os: seq<Outcomes>): (r: Outcomes)
    ensures (forall i | 0 <= i < |os| :: os[i].yes || os[i].no) ==> r.yes || r.no
    decreases |os|
  {
    if os == [] then Outcomes(op != "%or", op == "%or")
    else if |os| == 1 then os[0]
    else
      var rest := Combine(op, os[1..]);
      if op == "%and" then Outcomes(os[0].yes && rest.yes, os[0].no || (os[0].yes && rest.no))
      else if op == "%or" then Outcomes(os[0].yes || (os[0].no && rest.yes), os[0].no && rest.no)
      else rest
  }

  /** What a command can yield in some shell or other. */
  function Can(t: Tree): (o: Outcomes)
    ensures o.yes || o.no
    decreases Size(t)
  {
    if t.Nil? then Outcomes(true, false)
    else if Is(t, THUNK) then Can(t.car)
    else if FirstIs(t, "%seq") then Combine("%seq", CanSlots(Slots(t.cdr), Size(t.cdr)))
    else if FirstIs(t, "%and") then Combine("%and", CanSlots(Slots(t.cdr), Size(t.cdr)))
    else if FirstIs(t, "%or") then Combine("%or", CanSlots(Slots(t.cdr), Size(t.cdr)))
    else if Is(t, LIST) && Is(t.car, THUNK) && t.cdr.Nil? then
      assert Size(t.car) < Size(t);
      Can(t.car.car)
    else BOTH
  }

  function CanSlots(slots: seq<Slot>, n: nat): (r: seq<Outcomes>)
    requires SmallSlots(slots, n)
    ensures |r| == |slots| && forall i | 0 <= i < |r| :: r[i].yes || r[i].no
    decreases n, |slots|
  {
    if slots == [] then []
    else [if slots[0].Known? && slots[0].term.Closure? then Can(slots[0].term.body) else BOTH] + CanSlots(slots[1..], n)
  }

  function CanTerm(t: Term): (o: Outcomes)
    ensures o.yes || o.no
  {
    if t.Closure? then Can(t.body) else BOTH
  }

  function CanSlot(slot: Slot): (o: Outcomes)
    ensures o.yes || o.no
  {
    if slot.Known? then CanTerm(slot.term) else BOTH
  }

  function CanTerms(terms: seq<Term>): (r: seq<Outcomes>)
    ensures |r| == |terms| && forall i | 0 <= i < |r| :: r[i].yes || r[i].no
  {
    seq(|terms|, i requires 0 <= i < |terms| => CanTerm(terms[i]))
  }

  lemma {:induction false} CanSlotsAt(slots: seq<Slot>, n: nat)
    requires SmallSlots(slots, n)
    ensures forall i | 0 <= i < |slots| :: CanSlots(slots, n)[i] == CanSlot(slots[i])
    decreases |slots|
  {
    if slots != [] {
      CanSlotsAt(slots[1..], n);
    }
  }

  lemma CanOp(op: string, t: Tree)
    requires IsOp(op) && FirstIs(t, op)
    ensures Can(t) == Combine(op, CanSlots(Slots(t.cdr), Size(t.cdr)))
  {
  }

  // ----- no shell yields anything else

  lemma {:induction false} BothAreBoth(op: string, slots: seq<Slot>, os: seq<Outcomes>)
    requires Fits(slots, []) && slots != [] && |os| == |slots|
    requires forall i | 0 <= i < |slots| :: os[i] == CanSlot(slots[i])
    ensures Combine(op, os) == BOTH
    decreases |slots|
  {
    if |slots| > 1 {
      BothAreBoth(op, slots[1..], os[1..]);
    }
  }

  /** Less can come out of the terms than of what is known of them. */
  lemma {:induction false} CombineFits(op: string, slots: seq<Slot>, os: seq<Outcomes>, terms: seq<Term>)
    requires Fits(slots, terms) && |os| == |slots|
    requires forall i | 0 <= i < |slots| :: os[i] == CanSlot(slots[i])
    ensures Sub(Combine(op, CanTerms(terms)), Combine(op, os))
    decreases |slots| + |terms|
  {
    if slots != [] {
      if slots[0].Known? {
        KnownFits(op, slots, os, terms);
      } else {
        var m: nat :| m <= |terms| && NoClosures(terms[..m]) && Fits(slots[1..], terms[m..]);
        if |slots| > 1 {
          if m == 0 {
            assert terms[0..] == terms;
            CombineFits(op, slots[1..], os[1..], terms);
          } else {
            UnknownFirst(op, slots, os, terms, m);
          }
        }
      }
    }
  }

  lemma KnownFits(op: string, slots: seq<Slot>, os: seq<Outcomes>, terms: seq<Term>)
    requires Fits(slots, terms) && |os| == |slots| && slots != [] && slots[0].Known?
    requires forall i | 0 <= i < |slots| :: os[i] == CanSlot(slots[i])
    ensures Sub(Combine(op, CanTerms(terms)), Combine(op, os))
    decreases |slots| + |terms|, 0
  {
    hide Can;
    assert CanTerms(terms)[1..] == CanTerms(terms[1..]);
    if |slots| == 1 {
      assert slots[1..] == [] && terms[1..] == [];
    } else if |terms| == 1 {
      BothAreBoth(op, slots[1..], os[1..]);
    } else {
      CombineFits(op, slots[1..], os[1..], terms[1..]);
    }
  }

  /** One more operand of which nothing is known, in front. */
  lemma BothFirst(op: string, os: seq<Outcomes>, more: seq<Outcomes>)
    requires |os| > 1 && os[0] == BOTH
    requires if more == [] then Combine(op, os[1..]) == BOTH else Sub(Combine(op, more), Combine(op, os))
    ensures Sub(Combine(op, [BOTH] + more), Combine(op, os))
  {
    assert ([BOTH] + more)[1..] == more;
  }

  lemma UnknownFirst(op: string, slots: seq<Slot>, os: seq<Outcomes>, terms: seq<Term>, m: nat)
    requires |os| == |slots| > 1 && slots[0].Unknown?
    requires 0 < m <= |terms| && NoClosures(terms[..m]) && Fits(slots[1..], terms[m..])
    requires forall i | 0 <= i < |slots| :: os[i] == CanSlot(slots[i])
    ensures Sub(Combine(op, CanTerms(terms)), Combine(op, os))
    decreases |slots| + |terms|, 0
  {
    hide Combine, Can;
    assert terms[0] == terms[..m][0];
    var more := CanTerms(terms[1..]);
    assert CanTerms(terms) == [BOTH] + more;
    if |terms| == 1 {
      assert terms[m..] == [];
      BothAreBoth(op, slots[1..], os[1..]);
    } else {
      assert terms[1..][m - 1..] == terms[m..] && terms[1..][..m - 1] == terms[..m][1..];
      assert Fits(slots, terms[1..]);
      CombineFits(op, slots, os, terms[1..]);
    }
    BothFirst(op, os, more);
  }

  /** What a command yields is among what it can yield. */
  lemma {:induction false} RunYields(w: World, t: Tree, s: State)
    requires Run(w, t, s).Returned?
    ensures Allows(Can(t), IsTrue(Run(w, t, s).value))
    decreases Size(t), 1
  {
    if FirstIs(t, "%seq") {
      OpYields(w, "%seq", t, s);
    } else if FirstIs(t, "%and") {
      OpYields(w, "%and", t, s);
    } else if FirstIs(t, "%or") {
      OpYields(w, "%or", t, s);
    } else if Is(t, THUNK) {
      RunYields(w, t.car, s);
    } else if Is(t, LIST) && Is(t.car, THUNK) && t.cdr.Nil? {
      assert Size(t.car) < Size(t);
      RunYields(w, t.car.car, s);
    }
  }

  lemma {:induction false} OpYields(w: World, op: string, t: Tree, s: State)
    requires IsOp(op) && FirstIs(t, op) && Run(w, t, s).Returned?
    ensures Allows(Can(t), IsTrue(Run(w, t, s).value))
    decreases Size(t), 0
  {
    hide Run, Can, Combine, Fits;
    RunOp(w, op, t, s);
    RunWordsIs(w, op, t.cdr, s, Size(t));
    var g := Glom(w, t.cdr, s);
    ApplyYields(w, op, g.terms, g.state, Size(t.cdr));
    GlomFits(w, t.cdr, s);
    CanOp(op, t);
    CanSlotsAt(Slots(t.cdr), Size(t.cdr));
    CombineFits(op, Slots(t.cdr), CanSlots(Slots(t.cdr), Size(t.cdr)), g.terms);
  }

  lemma {:induction false} ApplyYields(w: World, op: string, terms: seq<Term>, s: State, n: nat)
    requires IsOp(op) && Smaller(terms, n) && Apply(w, op, terms, s, n).Returned?
    ensures Allows(Combine(op, CanTerms(terms)), IsTrue(Apply(w, op, terms, s, n).value))
    decreases n, 0, |terms|
  {
    EmptyGoes(op);
    if terms != [] {
      assert CanTerms(terms)[1..] == CanTerms(terms[1..]);
      var first := CallTerm(w, terms[0], s, n);
      if terms[0].Closure? {
        RunYields(w, terms[0].body, s);
      }
      assert Allows(CanTerms(terms)[0], IsTrue(first.value));
      if |terms| > 1 && Goes(op, first.value) {
        ApplyYields(w, op, terms[1..], first.state, n);
      }
    }
  }

  // ----- flattening

  /** Some shell gets past all these operands. */
  predicate CanPass(op: string, terms: seq<Term>) {
    var o := Combine(op, CanTerms(terms));
    terms == [] || op == "%seq" || (if op == "%and" then o.yes else o.no)
  }

  /** The right command may be flattened into the left one: if it is a call of the same
      operator, evaluating its words must do nothing, and its operands must be constant and
      at least one, or those before the first other one must end the operator. */
  predicate Flattens(op: string, t2: Tree) {
    FirstIs(t2, op) ==>
      && Quiet(t2.cdr)
      && if Steady(t2.cdr) then KnownPrefix(Slots(t2.cdr)) != [] else !CanPass(op, KnownPrefix(Slots(t2.cdr)))
  }

  /** Where no shell gets past, what follows does not matter. */
  lemma NeverPasses(w: World, op: string, terms: seq<Term>, more: seq<Term>, s: State, n: nat)
    requires IsOp(op) && !CanPass(op, terms) && Smaller(terms, n) && Smaller(more, n)
    ensures Smaller(terms + more, n) && Apply(w, op, terms + more, s, n) == Apply(w, op, terms, s, n)
  {
    if more == [] {
      assert terms + more == terms;
    } else {
      ApplyAppend(w, op, terms, more, s, n);
      if Apply(w, op, terms, s, n).Returned? {
        ApplyYields(w, op, terms, s, n);
      }
    }
  }

  /** The operands of the right command, whenever they are evaluated: the same first terms,
      some at least, and no later ones unless those do not matter. */
  ghost predicate Ready(op: string, first: seq<Term>, terms: seq<Term>) {
    first != [] && first <= terms && (terms == first || !CanPass(op, first))
  }

  lemma ReadyApplies(w: World, op: string, first: seq<Term>, terms: seq<Term>, s: State, n: nat)
    requires IsOp(op) && Ready(op, first, terms) && Smaller(terms, n)
    ensures Smaller(first, n) && Apply(w, op, terms, s, n) == Apply(w, op, first, s, n)
  {
    assert Smaller(first, n);
    if terms != first {
      var more := terms[|first|..];
      assert terms == first + more && Smaller(more, n);
      NeverPasses(w, op, first, more, s, n);
    }
  }

  /** What the operands of a command that may be flattened are after other words. */
  lemma OperandsReady(w: World, op: string, a: Tree, t2: Tree, s: State)
    requires IsWords(a) && Flattens(op, t2)
    ensures var b, first := Operands(op, t2), Glom(w, a, s);
            if first.Failed? then Glom(w, Append(a, b), s) == first
            else exists terms :: Glom(w, Append(a, b), s) == Terms(first.terms + terms, first.state)
                                 && Ready(op, KnownPrefix(Slots(b)), terms)
  {
    hide Glom, Fits, Combine, Append;
    var b := Operands(op, t2);
    if !FirstIs(t2, op) {
      BlockSteady(t2);
    }
    GlomAppend(w, a, b, s);
    var first := Glom(w, a, s);
    if first.Terms? {
      var collected := Collected(w, b, Collect(w, a, s).state);
      QuietFits(w, b, Collect(w, a, s).state, first.state);
      var terms := Files(w, collected, first.state);
      FitsPrefix(Slots(b), terms);
      assert Ready(op, KnownPrefix(Slots(b)), terms);
    }
  }

  lemma QuietFits(w: World, t: Tree, s: State, s': State)
    requires Quiet(t)
    ensures Fits(Slots(t), Files(w, Collected(w, t, s), s'))
  {
    QuietCollects(w, t, s);
    HomesNone(w, Collected(w, t, s), s);
    GlobbedFits(w, Collected(w, t, s), s);
    CollectedFits(w, t, s, Files(w, Collected(w, t, s), s'));
  }

  lemma OperandsReadyAlone(w: World, op: string, t2: Tree, s: State)
    requires Flattens(op, t2)
    ensures var b := Operands(op, t2);
            exists terms :: Glom(w, b, s) == Terms(terms, s) && Ready(op, KnownPrefix(Slots(b)), terms)
  {
    OperandsReady(w, op, Nil, t2, s);
    assert Collect(w, Nil, s) == Terms([], s);
    var b := Operands(op, t2);
    assert Append(Nil, b) == b && Glom(w, Nil, s) == Terms([], s);
    var terms :| Glom(w, b, s) == Terms([] + terms, s) && Ready(op, KnownPrefix(Slots(b)), terms);
    assert [] + terms == terms;
  }

  /** Applied to two groups of operands of which the second is ready. */
  lemma ApplyReady(w: World, op: string, ts: seq<Term>, first: seq<Term>, terms: seq<Term>, s: State, n: nat)
    requires IsOp(op) && Ready(op, first, terms) && Smaller(ts, n) && Smaller(terms, n)
    ensures Smaller(ts + terms, n) && Smaller(first, n)
    ensures var r := Apply(w, op, ts, s, n);
            Apply(w, op, ts + terms, s, n) ==
              if r.Raised? || !Goes(op, r.value) then r else Apply(w, op, first, r.state, n)
  {
    ApplyAppend(w, op, ts, terms, s, n);
    var r := Apply(w, op, ts, s, n);
    if r.Returned? {
      ReadyApplies(w, op, first, terms, r.state, n);
    }
    assert Smaller(first, n);
  }

  lemma RunNothing(w: World, t2: Tree, s: State)
    ensures Mkseq("%seq", Nil, t2) == t2 && Run(w, Nil, s) == Returned(TRUE, s)
  {
  }

  /** The right command runs like the operator on its first operands. */
  lemma RightRuns(w: World, op: string, t2: Tree, s: State, n: nat)
    requires IsOp(op) && Flattens(op, t2) && Smaller(KnownPrefix(Slots(Operands(op, t2))), n)
    ensures Run(w, t2, s) == Apply(w, op, KnownPrefix(Slots(Operands(op, t2))), s, n)
  {
    hide Run, RunWords, Apply, Glom, KnownPrefix, Slots, Flattens, Ready;
    var b := Operands(op, t2);
    var first := KnownPrefix(Slots(b));
    OperandsRun(w, op, t2, s);
    RunWordsIs(w, op, b, s, Size(b) + 1);
    OperandsReadyAlone(w, op, t2, s);
    var terms :| Glom(w, b, s) == Terms(terms, s) && Ready(op, first, terms);
    ReadyApplies(w, op, first, terms, s, Size(b));
    AnyBound(w, op, first, s, Size(b), n);
  }

  /** Flattening preserves meaning: effects, order and result. */
  lemma FlatteningPreserves(w: World, op: string, t1: Tree, t2: Tree, s: State)
    requires IsOp(op) && Flattens(op, t2) && IsWords(Operands(op, t1)) && (op == "%seq" ==> !t2.Nil?)
    ensures Run(w, Mkseq(op, t1, t2), s) == Binary(w, op, t1, t2, s)
  {
    hide Run, RunWords, Apply, Glom, KnownPrefix, Slots, Mkseq, Operands, Flattens, Ready;
    if op == "%seq" && t1.Nil? {
      RunNothing(w, t2, s);
    } else {
      var a, b := Operands(op, t1), Operands(op, t2);
      var flat, first := Mkseq(op, t1, t2), KnownPrefix(Slots(b));
      MkseqOperands(op, t1, t2);
      OperandsRun(w, op, t1, s);
      RunOp(w, op, flat, s);
      RunWordsIs(w, op, a, s, Size(a) + 1);
      RunWordsIs(w, op, Append(a, b), s, Size(flat));
      OperandsReady(w, op, a, t2, s);
      if Glom(w, a, s).Terms? {
        var ts, s1 := Glom(w, a, s).terms, Glom(w, a, s).state;
        var terms :| Glom(w, Append(a, b), s) == Terms(ts + terms, s1) && Ready(op, first, terms);
        var n := Size(Append(a, b));
        PartsSmaller(ts, terms, n);
        ApplyReady(w, op, ts, first, terms, s1, n);
        AnyBound(w, op, ts, s1, Size(a), n);
        var r := Apply(w, op, ts, s1, n);
        if r.Returned? {
          RightRuns(w, op, t2, r.state, n);
        }
      }
    }
  }

  lemma PartsSmaller(a: seq<Term>, b: seq<Term>, n: nat)
    requires Smaller(a + b, n)
    ensures Smaller(a, n) && Smaller(b, n)
  {
    assert forall i | 0 <= i < |a| :: a[i] == (a + b)[i];
    assert forall i | 0 <= i < |b| :: b[i] == (a + b)[|a| + i];
  }
}
