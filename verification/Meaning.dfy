/** The meaning of what mkseq builds (src/syntax.c, src/glom.cpp, src/glob.cpp,
    script/initial.es, src/prim-ctl.c): whether `a op b`, flattened, does what running a and
    then perhaps b does. */
module SequenceMeaning {
  import opened SyntaxTrees
  import Patterns

  type Value = seq<string>

  /** Everything that commands can change. */
  type State = seq<string>

  /** A text, whether it starts with an unquoted ~, and whether it has an unquoted wildcard. */
  datatype Text = Text(s: string, tilde: bool, wild: bool)

  /** What a word stands for: a block of commands, a constant word, a concatenation, or some
      other text. */
  datatype Term = Closure(body: Tree) | Fixed(word: Tree) | Joined(left: Term, right: Term) | Opaque(text: Text)

  datatype Ran = Returned(value: Value, state: State) | Raised(exception: Value, state: State)

  datatype Glommed = Terms(terms: seq<Term>, state: State) | Failed(exception: Value, state: State)

  /** What the rest of the shell does: the values of words that only read variables, of all
      other words that are not constant, of fn %home and of the file system; calls of terms
      that are not blocks; and all other commands. */
  datatype World = World(
    vars: (Tree, State) -> seq<Text>,
    words: (Tree, State) -> (Ran, seq<Text>),
    home: (Term, State) -> (Ran, Text),
    files: (Term, State) -> seq<string>,
    call: (Term, State) -> Ran,
    run: (Tree, State) -> Ran)

  const TRUE: Value := ["0"]
  const FALSE: Value := ["1"]

  /** istrue */
  predicate IsTrue(v: Value) { forall i | 0 <= i < |v| :: v[i] == "" || v[i] == "0" }

  function Size(t: Tree): nat { if t.Node? then 1 + Size(t.car) + Size(t.cdr) else 0 }

  predicate Smaller(terms: seq<Term>, n: nat) {
    forall i | 0 <= i < |terms| :: terms[i].Closure? ==> Size(terms[i].body) < n
  }

  predicate NoClosures(terms: seq<Term>) {
    forall i | 0 <= i < |terms| :: !terms[i].Closure?
  }

  /** All blocks among the first terms are among the second. */
  predicate BlocksFrom(terms: seq<Term>, original: seq<Term>) {
    forall i | 0 <= i < |terms| && terms[i].Closure? :: terms[i] in original
  }

  lemma BlocksSmaller(terms: seq<Term>, original: seq<Term>, n: nat)
    requires BlocksFrom(terms, original) && Smaller(original, n)
    ensures Smaller(terms, n)
  {
  }

  // ----- words

  predicate IsLeaf(t: Tree) {
    Is(t, THUNK) || Is(t, LAMBDA) || Is(t, PRIM) || Is(t, QWORD) || Is(t, WORD)
  }

  /** Nothing has to be looked up to evaluate the words. */
  predicate Literal(t: Tree) {
    t.Nil? || IsLeaf(t) || ((Is(t, LIST) || Is(t, CONCAT)) && Literal(t.car) && Literal(t.cdr))
  }

  function JoinEach(left: Term, right: seq<Term>): (r: seq<Term>)
    ensures NoClosures(r)
  {
    seq(|right|, i requires 0 <= i < |right| => Joined(left, right[i]))
  }

  /** concat */
  function Product(left: seq<Term>, right: seq<Term>): (r: seq<Term>)
    ensures NoClosures(r)
  {
    if left == [] then [] else JoinEach(left[0], right) + Product(left[1..], right)
  }

  function LiteralTerms(t: Tree): (r: seq<Term>)
    requires Literal(t)
    ensures Smaller(r, Size(t))
  {
    if t.Nil? then []
    else if Is(t, LIST) then LiteralTerms(t.car) + LiteralTerms(t.cdr)
    else if Is(t, CONCAT) then Product(LiteralTerms(t.car), LiteralTerms(t.cdr))
    else if Is(t, THUNK) then [Closure(t.car)]
    else [Fixed(t)]
  }

  predicate IsEmptyText(t: Term) {
    match t
    case Closure(_) => false
    case Fixed(w) => (Is(w, WORD) || Is(w, QWORD)) && w.s == ""
    case Joined(l, r) => IsEmptyText(l) && IsEmptyText(r)
    case Opaque(text) => text.s == ""
  }

  /** hastilde */
  predicate LeadsTilde(t: Term) {
    match t
    case Closure(_) => false
    case Fixed(w) => Is(w, WORD) && w.s != "" && w.s[0] == '~'
    case Joined(l, r) => LeadsTilde(l) || (IsEmptyText(l) && LeadsTilde(r))
    case Opaque(text) => text.tilde
  }

  /** haswild */
  predicate HasWild(t: Term) {
    match t
    case Closure(_) => false
    case Fixed(w) => Is(w, WORD) && exists i :: 0 <= i < |w.s| && (w.s[i] == '*' || w.s[i] == '?' || w.s[i] == '[')
    case Joined(l, r) => HasWild(l) || HasWild(r)
    case Opaque(text) => text.wild
  }

  /** The text of the term is written out, character by character. */
  predicate IsWritten(t: Term) {
    match t
    case Closure(_) => false
    case Fixed(w) => Is(w, WORD) || Is(w, QWORD)
    case Joined(l, r) => IsWritten(l) && IsWritten(r)
    case Opaque(_) => false
  }

  function WrittenText(t: Term): string
    requires IsWritten(t)
  {
    if t.Fixed? then t.word.s else WrittenText(t.left) + WrittenText(t.right)
  }

  /** Which of its characters are not quoted. */
  function RawFlags(t: Term): (r: seq<bool>)
    requires IsWritten(t)
    ensures |r| == |WrittenText(t)|
  {
    if t.Fixed? then seq(|t.word.s|, i => Is(t.word, WORD)) else RawFlags(t.left) + RawFlags(t.right)
  }

  /** Some part of the path, between slashes, is a pattern: a bracket that is not closed
      there stands for itself. */
  predicate HasPattern(p: string, raw: seq<bool>, from: nat, i: nat)
    requires |raw| == |p| && from <= i <= |p|
    decreases |p| - i
  {
    if i < |p| && p[i] != '/' then HasPattern(p, raw, from, i + 1)
    else
      || (var tokens := Patterns.Parse(p[from..i], raw[from..i], 0); exists k :: 0 <= k < |tokens| && !tokens[k].Lit?)
      || (i < |p| && HasPattern(p, raw, i + 1, i + 1))
  }

  /** A concatenation of two literal words: the text of the left one first, and only the
      characters of unquoted words can be wild. */
  lemma ConcatWritten(left: Tree, right: Tree)
    requires (Is(left, WORD) || Is(left, QWORD)) && (Is(right, WORD) || Is(right, QWORD))
    ensures var t := Node(CONCAT, "", left, right);
            && Literal(t) && |LiteralTerms(t)| == 1 && IsWritten(LiteralTerms(t)[0])
            && WrittenText(LiteralTerms(t)[0]) == left.s + right.s
            && forall i | 0 <= i < |left.s + right.s| ::
                 RawFlags(LiteralTerms(t)[0])[i] == if i < |left.s| then Is(left, WORD) else Is(right, WORD)
  {
    var l, r := LiteralTerms(left), LiteralTerms(right);
    assert l == [Fixed(left)] && r == [Fixed(right)];
    assert Product(l, r) == JoinEach(l[0], r) + [];
  }

  /** glob may put the names of files in the place of the term. */
  predicate Expands(t: Term) {
    HasWild(t) && (IsWritten(t) ==> HasPattern(WrittenText(t), RawFlags(t), 0, 0))
  }

  /** glob leaves the term alone. */
  predicate Tame(t: Term) { !LeadsTilde(t) && !Expands(t) }

  /** The text of the words may be empty. */
  predicate MayBeEmpty(t: Tree) {
    || ((Is(t, WORD) || Is(t, QWORD)) && t.s == "") || Is(t, VAR)
    || (Is(t, LIST) && (MayBeEmpty(t.car) || MayBeEmpty(t.cdr)))
    || (Is(t, CONCAT) && MayBeEmpty(t.car) && MayBeEmpty(t.cdr))
  }

  /** The text of the words may start with an unquoted ~. */
  predicate MayLeadTilde(t: Tree) {
    || (Is(t, WORD) && t.s != "" && t.s[0] == '~')
    || (Is(t, LIST) && (MayLeadTilde(t.car) || MayLeadTilde(t.cdr)))
    || (Is(t, CONCAT) && (MayLeadTilde(t.car) || (MayBeEmpty(t.car) && MayLeadTilde(t.cdr))))
  }

  /** Evaluating the words reads variables at most; one with an empty name would fail. */
  predicate OnlyReads(t: Tree) {
    || Literal(t)
    || ((Is(t, LIST) || Is(t, CONCAT)) && OnlyReads(t.car) && OnlyReads(t.cdr))
    || (Is(t, VAR) && OnlyReads(t.car) && !MayBeEmpty(t.car))
  }

  /** The words never stand for any term. */
  predicate NoTerms(t: Tree) {
    || t.Nil?
    || (Is(t, LIST) && NoTerms(t.car) && NoTerms(t.cdr))
    || (Is(t, CONCAT) && (NoTerms(t.car) || NoTerms(t.cdr)))
    || (Is(t, VAR) && NoTerms(t.car))
  }

  /** A variable, or a concatenation with variables that cannot call fn %home. */
  predicate IsReader(t: Tree) {
    OnlyReads(t) && !Literal(t) && (Is(t, VAR) || (Is(t, CONCAT) && (NoTerms(t) || !MayLeadTilde(t))))
  }

  function Opaques(values: seq<Text>): (r: seq<Term>)
    ensures NoClosures(r)
  {
    seq(|values|, i requires 0 <= i < |values| => Opaque(values[i]))
  }

  function Untilded(values: seq<Text>): (r: seq<Term>)
    ensures NoClosures(r) && forall i | 0 <= i < |r| :: !LeadsTilde(r[i])
  {
    seq(|values|, i requires 0 <= i < |values| => Opaque(values[i].(tilde := false)))
  }

  function Following(first: seq<Term>, rest: Glommed): Glommed {
    match rest case Failed(_, _) => rest case Terms(terms, s) => Terms(first + terms, s)
  }

  /** glom2: the terms of a list of words, from left to right. */
  function Collect(w: World, t: Tree, s: State): (r: Glommed)
    ensures r.Terms? ==> Smaller(r.terms, Size(t))
  {
    if Is(t, LIST) then
      match Collect(w, t.car, s)
      case Failed(e, s1) => Failed(e, s1)
      case Terms(first, s1) => Following(first, Collect(w, t.cdr, s1))
    else if Literal(t) then Terms(LiteralTerms(t), s)
    else if IsReader(t) then Terms(if NoTerms(t) then [] else Untilded(w.vars(t, s)), s)
    else
      var (ran, values) := w.words(t, s);
      match ran
      case Raised(e, s1) => Failed(e, s1)
      case Returned(_, s1) => Terms(if NoTerms(t) then [] else Opaques(values), s1)
  }

  /** The first half of glob: fn %home is called for each term with a tilde. */
  function Homes(w: World, terms: seq<Term>, s: State): (r: Glommed)
    ensures r.Terms? ==> BlocksFrom(r.terms, terms)
    decreases |terms|
  {
    if terms == [] then Terms([], s)
    else if LeadsTilde(terms[0]) then
      var (ran, text) := w.home(terms[0], s);
      match ran
      case Raised(e, s1) => Failed(e, s1)
      case Returned(_, s1) => Following([Opaque(text)], Homes(w, terms[1..], s1))
    else Following([terms[0]], Homes(w, terms[1..], s))
  }

  function FilesOf(w: World, t: Term, s: State): (r: seq<Term>)
    ensures r == [t] || NoClosures(r)
  {
    if Expands(t) then
      var names := w.files(t, s);
      Opaques(seq(|names|, i requires 0 <= i < |names| => Text(names[i], false, false)))
    else [t]
  }

  /** The second half of glob: wildcards are expanded. */
  function Files(w: World, terms: seq<Term>, s: State): (r: seq<Term>)
    ensures BlocksFrom(r, terms)
    decreases |terms|
  {
    if terms == [] then [] else FilesOf(w, terms[0], s) + Files(w, terms[1..], s)
  }

  /** The terms of words whose evaluation does not fail. */
  function Collected(w: World, t: Tree, s: State): seq<Term> {
    var r := Collect(w, t, s);
    if r.Terms? then r.terms else []
  }

  /** glom, with globbing: all words are evaluated before any is globbed. */
  function Glom(w: World, t: Tree, s: State): (r: Glommed)
    ensures r.Terms? ==> Smaller(r.terms, Size(t))
  {
    match Collect(w, t, s)
    case Failed(e, s1) => Failed(e, s1)
    case Terms(terms, s1) =>
      match Homes(w, terms, s1)
      case Failed(e, s2) => Failed(e, s2)
      case Terms(homed, s2) =>
        BlocksSmaller(homed, terms, Size(t));
        BlocksSmaller(Files(w, homed, s2), homed, Size(t));
        Terms(Files(w, homed, s2), s2)
  }

  // ----- commands

  predicate IsOp(op: string) { op == "%seq" || op == "%and" || op == "%or" }

  /** Whether the operand after this result is run. */
  predicate Goes(op: string, v: Value) {
    op == "%seq" || (op == "%and" && IsTrue(v)) || (op == "%or" && !IsTrue(v))
  }

  /** What the operator yields without operands. */
  function Empty(op: string): Value { if op == "%or" then FALSE else TRUE }

  /** walk, on the commands that flattening concerns. */
  function Run(w: World, t: Tree, s: State): Ran
    decreases Size(t), 1, 0
  {
    if t.Nil? then Returned(TRUE, s)
    else if Is(t, THUNK) then Run(w, t.car, s)
    else if FirstIs(t, "%seq") then RunWords(w, "%seq", t.cdr, s, Size(t))
    else if FirstIs(t, "%and") then RunWords(w, "%and", t.cdr, s, Size(t))
    else if FirstIs(t, "%or") then RunWords(w, "%or", t.cdr, s, Size(t))
    else if Is(t, LIST) && Is(t.car, THUNK) && t.cdr.Nil? then
      assert Size(t.car) < Size(t);
      Run(w, t.car.car, s)
    else w.run(t, s)
  }

  /** The words are evaluated, and then the operator is applied. */
  function RunWords(w: World, op: string, words: Tree, s: State, n: nat): Ran
    requires Size(words) < n
    decreases n, 0, 1
  {
    match Glom(w, words, s)
    case Failed(e, s1) => Raised(e, s1)
    case Terms(terms, s1) => Apply(w, op, terms, s1, Size(words))
  }

  /** %seq, %and and %or on a list of terms. */
  function Apply(w: World, op: string, terms: seq<Term>, s: State, n: nat): Ran
    requires Smaller(terms, n)
    decreases n, 0, |terms|
  {
    if terms == [] then Returned(Empty(op), s)
    else
      var first := CallTerm(w, terms[0], s, n);
      if |terms| == 1 || first.Raised? || !Goes(op, first.value) then first
      else Apply(w, op, terms[1..], first.state, n)
  }

  function CallTerm(w: World, t: Term, s: State, n: nat): Ran
    requires t.Closure? ==> Size(t.body) < n
    decreases n, 0, 0
  {
    if t.Closure? then Run(w, t.body, s) else w.call(t, s)
  }

  /** Run the left command, and then perhaps the right one. */
  function Binary(w: World, op: string, t1: Tree, t2: Tree, s: State): Ran {
    var first := Run(w, t1, s);
    if first.Raised? || !Goes(op, first.value) then first else Run(w, t2, first.state)
  }

  // ----- evaluating words

  lemma FollowingIs(first: seq<Term>, g: Glommed)
    ensures Following(first, g) == if g.Failed? then g else Terms(first + g.terms, g.state)
  {
  }

  lemma FollowingTwice(a: seq<Term>, b: seq<Term>, g: Glommed)
    ensures Following(a, Following(b, g)) == Following(a + b, g)
    ensures Following([], g) == g
  {
    if g.Terms? {
      assert a + (b + g.terms) == a + b + g.terms && [] + g.terms == g.terms;
    }
  }

  lemma CollectCell(w: World, t: Tree, s: State)
    requires Is(t, LIST)
    ensures var first := Collect(w, t.car, s);
            Collect(w, t, s) == if first.Failed? then first else Following(first.terms, Collect(w, t.cdr, first.state))
  {
  }

  lemma CollectNil(w: World, s: State)
    ensures Collect(w, Nil, s) == Terms([], s)
  {
  }

  /** Words and more words: the second ones are evaluated after the first. */
  lemma {:induction false} CollectAppend(w: World, a: Tree, b: Tree, s: State)
    requires IsWords(a)
    ensures var first := Collect(w, a, s);
            Collect(w, Append(a, b), s) == if first.Failed? then first
                                           else Following(first.terms, Collect(w, b, first.state))
    decreases a
  {
    hide Collect, Following;
    if a.Nil? {
      CollectNil(w, s);
      FollowingTwice([], [], Collect(w, b, s));
    } else {
      CollectCell(w, a, s);
      CollectCell(w, Append(a, b), s);
      var first := Collect(w, a.car, s);
      if first.Terms? {
        CollectAppend(w, a.cdr, b, first.state);
        FollowingIs(first.terms, Collect(w, a.cdr, first.state));
        FollowingIs(first.terms, Collect(w, Append(a.cdr, b), first.state));
        var second := Collect(w, a.cdr, first.state);
        if second.Terms? {
          FollowingTwice(first.terms, second.terms, Collect(w, b, second.state));
        }
      }
    }
  }

  lemma {:induction false} HomesAppend(w: World, a: seq<Term>, b: seq<Term>, s: State)
    ensures var first := Homes(w, a, s);
            Homes(w, a + b, s) == if first.Failed? then first else Following(first.terms, Homes(w, b, first.state))
    decreases |a|
  {
    if a == [] {
      assert a + b == b;
      FollowingTwice([], [], Homes(w, b, s));
    } else {
      assert (a + b)[1..] == a[1..] + b && (a + b)[0] == a[0];
      var t := if LeadsTilde(a[0]) then Opaque(w.home(a[0], s).1) else a[0];
      var s1 := if LeadsTilde(a[0]) then w.home(a[0], s).0.state else s;
      HomesAppend(w, a[1..], b, s1);
      if Homes(w, a[1..], s1).Terms? {
        FollowingTwice([t], Homes(w, a[1..], s1).terms, Homes(w, b, Homes(w, a[1..], s1).state));
      }
    }
  }

  lemma {:induction false} HomesNone(w: World, terms: seq<Term>, s: State)
    requires forall i | 0 <= i < |terms| :: !LeadsTilde(terms[i])
    ensures Homes(w, terms, s) == Terms(terms, s)
    decreases |terms|
  {
    if terms != [] {
      HomesNone(w, terms[1..], s);
      assert [terms[0]] + terms[1..] == terms;
    }
  }

  lemma {:induction false} FilesAppend(w: World, a: seq<Term>, b: seq<Term>, s: State)
    ensures Files(w, a + b, s) == Files(w, a, s) + Files(w, b, s)
    decreases |a|
  {
    if a == [] {
      assert a + b == b;
    } else {
      assert (a + b)[1..] == a[1..] + b && (a + b)[0] == a[0];
      FilesAppend(w, a[1..], b, s);
    }
  }

  /** Evaluating the words has no effect and cannot fail. */
  predicate Quiet(t: Tree) {
    if Is(t, LIST) then Quiet(t.car) && Quiet(t.cdr)
    else if Literal(t) then forall i | 0 <= i < |LiteralTerms(t)| :: !LeadsTilde(LiteralTerms(t)[i])
    else IsReader(t)
  }

  lemma {:induction false} QuietCollects(w: World, t: Tree, s: State)
    requires Quiet(t)
    ensures var r := Collect(w, t, s);
            r.Terms? && r.state == s && forall i | 0 <= i < |r.terms| :: !LeadsTilde(r.terms[i])
  {
    if Is(t, LIST) {
      QuietCollects(w, t.car, s);
      QuietCollects(w, t.cdr, s);
    }
  }

  /** Quiet words after others: they add terms, and do nothing else. */
  lemma GlomAppend(w: World, a: Tree, b: Tree, s: State)
    requires IsWords(a) && Quiet(b)
    ensures var first := Glom(w, a, s);
            if first.Failed? then Glom(w, Append(a, b), s) == first
            else var s1 := Collect(w, a, s).state;
                 Glom(w, Append(a, b), s) == Terms(first.terms + Files(w, Collected(w, b, s1), first.state), first.state)
  {
    hide Collect, Homes, Files, LeadsTilde;
    CollectAppend(w, a, b, s);
    var first := Collect(w, a, s);
    if first.Terms? {
      QuietCollects(w, b, first.state);
      var more := Collect(w, b, first.state).terms;
      HomesAppend(w, first.terms, more, first.state);
      var homed := Homes(w, first.terms, first.state);
      if homed.Terms? {
        HomesNone(w, more, homed.state);
        FilesAppend(w, homed.terms, more, homed.state);
      }
    }
  }

  lemma GlomQuiet(w: World, t: Tree, s: State)
    requires Quiet(t)
    ensures Glom(w, t, s) == Terms(Files(w, Collected(w, t, s), s), s)
  {
    QuietCollects(w, t, s);
    HomesNone(w, Collect(w, t, s).terms, s);
  }

  // ----- what is known of the words

  datatype Slot = Known(term: Term) | Unknown

  predicate SmallSlots(slots: seq<Slot>, n: nat) {
    forall i | 0 <= i < |slots| :: slots[i].Known? && slots[i].term.Closure? ==> Size(slots[i].term.body) < n
  }

  /** Terms that glob may change could become any texts. */
  function SlotsOf(terms: seq<Term>): (r: seq<Slot>)
    ensures |r| == |terms|
    ensures forall n | Smaller(terms, n) :: SmallSlots(r, n)
  {
    seq(|terms|, i requires 0 <= i < |terms| => if Tame(terms[i]) then Known(terms[i]) else Unknown)
  }

  /** The terms that the words stand for whenever they are evaluated, and where others may
      come between them. */
  function Slots(t: Tree): (r: seq<Slot>)
    ensures SmallSlots(r, Size(t))
  {
    if Is(t, LIST) then Slots(t.car) + Slots(t.cdr)
    else if Literal(t) then SlotsOf(LiteralTerms(t))
    else if NoTerms(t) then []
    else [Unknown]
  }

  /** The terms are the known ones, with texts in the unknown places. */
  ghost predicate Fits(slots: seq<Slot>, terms: seq<Term>)
    decreases |slots|
  {
    if slots == [] then terms == []
    else if slots[0].Known? then terms != [] && terms[0] == slots[0].term && Fits(slots[1..], terms[1..])
    else exists m :: 0 <= m <= |terms| && NoClosures(terms[..m]) && Fits(slots[1..], terms[m..])
  }

  lemma {:induction false} FitsAppend(a: seq<Slot>, x: seq<Term>, b: seq<Slot>, y: seq<Term>)
    requires Fits(a, x) && Fits(b, y)
    ensures Fits(a + b, x + y)
    decreases |a|
  {
    if a == [] {
      assert a + b == b && x + y == y;
    } else {
      assert (a + b)[1..] == a[1..] + b;
      var m: nat := if a[0].Known? then 1 else
        var m: nat :| m <= |x| && NoClosures(x[..m]) && Fits(a[1..], x[m..]); m;
      FitsAppend(a[1..], x[m..], b, y);
      assert (x + y)[m..] == x[m..] + y && (x + y)[..m] == x[..m];
    }
  }

  predicate FirstFits(slot: Slot, piece: seq<Term>) {
    if slot.Known? then piece == [slot.term] else NoClosures(piece)
  }

  lemma FitsStep(slots: seq<Slot>, terms: seq<Term>) returns (m: nat)
    requires slots != [] && Fits(slots, terms)
    ensures m <= |terms| && FirstFits(slots[0], terms[..m]) && Fits(slots[1..], terms[m..])
  {
    if slots[0].Known? {
      m := 1;
    } else {
      m :| m <= |terms| && NoClosures(terms[..m]) && Fits(slots[1..], terms[m..]);
    }
  }

  lemma FitsCons(slot: Slot, piece: seq<Term>, slots: seq<Slot>, terms: seq<Term>)
    requires FirstFits(slot, piece) && Fits(slots, terms)
    ensures Fits([slot] + slots, piece + terms)
  {
    assert ([slot] + slots)[1..] == slots;
    assert (piece + terms)[|piece|..] == terms && (piece + terms)[..|piece|] == piece;
  }

  lemma FitsNone()
    ensures Fits([], [])
  {
  }

  lemma {:induction false} FitsSplit(a: seq<Slot>, b: seq<Slot>, terms: seq<Term>) returns (cut: nat)
    requires Fits(a + b, terms)
    ensures cut <= |terms| && Fits(a, terms[..cut]) && Fits(b, terms[cut..])
    decreases |a|
  {
    hide Fits, FirstFits;
    if a == [] {
      cut := 0;
      assert a + b == b && terms[0..] == terms && terms[..0] == [];
      FitsNone();
    } else {
      assert (a + b)[1..] == a[1..] + b && (a + b)[0] == a[0];
      var m := FitsStep(a + b, terms);
      var rest := FitsSplit(a[1..], b, terms[m..]);
      cut := m + rest;
      FitsCons(a[0], terms[..m], a[1..], terms[m..][..rest]);
      assert [a[0]] + a[1..] == a;
      assert terms[..m] + terms[m..][..rest] == terms[..cut] && terms[m..][rest..] == terms[cut..];
    }
  }

  lemma {:induction false} OpaqueFits(terms: seq<Term>, globbed: seq<Term>)
    requires NoClosures(terms) && Fits(SlotsOf(terms), globbed)
    ensures NoClosures(globbed)
    decreases |terms|
  {
    if terms != [] {
      assert SlotsOf(terms)[1..] == SlotsOf(terms[1..]);
      var m: nat := if SlotsOf(terms)[0].Known? then 1 else
        var m: nat :| m <= |globbed| && NoClosures(globbed[..m]) && Fits(SlotsOf(terms)[1..], globbed[m..]); m;
      OpaqueFits(terms[1..], globbed[m..]);
      assert forall i | m <= i < |globbed| :: globbed[i] == globbed[m..][i - m];
      assert forall i | 0 <= i < m :: globbed[i] == globbed[..m][i];
    }
  }

  lemma UnknownFits(terms: seq<Term>)
    requires NoClosures(terms)
    ensures Fits([Unknown], terms)
  {
    assert terms[..|terms|] == terms && Fits([], terms[|terms|..]);
    assert [Unknown][1..] == [];
  }

  lemma {:induction false} GlobbedFits(w: World, terms: seq<Term>, s: State)
    requires Homes(w, terms, s).Terms?
    ensures forall s' :: Fits(SlotsOf(terms), Files(w, Homes(w, terms, s).terms, s'))
    decreases |terms|
  {
    if terms != [] {
      assert SlotsOf(terms)[1..] == SlotsOf(terms[1..]);
      var t := if LeadsTilde(terms[0]) then Opaque(w.home(terms[0], s).1) else terms[0];
      var s1 := if LeadsTilde(terms[0]) then w.home(terms[0], s).0.state else s;
      var rest := Homes(w, terms[1..], s1);
      GlobbedFits(w, terms[1..], s1);
      forall s'
        ensures Fits(SlotsOf(terms), Files(w, Homes(w, terms, s).terms, s'))
      {
        var first, all := FilesOf(w, t, s'), Files(w, Homes(w, terms, s).terms, s');
        assert Homes(w, terms, s).terms == [t] + rest.terms && ([t] + rest.terms)[1..] == rest.terms;
        assert all == first + Files(w, rest.terms, s');
        assert all[|first|..] == Files(w, rest.terms, s') && all[..|first|] == first;
        if !Tame(terms[0]) {
          assert NoClosures(first);
        }
      }
    }
  }

  lemma {:induction false} CollectedFits(w: World, t: Tree, s: State, globbed: seq<Term>)
    requires Collect(w, t, s).Terms? && Fits(SlotsOf(Collect(w, t, s).terms), globbed)
    ensures Fits(Slots(t), globbed)
  {
    hide Fits, SlotsOf, Literal;
    if Is(t, LIST) {
      CollectCell(w, t, s);
      var first, second := Collected(w, t.car, s), Collected(w, t.cdr, Collect(w, t.car, s).state);
      SlotsOfAppend(first, second);
      var cut := FitsSplit(SlotsOf(first), SlotsOf(second), globbed);
      CollectedFits(w, t.car, s, globbed[..cut]);
      CollectedFits(w, t.cdr, Collect(w, t.car, s).state, globbed[cut..]);
      FitsAppend(Slots(t.car), globbed[..cut], Slots(t.cdr), globbed[cut..]);
      assert globbed[..cut] + globbed[cut..] == globbed;
    } else if !Literal(t) {
      OpaqueFits(Collected(w, t, s), globbed);
      UnknownFits(globbed);
    }
  }

  lemma SlotsOfAppend(a: seq<Term>, b: seq<Term>)
    ensures SlotsOf(a + b) == SlotsOf(a) + SlotsOf(b)
  {
  }

  /** Whatever the shell does, the words stand for terms that fit what is known of them. */
  lemma GlomFits(w: World, t: Tree, s: State)
    requires Glom(w, t, s).Terms?
    ensures Fits(Slots(t), Glom(w, t, s).terms)
  {
    hide Fits, SlotsOf;
    var terms, s1 := Collect(w, t, s).terms, Collect(w, t, s).state;
    GlobbedFits(w, terms, s1);
    CollectedFits(w, t, s, Glom(w, t, s).terms);
  }

  /** The terms before the first unknown place. */
  function KnownPrefix(slots: seq<Slot>): (r: seq<Term>)
    ensures |r| <= |slots| && forall i | 0 <= i < |r| :: slots[i] == Known(r[i])
    decreases |slots|
  {
    if slots == [] || slots[0].Unknown? then [] else [slots[0].term] + KnownPrefix(slots[1..])
  }

  /** All words stand for constant terms, and evaluating them does nothing. */
  predicate Steady(t: Tree) {
    Quiet(t) && forall i | 0 <= i < |Slots(t)| :: Slots(t)[i].Known?
  }

  lemma {:induction false} FitsPrefix(slots: seq<Slot>, terms: seq<Term>)
    requires Fits(slots, terms)
    ensures KnownPrefix(slots) <= terms
    ensures (forall i | 0 <= i < |slots| :: slots[i].Known?) ==> terms == KnownPrefix(slots)
    decreases |slots|
  {
    if slots != [] && slots[0].Known? {
      FitsPrefix(slots[1..], terms[1..]);
    }
  }
}
