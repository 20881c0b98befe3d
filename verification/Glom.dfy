/** src/glom.cpp: expanding a word tree to a list of terms, with or without a list that
    says which characters of each word were not quoted.  Variable lookup, command
    evaluation and the printing of closures are parameters. */
module Expansion {
  import opened Patterns

  datatype Tree =
    | Nil
    | Word(s: string)
    | Qword(s: string)
    | Function(id: nat)
    | Prim(primitive: string)
    | Var(name: Tree)
    | Varsub(name: Tree, sub: Tree)
    | Call(command: Tree)
    | List(first: Tree, rest: Tree)
    | Concat(left: Tree, right: Tree)
    | Other(kind: nat)

  datatype Term = Str(s: string) | Closure(code: Tree, bound: bool)

  datatype Failure =
    | NullName
    | EmptyName
    | MultiWordName
    | BadSubscript(word: string)
    | BadNode(kind: nat)
    | Thrown(e: seq<string>)

  datatype Result<T> = Ok(value: T) | Err(error: Failure)

  datatype World = World(
    lookup: string -> seq<Term>,
    walk: Tree -> Result<seq<Term>>,
    show: (Tree, bool) -> string)

  /** getstr */
  function Text(w: World, t: Term): string {
    match t case Str(s) => s case Closure(code, bound) => w.show(code, bound)
  }

  function Termcat(w: World, a: Term, b: Term): Term {
    Str(Text(w, a) + Text(w, b))
  }

  // ----- concat

  function Row(w: World, a: Term, list: seq<Term>): (r: seq<Term>)
    ensures |r| == |list|
  {
    seq(|list|, j requires 0 <= j < |list| => Termcat(w, a, list[j]))
  }

  function Cross(w: World, l: seq<Term>, r: seq<Term>): seq<Term> {
    if l == [] then [] else Row(w, l[0], r) + Cross(w, l[1..], r)
  }

  lemma CrossStep(w: World, l: seq<Term>, r: seq<Term>, i: nat)
    requires i < |l|
    ensures Cross(w, l[i..], r) == Row(w, l[i], r) + Cross(w, l[i + 1..], r)
  {
    assert l[i..][1..] == l[i + 1..];
  }

  lemma OneMore(i: nat, n: nat)
    requires i > 0
    ensures i * n == n + (i - 1) * n
  {
  }

  lemma {:induction false} CrossLength(w: World, l: seq<Term>, r: seq<Term>)
    ensures |Cross(w, l, r)| == |l| * |r|
  {
    if l != [] {
      CrossLength(w, l[1..], r);
      OneMore(|l|, |r|);
    }
  }

  /** Every pair is joined, the left text in front, and those with the first left term
      come first. */
  lemma {:induction false} CrossAt(w: World, l: seq<Term>, r: seq<Term>, i: nat, j: nat)
    requires i < |l| && j < |r|
    ensures 0 <= i * |r| + j < |Cross(w, l, r)|
    ensures Cross(w, l, r)[i * |r| + j] == Str(Text(w, l[i]) + Text(w, r[j]))
  {
    if i > 0 {
      CrossAt(w, l[1..], r, i - 1, j);
      OneMore(i, |r|);
      var k := (i - 1) * |r| + j;
      assert Cross(w, l, r)[|r| + k] == Cross(w, l[1..], r)[k];
    }
  }

  /** concat */
  method ConcatLists(w: World, l: seq<Term>, r: seq<Term>) returns (list: seq<Term>)
    ensures list == Cross(w, l, r)
  {
    hide Cross, Termcat;
    list := [];
    var i := 0;
    assert l[0..] == l;
    while i < |l|
      invariant i <= |l| && list + Cross(w, l[i..], r) == Cross(w, l, r)
    {
      CrossStep(w, l, r, i);
      ghost var before, row := list, Row(w, l[i], r);
      var j := 0;
      while j < |r|
        invariant j <= |r| && list == before + row[..j]
      {
        list := list + [Termcat(w, l[i], r[j])];
        j := j + 1;
      }
      assert row[..j] == row;
      assert list + Cross(w, l[i + 1..], r) == before + (row + Cross(w, l[i + 1..], r));
      i := i + 1;
    }
    NoCross(w, l[i..], r);
  }

  lemma NoCross(w: World, l: seq<Term>, r: seq<Term>)
    requires l == []
    ensures Cross(w, l, r) == []
  {
  }

  // ----- subscript

  predicate IsDigit(c: char) { '0' <= c <= '9' }

  predicate IsSpace(c: char) { c in " \t\n\r" || c == '\U{000B}' || c == '\U{000C}' }

  function Digits(s: string, n: nat): nat {
    if s == "" || !IsDigit(s[0]) then n else Digits(s[1..], 10 * n + (s[0] as int - '0' as int))
  }

  /** atoi, for numbers that fit an int. */
  function Atoi(s: string): int {
    if s == "" then 0
    else if IsSpace(s[0]) then Atoi(s[1..])
    else if s[0] == '-' then 0 - Digits(s[1..], 0)
    else Digits(if s[0] == '+' then s[1..] else s, 0)
  }

  /** Elements lo to hi, counted from 1; those past the end do not count. */
  function Slice<T>(list: seq<T>, lo: int, hi: int): seq<T>
    requires lo >= 1
  {
    if lo > |list| || hi < lo then [] else list[lo - 1..if hi < |list| then hi else |list|]
  }

  /** The upper end of a range, after `...`. */
  function AfterDots(w: World, list: seq<Term>, lo: int, subs: seq<Term>): Result<seq<Term>>
    requires lo >= 1
    decreases |subs|, 0
  {
    if subs == [] then Ok(Slice(list, lo, |list|))
    else if Atoi(Text(w, subs[0])) < 1 then Err(BadSubscript(Text(w, subs[0])))
    else Then(Slice(list, lo, Atoi(Text(w, subs[0]))), Select(w, list, subs[1..]))
  }

  /** What subscripting by the single numbers and ranges selects. */
  function Select(w: World, list: seq<Term>, subs: seq<Term>): Result<seq<Term>>
    decreases |subs|, 1
  {
    if subs == [] then Ok([])
    else
      var lo := Atoi(Text(w, subs[0]));
      if lo < 1 then Err(BadSubscript(Text(w, subs[0])))
      else if |subs| > 1 && Text(w, subs[1]) == "..." then AfterDots(w, list, lo, subs[2..])
      else Then(Slice(list, lo, lo), Select(w, list, subs[1..]))
  }

  function Subscripted(w: World, list: seq<Term>, subs: seq<Term>): Result<seq<Term>> {
    if subs != [] && Text(w, subs[0]) == "..." then AfterDots(w, list, 1, subs[1..]) else Select(w, list, subs)
  }

  function Then<T>(front: seq<T>, r: Result<seq<T>>): Result<seq<T>> {
    match r case Err(e) => Err(e) case Ok(xs) => Ok(front + xs)
  }

  lemma ThenThen<T>(a: seq<T>, b: seq<T>, r: Result<seq<T>>)
    ensures Then(a, Then(b, r)) == Then(a + b, r)
  {
    if r.Ok? {
      assert a + (b + r.value) == a + b + r.value;
    }
  }

  /** The two loops of subscript that move a cursor, here the rest of the list from the
      counter on, and copy; the cursor starts again when it has passed lo. */
  method CopyRange(list: seq<Term>, lo: int, hi: int, current: seq<Term>, counter: nat)
    returns (copied: seq<Term>, current': seq<Term>, counter': nat)
    requires 1 <= counter <= |list| + 1 && current == list[counter - 1..]
    requires 1 <= lo && (lo <= |list| ==> hi <= |list|)
    ensures 1 <= counter' <= |list| + 1 && current' == list[counter' - 1..]
    ensures copied == Slice(list, lo, hi)
  {
    copied, current', counter' := [], current, counter;
    if lo > |list| {
      return;
    }
    if counter' > lo {
      current' := list;
      counter' := 1;
    }
    while counter' < lo
      invariant 1 <= counter' <= lo && current' == list[counter' - 1..]
    {
      counter', current' := counter' + 1, current'[1..];
    }
    while counter' <= hi
      invariant lo <= counter' <= |list| + 1 && (counter' <= hi + 1 || counter' == lo) && current' == list[counter' - 1..]
      invariant copied == list[lo - 1..counter' - 1]
    {
      copied := copied + [current'[0]];
      counter', current' := counter' + 1, current'[1..];
    }
  }

  /** The number after `...`, or the length of the list when nothing follows. */
  method UpperEnd(w: World, list: seq<Term>, subs: seq<Term>, n: nat, lo: int) returns (end: Result<int>, m: nat)
    requires n <= |subs| && lo >= 1
    ensures n <= m <= |subs|
    ensures end.Ok? ==> end.value <= |list|
    ensures AfterDots(w, list, lo, subs[n..]) ==
              if end.Err? then Err(end.error)
              else Then(Slice(list, lo, end.value), Select(w, list, subs[m..]))
  {
    hide Atoi;
    if n == |subs| {
      ThenNil(Slice(list, lo, |list|));
      return Ok(|list|), n;
    }
    var hi := Atoi(Text(w, subs[n]));
    if hi < 1 {
      return Err(BadSubscript(Text(w, subs[n]))), n;
    }
    if hi > |list| {
      hi := |list|;
    }
    assert subs[n..][1..] == subs[n + 1..];
    end, m := Ok(hi), n + 1;
  }

  /** subscript: the cursor never loses its place. */
  method Subscript(w: World, list: seq<Term>, subs: seq<Term>) returns (r: Result<seq<Term>>)
    ensures r == Subscripted(w, list, subs)
  {
    hide Slice, Atoi, AfterDots;
    var result, current, counter := [], list, 1;
    var n := 0;
    var copied, end;
    if subs != [] && Text(w, subs[0]) == "..." {
      end, n := UpperEnd(w, list, subs, 1, 1);
      if end.Err? {
        return Err(end.error);
      }
      result, current, counter := CopyRange(list, 1, end.value, current, counter);
    } else {
      assert subs[0..] == subs;
      NilThen(Select(w, list, subs));
    }
    while n < |subs|
      invariant n <= |subs| && 1 <= counter <= |list| + 1 && current == list[counter - 1..]
      invariant Then(result, Select(w, list, subs[n..])) == Subscripted(w, list, subs)
    {
      var lo := Atoi(Text(w, subs[n]));
      if lo < 1 {
        return Err(BadSubscript(Text(w, subs[n])));
      }
      ghost var before := subs[n..];
      n := n + 1;
      assert before[1..] == subs[n..];
      var hi := lo;
      if n < |subs| && Text(w, subs[n]) == "..." {
        assert before[2..] == subs[n + 1..];
        end, n := UpperEnd(w, list, subs, n + 1, lo);
        if end.Err? {
          return Err(end.error);
        }
        hi := end.value;
      }
      copied, current, counter := CopyRange(list, lo, hi, current, counter);
      ThenThen(result, copied, Select(w, list, subs[n..]));
      result := result + copied;
    }
    assert subs[n..] == [];
    ThenNil(result);
    r := Ok(result);
  }

  lemma ThenNil<T>(a: seq<T>)
    ensures Then(a, Ok([])) == Ok(a)
  {
    assert a + [] == a;
  }

  lemma NilThen<T>(r: Result<seq<T>>)
    ensures Then([], r) == r
  {
    if r.Ok? {
      assert [] + r.value == r.value;
    }
  }

  // ----- what a tree means

  /** varlookup, which does not take an empty name. */
  function Lookup(w: World, name: string): Result<seq<Term>> {
    if name == "" then Err(EmptyName) else Ok(w.lookup(name))
  }

  function LookupAll(w: World, names: seq<Term>): Result<seq<Term>> {
    if names == [] then Ok([])
    else match Lookup(w, Text(w, names[0]))
         case Err(e) => Err(e)
         case Ok(list) => Then(list, LookupAll(w, names[1..]))
  }

  /** The words of a tree. */
  function Words(w: World, tree: Tree): Result<seq<Term>> {
    match tree
    case Nil => Ok([])
    case Word(s) => Ok([Str(s)])
    case Qword(s) => Ok([Str(s)])
    case Function(id) => Ok([Closure(tree, true)])
    case Prim(name) => Ok([Closure(tree, false)])
    case Var(name) =>
      (match Words(w, name) case Err(e) => Err(e) case Ok(names) => LookupAll(w, names))
    case Varsub(name, sub) =>
      (match Words(w, name)
       case Err(e) => Err(e)
       case Ok(names) =>
         if names == [] then Err(NullName)
         else if |names| > 1 then Err(MultiWordName)
         else match Lookup(w, Text(w, names[0]))
              case Err(e) => Err(e)
              case Ok(list) =>
                match Words(w, sub) case Err(e) => Err(e) case Ok(subs) => Subscripted(w, list, subs))
    case Call(command) => w.walk(command)
    case List(first, rest) =>
      (match Words(w, first) case Err(e) => Err(e) case Ok(list) => Then(list, Words(w, rest)))
    case Concat(left, right) =>
      (match Words(w, left)
       case Err(e) => Err(e)
       case Ok(l) => match Words(w, right) case Err(e) => Err(e) case Ok(r) => Ok(Cross(w, l, r)))
    case Other(kind) => Err(BadNode(kind))
  }

  /** How often the loops of glom1 and glom2 go round. */
  ghost function Spine(tree: Tree): nat {
    match tree case Nil => 0 case List(_, rest) => 1 + Spine(rest) case _ => 1
  }

  // ----- glom1

  /** The nVar case: every name in turn, to the end of the result. */
  method Variables(w: World, names: seq<Term>) returns (r: Result<seq<Term>>)
    ensures r == LookupAll(w, names)
  {
    var result: seq<Term> := [];
    var n := 0;
    assert names[0..] == names;
    NilThen(LookupAll(w, names));
    while n < |names|
      invariant n <= |names| && Then(result, LookupAll(w, names[n..])) == LookupAll(w, names)
    {
      assert names[n..][1..] == names[n + 1..];
      var list := Lookup(w, Text(w, names[n]));
      if list.Err? {
        return list;
      }
      ThenThen(result, list.value, LookupAll(w, names[n + 1..]));
      result := result + list.value;
      n := n + 1;
    }
    ThenNil(result);
    r := Ok(result);
  }

  /** The nVarsub case. */
  method SubscriptedVariable(w: World, name: Tree, sub: Tree) returns (r: Result<seq<Term>>)
    ensures r == Words(w, Varsub(name, sub))
    decreases Varsub(name, sub), 0
  {
    hide Subscripted, LookupAll, Cross;
    var names := Glom1(w, name);
    if names.Err? {
      return Err(names.error);
    }
    if names.value == [] {
      return Err(NullName);
    }
    if |names.value| > 1 {
      return Err(MultiWordName);
    }
    var list := Lookup(w, Text(w, names.value[0]));
    if list.Err? {
      return list;
    }
    var subs := Glom1(w, sub);
    if subs.Err? {
      return Err(subs.error);
    }
    r := Subscript(w, list.value, subs.value);
  }

  /** glom1: the loop runs down the spine of a list. */
  method Glom1(w: World, tree: Tree) returns (r: Result<seq<Term>>)
    ensures r == Words(w, tree)
    decreases tree, 1
  {
    hide Subscripted, LookupAll, Cross;
    var result: seq<Term> := [];
    var tp := tree;
    NilThen(Words(w, tree));
    while tp != Nil
      invariant Then(result, Words(w, tp)) == Words(w, tree)
      invariant tp == Nil || tp == tree || tp < tree
      decreases Spine(tp)
    {
      var list: Result<seq<Term>>;
      var next := Nil;
      match tp {
        case Qword(s) => list := Ok([Str(s)]);
        case Word(s) => list := Ok([Str(s)]);
        case Function(_) => list := Ok([Closure(tp, true)]);
        case Prim(_) => list := Ok([Closure(tp, false)]);
        case Var(name) =>
          list := Glom1(w, name);
          if list.Ok? {
            list := Variables(w, list.value);
          }
        case Varsub(name, sub) => list := SubscriptedVariable(w, name, sub);
        case Call(command) => list := w.walk(command);
        case List(first, rest) =>
          list := Glom1(w, first);
          next := rest;
        case Concat(left, right) =>
          list := Glom1(w, left);
          if list.Ok? {
            var right' := Glom1(w, right);
            if right'.Ok? {
              var crossed := ConcatLists(w, list.value, right'.value);
              list := Ok(crossed);
            } else {
              list := right';
            }
          }
        case Other(kind) => list := Err(BadNode(kind));
      }
      if list.Err? {
        return Err(list.error);
      }
      ThenNil(result + list.value);
      ThenThen(result, list.value, Words(w, next));
      assert Words(w, tp) == if tp.List? then Then(list.value, Words(w, next)) else list;
      result := result + list.value;
      tp := next;
    }
    ThenNil(result);
    r := Ok(result);
  }

  // ----- words with a raw flag for each character

  /** A word of the result, and for each character whether it comes from an unquoted
      literal word. */
  datatype Marked = Marked(term: Term, raw: seq<bool>)

  function AllMarked(n: nat, b: bool): (r: seq<bool>)
    ensures |r| == n && forall i | 0 <= i < n :: r[i] == b
  {
    seq(n, _ => b)
  }

  function MarkedCat(w: World, a: Marked, b: Marked): Marked {
    Marked(Termcat(w, a.term, b.term), a.raw + b.raw)
  }

  function MarkedRow(w: World, a: Marked, list: seq<Marked>): (r: seq<Marked>)
    ensures |r| == |list|
  {
    seq(|list|, j requires 0 <= j < |list| => MarkedCat(w, a, list[j]))
  }

  function MarkedCross(w: World, l: seq<Marked>, r: seq<Marked>): seq<Marked> {
    if l == [] then [] else MarkedRow(w, l[0], r) + MarkedCross(w, l[1..], r)
  }

  /** Words that come from anything but an unquoted literal word. */
  function Unmarked(w: World, terms: seq<Term>): (r: seq<Marked>)
    ensures |r| == |terms|
  {
    seq(|terms|, i requires 0 <= i < |terms| => Marked(terms[i], AllMarked(|Text(w, terms[i])|, false)))
  }

  /** The meaning of a tree, where only nWord marks its characters. */
  function MarkedWords(w: World, tree: Tree): Result<seq<Marked>> {
    match tree
    case Nil => Ok([])
    case Word(s) => Ok([Marked(Str(s), AllMarked(|s|, true))])
    case List(first, rest) =>
      (match MarkedWords(w, first) case Err(e) => Err(e) case Ok(list) => Then(list, MarkedWords(w, rest)))
    case Concat(left, right) =>
      (match MarkedWords(w, left)
       case Err(e) => Err(e)
       case Ok(l) => match MarkedWords(w, right) case Err(e) => Err(e) case Ok(r) => Ok(MarkedCross(w, l, r)))
    case _ =>
      match Words(w, tree) case Err(e) => Err(e) case Ok(list) => Ok(Unmarked(w, list))
  }

  function Terms(marked: seq<Marked>): (r: seq<Term>)
    ensures |r| == |marked|
  {
    seq(|marked|, i requires 0 <= i < |marked| => marked[i].term)
  }

  lemma {:induction false} TermsCross(w: World, l: seq<Marked>, r: seq<Marked>)
    ensures Terms(MarkedCross(w, l, r)) == Cross(w, Terms(l), Terms(r))
  {
    if l != [] {
      TermsCross(w, l[1..], r);
      assert Terms(l)[1..] == Terms(l[1..]);
      assert Terms(MarkedRow(w, l[0], r)) == Row(w, Terms(l)[0], Terms(r));
      assert Terms(MarkedCross(w, l, r)) == Terms(MarkedRow(w, l[0], r)) + Terms(MarkedCross(w, l[1..], r));
    }
  }

  /** Marking changes no word: both walks fail alike and yield the same words. */
  lemma {:induction false} MarkedWordsAreWords(w: World, tree: Tree)
    ensures Words(w, tree) == match MarkedWords(w, tree)
                              case Err(e) => Err(e)
                              case Ok(marked) => Ok(Terms(marked))
    decreases tree
  {
    match tree {
      case Nil =>
        assert Terms([]) == [];
      case Word(s) =>
        assert Terms([Marked(Str(s), AllMarked(|s|, true))]) == [Str(s)];
      case List(first, rest) =>
        MarkedWordsAreWords(w, first);
        MarkedWordsAreWords(w, rest);
        if MarkedWords(w, tree).Ok? {
          var a, b := MarkedWords(w, first).value, MarkedWords(w, rest).value;
          assert Terms(a + b) == Terms(a) + Terms(b);
        }
      case Concat(left, right) =>
        MarkedWordsAreWords(w, left);
        MarkedWordsAreWords(w, right);
        if MarkedWords(w, tree).Ok? {
          TermsCross(w, MarkedWords(w, left).value, MarkedWords(w, right).value);
        }
      case Other(_) =>
      case _ =>
        if Words(w, tree).Ok? {
          assert Terms(Unmarked(w, Words(w, tree).value)) == Words(w, tree).value;
        }
    }
  }

  // ----- glom2

  /** A quoting word says of each character of a word what the marks say. */
  predicate Says(w: World, term: Term, quote: Quote, marked: Marked) {
    && marked.term == term && |marked.raw| == |Text(w, term)|
    && QuoteFits(quote, |marked.raw|) && RawFlags(quote, |marked.raw|) == marked.raw
  }

  predicate Agree(w: World, list: seq<Term>, quotes: seq<Quote>, marked: seq<Marked>) {
    && |list| == |quotes| == |marked|
    && forall i | 0 <= i < |list| :: Says(w, list[i], quotes[i], marked[i])
  }

  /** The flags of a quoting word, written out. */
  method Expanded(q: Quote, n: nat) returns (flags: string)
    requires QuoteFits(q, n)
    ensures QuoteFits(Flags(flags), n) && RawFlags(Flags(flags), n) == RawFlags(q, n)
  {
    match q {
      case QUOTED => flags := seq(n, _ => 'q');
      case UNQUOTED => flags := seq(n, _ => 'r');
      case Flags(s) => flags := s;
    }
    assert RawFlags(Flags(flags), n) == RawFlags(q, n);
  }

  /** qcat: what both quoting words say, one after the other. */
  method QCat(w: World, q1: Quote, q2: Quote, t1: Term, t2: Term, ghost m1: Marked, ghost m2: Marked) returns (q: Quote)
    requires Says(w, t1, q1, m1) && Says(w, t2, q2, m2)
    ensures Says(w, Termcat(w, t1, t2), q, MarkedCat(w, m1, m2))
  {
    ghost var n := |m1.raw| + |m2.raw|;
    if q1 == QUOTED && q2 == QUOTED {
      assert RawFlags(QUOTED, n) == m1.raw + m2.raw;
      return QUOTED;
    }
    if q1 == UNQUOTED && q2 == UNQUOTED {
      assert RawFlags(UNQUOTED, n) == m1.raw + m2.raw;
      return UNQUOTED;
    }
    var len1 := if q1.Flags? then |q1.flags| else |Text(w, t1)|;
    var len2 := if q2.Flags? then |q2.flags| else |Text(w, t2)|;
    var s1 := Expanded(q1, len1);
    var s2 := Expanded(q2, len2);
    q := Flags(s1 + s2);
    assert QuoteFits(q, n);
    FlagsAppend(s1, s2);
  }

  lemma FlagsAppend(s1: string, s2: string)
    requires QuoteFits(Flags(s1), |s1|) && QuoteFits(Flags(s2), |s2|)
    ensures QuoteFits(Flags(s1 + s2), |s1| + |s2|)
    ensures RawFlags(Flags(s1 + s2), |s1| + |s2|) == RawFlags(Flags(s1), |s1|) + RawFlags(Flags(s2), |s2|)
  {
  }

  /** qconcat */
  method QConcat(w: World, l: seq<Term>, r: seq<Term>, ql: seq<Quote>, qr: seq<Quote>,
                 ghost ml: seq<Marked>, ghost mr: seq<Marked>)
    returns (list: seq<Term>, quotes: seq<Quote>)
    requires Agree(w, l, ql, ml) && Agree(w, r, qr, mr)
    ensures Agree(w, list, quotes, MarkedCross(w, ml, mr))
  {
    hide Says, MarkedCross, MarkedCat, Termcat, Agree;
    list, quotes := [], [];
    ghost var done: seq<Marked> := [];
    var i := 0;
    SameLength(w, l, ql, ml);
    SameLength(w, r, qr, mr);
    NoneAgree(w);
    assert ml[0..] == ml && done + MarkedCross(w, ml, mr) == MarkedCross(w, ml, mr);
    while i < |l|
      invariant i <= |l| && Agree(w, list, quotes, done)
      invariant done + MarkedCross(w, ml[i..], mr) == MarkedCross(w, ml, mr)
    {
      ghost var row := MarkedRow(w, ml[i], mr);
      var j := 0;
      assert done + row[..0] == done;
      while j < |r|
        invariant j <= |r| && Agree(w, list, quotes, done + row[..j])
      {
        AgreeAt(w, l, ql, ml, i);
        AgreeAt(w, r, qr, mr, j);
        var q := QCat(w, ql[i], qr[j], l[i], r[j], ml[i], mr[j]);
        AgreeOne(w, list, quotes, done + row[..j], Termcat(w, l[i], r[j]), q, row[j]);
        assert done + row[..j + 1] == done + row[..j] + [row[j]];
        list := list + [Termcat(w, l[i], r[j])];
        quotes := quotes + [q];
        j := j + 1;
      }
      assert row[..j] == row;
      MarkedCrossStep(w, ml, mr, i);
      ghost var later := MarkedCross(w, ml[i + 1..], mr);
      assert done + (row + later) == (done + row) + later;
      done := done + row;
      i := i + 1;
    }
    NoMarkedCross(w, ml[i..], mr);
    assert done + [] == done;
  }

  lemma SameLength(w: World, list: seq<Term>, quotes: seq<Quote>, marked: seq<Marked>)
    requires Agree(w, list, quotes, marked)
    ensures |list| == |quotes| == |marked|
  {
  }

  lemma NoneAgree(w: World)
    ensures Agree(w, [], [], [])
  {
  }

  lemma AgreeAt(w: World, list: seq<Term>, quotes: seq<Quote>, marked: seq<Marked>, i: nat)
    requires Agree(w, list, quotes, marked) && i < |list|
    ensures |list| == |quotes| == |marked| && Says(w, list[i], quotes[i], marked[i])
  {
  }

  lemma AgreeOne(w: World, list: seq<Term>, quotes: seq<Quote>, marked: seq<Marked>, t: Term, q: Quote, m: Marked)
    requires Agree(w, list, quotes, marked) && Says(w, t, q, m)
    ensures Agree(w, list + [t], quotes + [q], marked + [m])
  {
    hide Says;
  }

  lemma MarkedCrossStep(w: World, l: seq<Marked>, r: seq<Marked>, i: nat)
    requires i < |l|
    ensures MarkedCross(w, l[i..], r) == MarkedRow(w, l[i], r) + MarkedCross(w, l[i + 1..], r)
  {
    assert l[i..][1..] == l[i + 1..];
  }

  lemma NoMarkedCross(w: World, l: seq<Marked>, r: seq<Marked>)
    requires l == []
    ensures MarkedCross(w, l, r) == []
  {
  }

  /** The default case of glom2: all the words are quoted. */
  method AllQuoted(w: World, list: seq<Term>) returns (quotes: seq<Quote>)
    ensures Agree(w, list, quotes, Unmarked(w, list))
  {
    quotes := [];
    while |quotes| < |list|
      invariant |quotes| <= |list| && forall i | 0 <= i < |quotes| :: quotes[i] == QUOTED
    {
      quotes := [QUOTED] + quotes;
    }
    forall i | 0 <= i < |list|
      ensures Says(w, list[i], quotes[i], Unmarked(w, list)[i])
    {
      var n := |Text(w, list[i])|;
      assert RawFlags(QUOTED, n) == AllMarked(n, false);
    }
  }

  lemma WordAgrees(w: World, s: string)
    ensures Agree(w, [Str(s)], [UNQUOTED], [Marked(Str(s), AllMarked(|s|, true))])
  {
    assert RawFlags(UNQUOTED, |s|) == AllMarked(|s|, true);
  }

  /** glom2: the words of the tree, and quoting words that say exactly which characters
      come from unquoted literal words. */
  method Glom2(w: World, tree: Tree) returns (r: Result<seq<Term>>, quotes: seq<Quote>)
    ensures r == Words(w, tree)
    ensures MarkedWords(w, tree).Ok? ==> r.Ok? && Agree(w, r.value, quotes, MarkedWords(w, tree).value)
    decreases tree
  {
    hide Words, MarkedCross, Says, Unmarked;
    MarkedWordsAreWords(w, tree);
    var result: seq<Term> := [];
    ghost var done: seq<Marked> := [];
    quotes := [];
    var tp := tree;
    NilThen(MarkedWords(w, tree));
    while tp != Nil
      invariant Agree(w, result, quotes, done)
      invariant Then(done, MarkedWords(w, tp)) == MarkedWords(w, tree)
      invariant tp == Nil || tp == tree || tp < tree
      decreases Spine(tp)
    {
      var list: Result<seq<Term>>;
      var qlist: seq<Quote> := [];
      ghost var marks: seq<Marked> := [];
      var next := Nil;
      if tp.Word? {
        list, qlist, marks := Ok([Str(tp.s)]), [UNQUOTED], [Marked(Str(tp.s), AllMarked(|tp.s|, true))];
        WordAgrees(w, tp.s);
      } else if tp.List? {
        list, qlist := Glom2(w, tp.first);
        MarkedWordsAreWords(w, tp.first);
        if list.Ok? {
          marks := MarkedWords(w, tp.first).value;
        }
        next := tp.rest;
      } else if tp.Concat? {
        var ql;
        list, ql := Glom2(w, tp.left);
        MarkedWordsAreWords(w, tp.left);
        if list.Ok? {
          var right, qr := Glom2(w, tp.right);
          MarkedWordsAreWords(w, tp.right);
          if right.Ok? {
            marks := MarkedCross(w, MarkedWords(w, tp.left).value, MarkedWords(w, tp.right).value);
            var crossed, quotes' := QConcat(w, list.value, right.value, ql, qr,
                                            MarkedWords(w, tp.left).value, MarkedWords(w, tp.right).value);
            list, qlist := Ok(crossed), quotes';
          } else {
            list := right;
          }
        }
      } else {
        list := Glom1(w, tp);
        if list.Ok? {
          qlist := AllQuoted(w, list.value);
          marks := Unmarked(w, list.value);
        }
      }
      if list.Err? {
        return Err(list.error), [];
      }
      Continue(w, done, marks, tp, next);
      AgreeAppend(w, result, quotes, done, list.value, qlist, marks);
      result, quotes, done := result + list.value, quotes + qlist, done + marks;
      tp := next;
    }
    ThenNil(done);
    AgreeTerms(w, result, quotes, done);
    r := Ok(result);
  }

  lemma Continue(w: World, done: seq<Marked>, marks: seq<Marked>, tree: Tree, next: Tree)
    requires MarkedWords(w, tree) == if tree.List? then Then(marks, MarkedWords(w, next)) else Ok(marks)
    requires !tree.List? ==> next == Nil
    ensures Then(done, MarkedWords(w, tree)) == Then(done + marks, MarkedWords(w, next))
  {
    if tree.List? {
      ThenThen(done, marks, MarkedWords(w, next));
    } else {
      ThenNil(done + marks);
    }
  }

  lemma AgreeAppend(w: World, a: seq<Term>, qa: seq<Quote>, ma: seq<Marked>, b: seq<Term>, qb: seq<Quote>, mb: seq<Marked>)
    requires Agree(w, a, qa, ma) && Agree(w, b, qb, mb)
    ensures Agree(w, a + b, qa + qb, ma + mb)
  {
    hide Says;
  }

  lemma AgreeTerms(w: World, list: seq<Term>, quotes: seq<Quote>, marked: seq<Marked>)
    requires Agree(w, list, quotes, marked)
    ensures Terms(marked) == list
  {
    assert forall i | 0 <= i < |list| :: Says(w, list[i], quotes[i], marked[i]);
  }
}
