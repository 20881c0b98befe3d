/** src/glom.cpp: laws of expansion, which say where each character of a word comes from
    and which elements a subscript picks. */
module ExpansionLaws {
  import opened Patterns
  import opened Expansion

  // ----- where characters come from

  lemma MarkedCrossLength(w: World, l: seq<Marked>, r: seq<Marked>)
    ensures |MarkedCross(w, l, r)| == |l| * |r|
  {
    TermsCross(w, l, r);
    CrossLength(w, Terms(l), Terms(r));
  }

  /** Words and marks are joined alike: first the text and the flags of the left word, then
      those of the right word. */
  lemma {:induction false} MarkedCrossAt(w: World, l: seq<Marked>, r: seq<Marked>, i: nat, j: nat)
    requires i < |l| && j < |r|
    ensures 0 <= i * |r| + j < |MarkedCross(w, l, r)|
    ensures MarkedCross(w, l, r)[i * |r| + j]
            == Marked(Str(Text(w, l[i].term) + Text(w, r[j].term)), l[i].raw + r[j].raw)
  {
    if i > 0 {
      MarkedCrossAt(w, l[1..], r, i - 1, j);
      OneMore(i, |r|);
      var k := (i - 1) * |r| + j;
      assert MarkedCross(w, l, r)[|r| + k] == MarkedCross(w, l[1..], r)[k];
    }
  }

  /** Character c of word k of the tree. */
  ghost predicate HasChar(w: World, tree: Tree, k: nat, c: nat) {
    Words(w, tree).Ok? && k < |Words(w, tree).value| && c < |Text(w, Words(w, tree).value[k])|
  }

  ghost function CharAt(w: World, tree: Tree, k: nat, c: nat): char
    requires HasChar(w, tree, k, c)
  {
    Text(w, Words(w, tree).value[k])[c]
  }

  /** The part of a tree that made a character, with its word and place there. */
  datatype Origin = Origin(leaf: Tree, word: nat, at: nat)

  /** Where a character comes from: the parts of a list come one after the other, and a word
      of a concatenation is a word on the left and then one on the right. */
  ghost function OriginOf(w: World, tree: Tree, k: nat, c: nat): (o: Origin)
    requires HasChar(w, tree, k, c)
    ensures HasChar(w, o.leaf, o.word, o.at) && !o.leaf.List? && !o.leaf.Concat?
    ensures CharAt(w, o.leaf, o.word, o.at) == CharAt(w, tree, k, c)
  {
    match tree
    case List(first, rest) =>
      var n := |Words(w, first).value|;
      if k < n then OriginOf(w, first, k, c) else OriginOf(w, rest, k - n, c)
    case Concat(left, right) =>
      var l, r := Words(w, left).value, Words(w, right).value;
      PairOf(w, l, r, k);
      var (i, j) := PairAt(k, |r|);
      var n := |Text(w, l[i])|;
      if c < n then OriginOf(w, left, i, c) else OriginOf(w, right, j, c - n)
    case _ => Origin(tree, k, c)
  }

  /** The pair of words that makes word k when n words stand on the right: the first n have
      the first word on the left, and so on. */
  ghost function PairAt(k: nat, n: nat): (p: (nat, nat))
    requires n > 0
    ensures p.1 < n && k == p.0 * n + p.1
  {
    if k < n then (0, k)
    else
      var (i, j) := PairAt(k - n, n);
      OneMore(i + 1, n);
      (i + 1, j)
  }

  lemma {:induction false} PairOf(w: World, l: seq<Term>, r: seq<Term>, k: nat)
    requires k < |Cross(w, l, r)|
    ensures |r| > 0 && PairAt(k, |r|).0 < |l|
    ensures Cross(w, l, r)[k] == Str(Text(w, l[PairAt(k, |r|).0]) + Text(w, r[PairAt(k, |r|).1]))
  {
    if k >= |r| {
      NoneOfNone(w, l, r);
      PairOf(w, l[1..], r, k - |r|);
    }
  }

  lemma NoneOfNone(w: World, l: seq<Term>, r: seq<Term>)
    ensures r == [] ==> Cross(w, l, r) == []
  {
    CrossLength(w, l, r);
  }

  lemma {:induction false} MarkedPairOf(w: World, l: seq<Marked>, r: seq<Marked>, k: nat)
    requires k < |MarkedCross(w, l, r)|
    ensures |r| > 0 && PairAt(k, |r|).0 < |l|
    ensures MarkedCross(w, l, r)[k] == Marked(Str(Text(w, l[PairAt(k, |r|).0].term) + Text(w, r[PairAt(k, |r|).1].term)),
                                              l[PairAt(k, |r|).0].raw + r[PairAt(k, |r|).1].raw)
  {
    if k >= |r| {
      TermsCross(w, l, r);
      NoneOfNone(w, Terms(l), Terms(r));
      MarkedPairOf(w, l[1..], r, k - |r|);
    }
  }

  /** The marks of word k, one for each character. */
  ghost predicate HasMark(w: World, tree: Tree, k: nat, c: nat) {
    && MarkedWords(w, tree).Ok? && k < |MarkedWords(w, tree).value|
    && |MarkedWords(w, tree).value[k].raw| == |Text(w, MarkedWords(w, tree).value[k].term)|
    && c < |MarkedWords(w, tree).value[k].raw|
  }

  lemma {:induction false} MarkedInFull(w: World, tree: Tree, k: nat)
    requires MarkedWords(w, tree).Ok? && k < |MarkedWords(w, tree).value|
    ensures |MarkedWords(w, tree).value[k].raw| == |Text(w, MarkedWords(w, tree).value[k].term)|
    decreases tree
  {
    match tree {
      case List(first, rest) =>
        var n := |MarkedWords(w, first).value|;
        if k < n {
          MarkedInFull(w, first, k);
        } else {
          MarkedInFull(w, rest, k - n);
        }
      case Concat(left, right) =>
        var l, r := MarkedWords(w, left).value, MarkedWords(w, right).value;
        MarkedPairOf(w, l, r, k);
        MarkedInFull(w, left, PairAt(k, |r|).0);
        MarkedInFull(w, right, PairAt(k, |r|).1);
      case _ =>
    }
  }

  /** The mark of character c of word k. */
  ghost function IsRaw(w: World, tree: Tree, k: nat, c: nat): bool
    requires HasChar(w, tree, k, c)
  {
    MarkedWordsAreWords(w, tree);
    MarkedInFull(w, tree, k);
    MarkedWords(w, tree).value[k].raw[c]
  }

  lemma RawInList(w: World, first: Tree, rest: Tree, k: nat, c: nat)
    requires HasChar(w, List(first, rest), k, c)
    ensures Words(w, first).Ok?
    ensures var n := |Words(w, first).value|;
            if k < n then HasChar(w, first, k, c) && IsRaw(w, List(first, rest), k, c) == IsRaw(w, first, k, c)
            else HasChar(w, rest, k - n, c) && IsRaw(w, List(first, rest), k, c) == IsRaw(w, rest, k - n, c)
  {
    hide Text, LookupAll, Subscripted, Lookup, Cross, Unmarked, AllMarked, MarkedCross;
    MarkedWordsAreWords(w, first);
    MarkedWordsAreWords(w, rest);
    MarkedWordsAreWords(w, List(first, rest));
    ListOfMarks(w, first, rest);
    MarkedInFull(w, List(first, rest), k);
  }

  lemma ListOfMarks(w: World, first: Tree, rest: Tree)
    requires MarkedWords(w, List(first, rest)).Ok?
    ensures MarkedWords(w, first).Ok? && MarkedWords(w, rest).Ok?
    ensures MarkedWords(w, List(first, rest)).value == MarkedWords(w, first).value + MarkedWords(w, rest).value
  {
  }

  lemma CharInConcat(w: World, left: Tree, right: Tree, k: nat, c: nat)
    requires HasChar(w, Concat(left, right), k, c)
    ensures Words(w, left).Ok? && Words(w, right).Ok? && Words(w, right).value != []
    ensures var (i, j) := PairAt(k, |Words(w, right).value|);
            && i < |Words(w, left).value|
            && var n := |Text(w, Words(w, left).value[i])|;
               if c < n then HasChar(w, left, i, c) else HasChar(w, right, j, c - n)
  {
    hide LookupAll, Subscripted, Lookup, Cross;
    PairOf(w, Words(w, left).value, Words(w, right).value, k);
  }

  lemma ConcatOfMarks(w: World, left: Tree, right: Tree, k: nat)
    requires MarkedWords(w, Concat(left, right)).Ok? && k < |MarkedWords(w, Concat(left, right)).value|
    ensures MarkedWords(w, left).Ok? && MarkedWords(w, right).Ok? && MarkedWords(w, right).value != []
    ensures var (i, j) := PairAt(k, |MarkedWords(w, right).value|);
            && i < |MarkedWords(w, left).value|
            && MarkedWords(w, Concat(left, right)).value[k].raw
               == MarkedWords(w, left).value[i].raw + MarkedWords(w, right).value[j].raw
            && |MarkedWords(w, left).value[i].raw| == |Text(w, MarkedWords(w, left).value[i].term)|
  {
    var l, r := MarkedWords(w, left).value, MarkedWords(w, right).value;
    MarkedPairOf(w, l, r, k);
    MarkedInFull(w, left, PairAt(k, |r|).0);
  }

  lemma RawInConcat(w: World, left: Tree, right: Tree, k: nat, c: nat)
    requires HasChar(w, Concat(left, right), k, c)
    ensures Words(w, left).Ok? && Words(w, right).Ok? && Words(w, right).value != []
    ensures var (i, j) := PairAt(k, |Words(w, right).value|);
            && i < |Words(w, left).value|
            && var n := |Text(w, Words(w, left).value[i])|;
               if c < n then
                 HasChar(w, left, i, c) && IsRaw(w, Concat(left, right), k, c) == IsRaw(w, left, i, c)
               else
                 HasChar(w, right, j, c - n) && IsRaw(w, Concat(left, right), k, c) == IsRaw(w, right, j, c - n)
  {
    hide Words, MarkedWords, Text;
    CharInConcat(w, left, right, k, c);
    MarkedWordsAreWords(w, Concat(left, right));
    MarkedWordsAreWords(w, left);
    MarkedWordsAreWords(w, right);
    ConcatOfMarks(w, left, right, k);
    MarkedInFull(w, Concat(left, right), k);
  }

  /** A character is raw exactly if an unquoted literal word made it. */
  lemma {:induction false} RawExactlyFromWords(w: World, tree: Tree, k: nat, c: nat)
    requires HasChar(w, tree, k, c)
    ensures IsRaw(w, tree, k, c) <==> OriginOf(w, tree, k, c).leaf.Word?
    decreases tree
  {
    hide IsRaw, MarkedWords, HasChar;
    match tree {
      case List(first, rest) =>
        RawInList(w, first, rest, k, c);
        var n := |Words(w, first).value|;
        if k < n {
          RawExactlyFromWords(w, first, k, c);
        } else {
          RawExactlyFromWords(w, rest, k - n, c);
        }
      case Concat(left, right) =>
        RawInConcat(w, left, right, k, c);
        var (i, j) := PairAt(k, |Words(w, right).value|);
        var n := |Text(w, Words(w, left).value[i])|;
        if c < n {
          RawExactlyFromWords(w, left, i, c);
        } else {
          RawExactlyFromWords(w, right, j, c - n);
        }
      case _ =>
        LeafIsRaw(w, tree, k, c);
    }
  }

  lemma LeafIsRaw(w: World, tree: Tree, k: nat, c: nat)
    requires HasChar(w, tree, k, c) && !tree.List? && !tree.Concat?
    ensures IsRaw(w, tree, k, c) <==> tree.Word?
  {
  }

  // ----- variables

  /** The variables of a list of names come in the order of the names, and the first name
      that cannot be looked up decides the error. */
  lemma {:induction false} LookupInOrder(w: World, names: seq<Term>, more: seq<Term>)
    ensures LookupAll(w, names + more) ==
              if LookupAll(w, names).Err? then LookupAll(w, names)
              else Then(LookupAll(w, names).value, LookupAll(w, more))
  {
    if names == [] {
      assert names + more == more;
      NilThen(LookupAll(w, more));
    } else {
      var first := Lookup(w, Text(w, names[0]));
      assert (names + more)[1..] == names[1..] + more;
      LookupInOrder(w, names[1..], more);
      if first.Ok? && LookupAll(w, names[1..]).Ok? {
        ThenThen(first.value, LookupAll(w, names[1..]).value, LookupAll(w, more));
      }
    }
  }

  lemma LookupOne(w: World, name: Term)
    ensures LookupAll(w, [name]) ==
              if Text(w, name) == "" then Err(EmptyName) else Ok(w.lookup(Text(w, name)))
  {
    if Text(w, name) != "" {
      ThenNil(w.lookup(Text(w, name)));
    }
  }

  // ----- numbers

  /** A number in decimal. */
  function Numeral(n: nat): (s: string)
    ensures s != "" && forall c | c in s :: IsDigit(c)
    ensures n > 0 ==> s[0] != '0'
  {
    (if n < 10 then "" else Numeral(n / 10)) + ['0' + (n % 10) as char]
  }

  lemma {:induction false} DigitsAppend(a: string, b: string, n: nat)
    requires forall c | c in a :: IsDigit(c)
    ensures Digits(a + b, n) == Digits(b, Digits(a, n))
  {
    if a == "" {
      assert a + b == b;
    } else {
      assert (a + b)[1..] == a[1..] + b;
      assert a[0] in a && IsDigit(a[0]);
      DigitsAppend(a[1..], b, 10 * n + (a[0] as int - '0' as int));
    }
  }

  lemma {:induction false} DigitsOfNumeral(n: nat)
    ensures Digits(Numeral(n), 0) == n
  {
    var last := ['0' + (n % 10) as char];
    assert last[1..] == "";
    if n < 10 {
      assert Numeral(n) == last;
    } else {
      DigitsOfNumeral(n / 10);
      DigitsAppend(Numeral(n / 10), last, 0);
    }
  }

  lemma SignedReads(sign: string, n: nat, rest: string)
    requires sign in {"", "+", "-"}
    requires rest != "" ==> !IsDigit(rest[0])
    ensures Atoi(sign + (Numeral(n) + rest)) == if sign == "-" then 0 - n else n
  {
    hide Numeral;
    DigitsAppend(Numeral(n), rest, 0);
    DigitsOfNumeral(n);
    var t := Numeral(n) + rest;
    assert Digits(t, 0) == n;
    assert t[0] == Numeral(n)[0] && IsDigit(t[0]);
    if sign == "" {
      assert sign + t == t;
    } else {
      assert (sign + t)[1..] == t;
    }
  }

  /** A number is read back after blanks and a sign, up to what is not a digit. */
  lemma {:induction false} AtoiReads(blanks: string, sign: string, n: nat, rest: string)
    requires forall c | c in blanks :: IsSpace(c)
    requires sign in {"", "+", "-"}
    requires rest != "" ==> !IsDigit(rest[0])
    ensures Atoi(blanks + (sign + (Numeral(n) + rest))) == if sign == "-" then 0 - n else n
  {
    hide Numeral, Digits;
    var t := sign + (Numeral(n) + rest);
    if blanks == "" {
      assert blanks + t == t;
      SignedReads(sign, n, rest);
    } else {
      AtoiReads(blanks[1..], sign, n, rest);
      assert blanks[0] in blanks;
      assert (blanks + t)[0] == blanks[0];
      assert (blanks + t)[1..] == blanks[1..] + t;
    }
  }

  /** What has no digit where one is due counts as zero. */
  lemma {:induction false} AtoiNeedsDigits(blanks: string, sign: string, rest: string)
    requires forall c | c in blanks :: IsSpace(c)
    requires sign in {"", "+", "-"}
    requires rest != "" ==> !IsDigit(rest[0]) && (sign == "" ==> !IsSpace(rest[0]) && rest[0] !in "+-")
    ensures Atoi(blanks + sign + rest) == 0
  {
    var s := blanks + sign + rest;
    if blanks != "" {
      AtoiNeedsDigits(blanks[1..], sign, rest);
      assert s[1..] == blanks[1..] + sign + rest;
    } else {
      assert s == sign + rest;
      assert sign != "" ==> s[1..] == rest;
    }
  }

  lemma PlainAtoi(n: nat)
    ensures Atoi(Numeral(n)) == n && Numeral(n) != "..."
  {
    AtoiReads("", "", n, "");
    assert "" + ("" + (Numeral(n) + "")) == Numeral(n);
    assert forall c | c in Numeral(n) :: c != '.';
    assert '.' in "..." by { assert "..."[0] == '.'; }
  }

  // ----- subscripts

  /** What may stand between the parentheses: single positions and ranges. */
  datatype Pick = One(n: nat) | Range(lo: nat, hi: nat)

  predicate FromOne(p: Pick) {
    match p case One(n) => n >= 1 case Range(lo, hi) => lo >= 1 && hi >= 1
  }

  function Written(p: Pick): seq<Term> {
    match p
    case One(n) => [Str(Numeral(n))]
    case Range(lo, hi) => [Str(Numeral(lo)), Str("..."), Str(Numeral(hi))]
  }

  function WrittenAll(picks: seq<Pick>): seq<Term> {
    if picks == [] then [] else Written(picks[0]) + WrittenAll(picks[1..])
  }

  function Low(p: Pick): nat {
    match p case One(n) => n case Range(lo, _) => lo
  }

  function High(p: Pick): nat {
    match p case One(n) => n case Range(_, hi) => hi
  }

  /** The positions of a list of n elements that a pick names, in order and counted
      from 1. */
  function Positions(p: Pick, n: nat): (r: seq<nat>)
    requires FromOne(p)
    ensures forall i | 0 <= i < |r| :: r[i] == Low(p) + i
    ensures forall k :: k in r <==> Low(p) <= k <= High(p) && k <= n
  {
    var hi := if High(p) < n then High(p) else n;
    var r := seq(if hi < Low(p) then 0 else hi + 1 - Low(p), i requires 0 <= i => Low(p) + i);
    assert forall k | k in r :: Low(p) <= k <= hi;
    assert forall k {:trigger k in r} | Low(p) <= k <= hi :: r[k - Low(p)] == k;
    r
  }

  function AllPositions(picks: seq<Pick>, n: nat): (r: seq<nat>)
    requires forall p | p in picks :: FromOne(p)
    ensures forall i | 0 <= i < |r| :: 1 <= r[i] <= n
  {
    if picks == [] then []
    else
      assert forall i | 0 <= i < |Positions(picks[0], n)| :: Positions(picks[0], n)[i] in Positions(picks[0], n);
      Positions(picks[0], n) + AllPositions(picks[1..], n)
  }

  function Picked(list: seq<Term>, positions: seq<nat>): seq<Term>
    requires forall i | 0 <= i < |positions| :: 1 <= positions[i] <= |list|
  {
    seq(|positions|, i requires 0 <= i < |positions| => list[positions[i] - 1])
  }

  predicate NoDots(w: World, subs: seq<Term>) {
    subs != [] ==> Text(w, subs[0]) != "..."
  }

  /** Subscripting by picks yields the elements at their positions in the order written,
      and goes on with what follows. */
  lemma {:induction false} SubscriptPicks(w: World, list: seq<Term>, picks: seq<Pick>, rest: seq<Term>)
    requires forall p | p in picks :: FromOne(p)
    requires NoDots(w, rest)
    ensures NoDots(w, WrittenAll(picks) + rest)
    ensures Select(w, list, WrittenAll(picks) + rest)
            == Then(Picked(list, AllPositions(picks, |list|)), Select(w, list, rest))
  {
    hide Select, Positions, Written;
    if picks == [] {
      assert WrittenAll(picks) + rest == rest;
      assert Picked(list, AllPositions(picks, |list|)) == [];
      NilThen(Select(w, list, rest));
    } else {
      var p, more := picks[0], WrittenAll(picks[1..]) + rest;
      SubscriptPicks(w, list, picks[1..], rest);
      SelectPick(w, list, p, more);
      assert WrittenAll(picks) + rest == Written(p) + more;
      var a, b := Positions(p, |list|), AllPositions(picks[1..], |list|);
      SliceIsPicked(list, p);
      PickedAppend(list, a, b);
      ThenThen(Picked(list, a), Picked(list, b), Select(w, list, rest));
    }
  }

  lemma PickedAppend(list: seq<Term>, a: seq<nat>, b: seq<nat>)
    requires forall i | 0 <= i < |a| :: 1 <= a[i] <= |list|
    requires forall i | 0 <= i < |b| :: 1 <= b[i] <= |list|
    ensures Picked(list, a + b) == Picked(list, a) + Picked(list, b)
  {
  }

  lemma SliceIsPicked(list: seq<Term>, p: Pick)
    requires FromOne(p)
    ensures forall i | 0 <= i < |Positions(p, |list|)| :: 1 <= Positions(p, |list|)[i] <= |list|
    ensures Slice(list, Low(p), High(p)) == Picked(list, Positions(p, |list|))
  {
    var a := AllPositions([p], |list|);
    assert AllPositions([p][1..], |list|) == [];
    assert a == Positions(p, |list|);
  }

  lemma SelectPick(w: World, list: seq<Term>, p: Pick, more: seq<Term>)
    requires FromOne(p) && NoDots(w, more)
    ensures NoDots(w, Written(p) + more)
    ensures Select(w, list, Written(p) + more) == Then(Slice(list, Low(p), High(p)), Select(w, list, more))
  {
    hide Atoi, Slice, Numeral;
    PlainAtoi(Low(p));
    PlainAtoi(High(p));
    var subs := Written(p) + more;
    if p.One? {
      assert subs[1..] == more;
    } else {
      assert subs[2..] == [subs[2]] + more;
      assert subs[2..][1..] == more;
    }
  }

  /** Subscripts of picks alone select exactly the elements picked. */
  lemma SubscriptReads(w: World, list: seq<Term>, picks: seq<Pick>)
    requires forall p | p in picks :: FromOne(p)
    ensures Subscripted(w, list, WrittenAll(picks)) == Ok(Picked(list, AllPositions(picks, |list|)))
  {
    SubscriptPicks(w, list, picks, []);
    assert WrittenAll(picks) + [] == WrittenAll(picks);
    ThenNil(Picked(list, AllPositions(picks, |list|)));
  }

  lemma OpenEnd(w: World, list: seq<Term>, n: nat)
    requires n >= 1
    ensures NoDots(w, [Str(Numeral(n)), Str("...")])
    ensures Select(w, list, [Str(Numeral(n)), Str("...")]) == Ok(if n <= |list| then list[n - 1..] else [])
  {
    hide Atoi, Numeral;
    PlainAtoi(n);
    assert [Str(Numeral(n)), Str("...")][2..] == [];
    assert n <= |list| ==> list[n - 1..|list|] == list[n - 1..];
  }

  lemma OpenStart(w: World, list: seq<Term>, n: nat, more: seq<Term>)
    requires n >= 1
    ensures Subscripted(w, list, [Str("..."), Str(Numeral(n))] + more)
            == Then(if n <= |list| then list[..n] else list, Select(w, list, more))
  {
    hide Atoi, Numeral;
    PlainAtoi(n);
    var subs := [Str("..."), Str(Numeral(n))] + more;
    assert subs[1..] == [Str(Numeral(n))] + more;
    assert subs[1..][1..] == more;
    assert list[0..|list|] == list;
    assert n <= |list| ==> list[0..n] == list[..n];
  }

  /** A range without its upper end goes to the end of the list, and one without its lower
      end starts at the first element. */
  lemma OpenRanges(w: World, list: seq<Term>, picks: seq<Pick>, n: nat)
    requires n >= 1 && forall p | p in picks :: FromOne(p)
    ensures Subscripted(w, list, WrittenAll(picks) + [Str(Numeral(n)), Str("...")])
            == Ok(Picked(list, AllPositions(picks, |list|)) + if n <= |list| then list[n - 1..] else [])
    ensures Subscripted(w, list, [Str("..."), Str(Numeral(n))] + WrittenAll(picks))
            == Ok((if n <= |list| then list[..n] else list) + Picked(list, AllPositions(picks, |list|)))
  {
    OpenEnd(w, list, n);
    SubscriptPicks(w, list, picks, [Str(Numeral(n)), Str("...")]);
    OpenStart(w, list, n, WrittenAll(picks));
    SubscriptReads(w, list, picks);
  }

  /** The first word that is not a number from 1 on decides the error. */
  lemma BadSubscripts(w: World, list: seq<Term>, picks: seq<Pick>, bad: Term, more: seq<Term>)
    requires forall p | p in picks :: FromOne(p)
    requires Text(w, bad) != "..." && Atoi(Text(w, bad)) < 1
    ensures Subscripted(w, list, WrittenAll(picks) + [bad] + more) == Err(BadSubscript(Text(w, bad)))
  {
    SubscriptPicks(w, list, picks, [bad] + more);
    assert WrittenAll(picks) + [bad] + more == WrittenAll(picks) + ([bad] + more);
  }
}
