/** src/match.c: patterns, with one raw flag per pattern character (a quoted character
    stands for itself).  A pattern means a sequence of tokens, and a token sequence
    accepts a subject that can be cut into fitting pieces; the matcher is proved to
    decide exactly that. */
module Patterns {
  import opened Options

  datatype Token =
    | Lit(c: char)
    | Any
    | Star
    | Class(neg: bool, ranges: seq<(char, char)>)

  // ----- what a pattern means

  /** The members of a bracket expression from position i up to its unquoted `]`;
      None when there is none. */
  function ParseItems(p: string, raw: seq<bool>, i: nat): (r: Option<(seq<(char, char)>, nat)>)
    requires |raw| == |p| && i <= |p|
    ensures r.Some? ==> i < r.value.1 <= |p|
    decreases |p| - i
  {
    if i == |p| then None
    else if p[i] == ']' && raw[i] then Some(([], i + 1))
    else
      var ranged := i + 2 < |p| && p[i + 1] == '-' && raw[i + 1] && (p[i + 2] != ']' || !raw[i + 2]);
      match ParseItems(p, raw, if ranged then i + 3 else i + 1)
      case None => None
      case Some(rest) => Some(([(p[i], if ranged then p[i + 2] else p[i])] + rest.0, rest.1))
  }

  /** A bracket expression whose `[` is just before position i. */
  function ParseClass(p: string, raw: seq<bool>, i: nat): (r: Option<(Token, nat)>)
    requires |raw| == |p| && i <= |p|
    ensures r.Some? ==> r.value.0.Class? && i < r.value.1 <= |p|
  {
    var neg := i < |p| && p[i] == '~' && raw[i];
    var j := if neg then i + 1 else i;
    var bracket := j < |p| && p[j] == ']' && raw[j];
    match ParseItems(p, raw, if bracket then j + 1 else j)
    case None => None
    case Some(items) => Some((Class(neg, if bracket then [(']', ']')] + items.0 else items.0), items.1))
  }

  /** The tokens of the pattern from position i on; a `[` that is not closed is literal. */
  function Parse(p: string, raw: seq<bool>, i: nat): seq<Token>
    requires |raw| == |p| && i <= |p|
    decreases |p| - i
  {
    if i == |p| then []
    else if !raw[i] then [Lit(p[i])] + Parse(p, raw, i + 1)
    else if p[i] == '?' then [Any] + Parse(p, raw, i + 1)
    else if p[i] == '*' then [Star] + Parse(p, raw, i + 1)
    else if p[i] == '[' then
      match ParseClass(p, raw, i + 1)
      case None => [Lit('[')] + Parse(p, raw, i + 1)
      case Some(expr) => [expr.0] + Parse(p, raw, expr.1)
    else [Lit(p[i])] + Parse(p, raw, i + 1)
  }

  predicate InRanges(ranges: seq<(char, char)>, c: char) {
    exists i :: 0 <= i < |ranges| && ranges[i].0 <= c <= ranges[i].1
  }

  /** The token, not a star, stands for the single character c. */
  predicate FitsChar(t: Token, c: char) {
    match t
    case Lit(d) => c == d
    case Any => true
    case Star => false
    case Class(neg, ranges) => InRanges(ranges, c) != neg
  }

  predicate Fits(t: Token, piece: string) {
    t.Star? || (|piece| == 1 && FitsChar(t, piece[0]))
  }

  function Flatten(pieces: seq<string>): string {
    if pieces == [] then "" else pieces[0] + Flatten(pieces[1..])
  }

  /** The pieces, one for each token, make up the subject. */
  ghost predicate Splits(ts: seq<Token>, s: string, pieces: seq<string>) {
    && |pieces| == |ts| && Flatten(pieces) == s
    && forall i | 0 <= i < |ts| :: Fits(ts[i], pieces[i])
  }

  /** The subject can be cut into pieces that fit the tokens. */
  ghost predicate Accepts(ts: seq<Token>, s: string)
    decreases |ts|
  {
    if ts == [] then s == ""
    else if ts[0].Star? then exists k :: 0 <= k <= |s| && Accepts(ts[1..], s[k..])
    else s != "" && FitsChar(ts[0], s[0]) && Accepts(ts[1..], s[1..])
  }

  lemma {:induction false} AcceptsIfSplits(ts: seq<Token>, s: string, pieces: seq<string>)
    requires Splits(ts, s, pieces)
    ensures Accepts(ts, s)
    decreases |ts|
  {
    if ts != [] {
      var k := |pieces[0]|;
      assert s[k..] == Flatten(pieces[1..]);
      forall i | 0 <= i < |ts[1..]|
        ensures Fits(ts[1..][i], pieces[1..][i])
      {
        assert Fits(ts[i + 1], pieces[i + 1]);
      }
      AcceptsIfSplits(ts[1..], s[k..], pieces[1..]);
      assert Fits(ts[0], pieces[0]);
    }
  }

  lemma {:induction false} SplitsIfAccepts(ts: seq<Token>, s: string) returns (pieces: seq<string>)
    requires Accepts(ts, s)
    ensures Splits(ts, s, pieces)
    decreases |ts|
  {
    if ts == [] {
      pieces := [];
    } else {
      var k: nat;
      if ts[0].Star? {
        k :| 0 <= k <= |s| && Accepts(ts[1..], s[k..]);
      } else {
        k := 1;
      }
      var rest := SplitsIfAccepts(ts[1..], s[k..]);
      pieces := [s[..k]] + rest;
      assert pieces[1..] == rest;
      assert s == s[..k] + s[k..];
      forall i | 0 <= i < |ts|
        ensures Fits(ts[i], pieces[i])
      {
        if i > 0 {
          assert Fits(ts[1..][i - 1], rest[i - 1]);
        }
      }
    }
  }

  /** The two readings of a pattern agree. */
  lemma AcceptsIsSplitting(ts: seq<Token>, s: string)
    ensures Accepts(ts, s) <==> exists pieces :: Splits(ts, s, pieces)
  {
    if Accepts(ts, s) {
      var pieces := SplitsIfAccepts(ts, s);
    }
    if pieces :| Splits(ts, s, pieces) {
      AcceptsIfSplits(ts, s, pieces);
    }
  }

  // ----- stars

  lemma StarsCollapse(ts: seq<Token>, s: string)
    requires |ts| >= 2 && ts[0].Star? && ts[1].Star?
    ensures Accepts(ts, s) <==> Accepts(ts[1..], s)
  {
    if Accepts(ts, s) {
      var k :| 0 <= k <= |s| && Accepts(ts[1..], s[k..]);
      var j :| 0 <= j <= |s[k..]| && Accepts(ts[1..][1..], s[k..][j..]);
      assert s[k..][j..] == s[k + j..];
    }
    if Accepts(ts[1..], s) {
      assert s[0..] == s;
    }
  }

  lemma FinalStar(ts: seq<Token>, s: string)
    requires ts == [Star]
    ensures Accepts(ts, s)
  {
    assert s[|s|..] == "";
    assert Accepts(ts[1..], s[|s|..]);
  }

  lemma AcceptsStarAt(ts: seq<Token>, s: string, k: nat)
    requires ts != [] && ts[0].Star? && k <= |s| && Accepts(ts[1..], s[k..])
    ensures Accepts(ts, s)
  {
  }

  // ----- rangematch

  const RANGE_FAIL := -1
  const RANGE_ERROR := -2

  /** The member of a bracket expression at j: whether it is a range, and what follows. */
  predicate IsRange(p: string, raw: seq<bool>, j: nat)
    requires |raw| == |p|
  {
    j + 2 < |p| && p[j + 1] == '-' && raw[j + 1] && (p[j + 2] != ']' || !raw[j + 2])
  }

  lemma ItemStep(p: string, raw: seq<bool>, j: nat)
    requires |raw| == |p| && j < |p| && !(p[j] == ']' && raw[j])
    ensures var next := if IsRange(p, raw, j) then j + 3 else j + 1;
            var hi := if IsRange(p, raw, j) then p[j + 2] else p[j];
            ParseItems(p, raw, j) == match ParseItems(p, raw, next)
                                     case None => None
                                     case Some(rest) => Some(([(p[j], hi)] + rest.0, rest.1))
  {
  }

  /** The loop of rangematch over the members from i on. */
  method RangeItems(p: string, raw: seq<bool>, i: nat, c: char, already: bool) returns (j: nat, matched: bool, bad: bool)
    requires |raw| == |p| && i <= |p|
    ensures bad <==> ParseItems(p, raw, i).None?
    ensures !bad ==> var items := ParseItems(p, raw, i).value;
                     j + 1 == items.1 && matched == (already || InRanges(items.0, c))
  {
    hide ParseItems, InRanges;
    j, matched, bad := i, already, false;
    while !(j < |p| && p[j] == ']' && raw[j])
      invariant i <= j <= |p|
      invariant ParseItems(p, raw, i).None? <==> ParseItems(p, raw, j).None?
      invariant ParseItems(p, raw, i).Some? ==>
                  var all, rest := ParseItems(p, raw, i).value, ParseItems(p, raw, j).value;
                  all.1 == rest.1 && (already || InRanges(all.0, c)) == (matched || InRanges(rest.0, c))
      decreases |p| - j
    {
      if j == |p| {
        NoItems(p, raw, j, c);
        bad := true;
        return;
      }
      ItemStep(p, raw, j);
      var ranged := j + 2 < |p| && p[j + 1] == '-' && raw[j + 1] && (p[j + 2] != ']' || !raw[j + 2]);
      ghost var hi := if ranged then p[j + 2] else p[j];
      ghost var next := if ranged then j + 3 else j + 1;
      if ParseItems(p, raw, next).Some? {
        InRangesCons((p[j], hi), ParseItems(p, raw, next).value.0, c);
      }
      if ranged {
        if p[j] <= c <= p[j + 2] {
          matched := true;
        }
        j := j + 2;
      } else if p[j] == c {
        matched := true;
      }
      j := j + 1;
    }
    NoItems(p, raw, j, c);
  }

  lemma NoItems(p: string, raw: seq<bool>, j: nat, c: char)
    requires |raw| == |p| && j <= |p| && (j < |p| ==> p[j] == ']' && raw[j])
    ensures ParseItems(p, raw, j) == if j < |p| then Some(([], j + 1)) else None
    ensures !InRanges([], c)
  {
  }

  /** rangematch: the offset past the bracket expression at i if c is in it. */
  method RangeMatch(p: string, raw: seq<bool>, i: nat, c: char) returns (r: int)
    requires |raw| == |p| && i <= |p|
    ensures ParseClass(p, raw, i).None? ==> r == RANGE_ERROR
    ensures ParseClass(p, raw, i).Some? ==>
              var expr := ParseClass(p, raw, i).value;
              r == if FitsChar(expr.0, c) then expr.1 - i else RANGE_FAIL
  {
    hide ParseItems, InRanges;
    var j := i;
    var neg := false;
    var matched := false;
    if j < |p| && p[j] == '~' && raw[j] {
      j := j + 1;
      neg := true;
    }
    ghost var bracket := j < |p| && p[j] == ']' && raw[j];
    if j < |p| && p[j] == ']' && raw[j] {
      j := j + 1;
      matched := c == ']';
    }
    if bracket && ParseItems(p, raw, j).Some? {
      InRangesCons((']', ']'), ParseItems(p, raw, j).value.0, c);
    }
    var bad;
    j, matched, bad := RangeItems(p, raw, j, c, matched);
    if bad {
      return RANGE_ERROR;
    }
    r := if matched != neg then j - i + 1 else RANGE_FAIL;
  }

  lemma InRangesCons(r: (char, char), ranges: seq<(char, char)>, c: char)
    ensures InRanges([r] + ranges, c) <==> r.0 <= c <= r.1 || InRanges(ranges, c)
  {
    var more := [r] + ranges;
    if InRanges(ranges, c) {
      var i :| 0 <= i < |ranges| && ranges[i].0 <= c <= ranges[i].1;
      assert more[i + 1] == ranges[i];
    }
    assert more[0] == r;
  }

  // ----- match

  /** A quoting word: all quoted, all raw, or one `q` or `r` for each character. */
  datatype Quote = QUOTED | UNQUOTED | Flags(flags: string)

  predicate QuoteFits(q: Quote, n: nat) {
    q.Flags? ==> |q.flags| == n && forall i | 0 <= i < n :: q.flags[i] == 'q' || q.flags[i] == 'r'
  }

  function RawFlags(q: Quote, n: nat): (raw: seq<bool>)
    requires QuoteFits(q, n)
    ensures |raw| == n
  {
    seq(n, i requires 0 <= i < n => q.UNQUOTED? || (q.Flags? && q.flags[i] == 'r'))
  }

  /** A pattern that does not begin with a star consumes something. */
  lemma MustConsume(p: string, raw: seq<bool>, i: nat)
    requires |raw| == |p| && i < |p| && !(p[i] == '*' && raw[i])
    ensures !Accepts(Parse(p, raw, i), "")
  {
  }

  /** A first token that is not a star takes one character. */
  lemma ConsumeOne(s: string, k: nat, t: Token, ts: seq<Token>)
    requires k <= |s| && !t.Star?
    ensures Accepts([t] + ts, s[k..]) <==> k < |s| && FitsChar(t, s[k]) && Accepts(ts, s[k + 1..])
  {
    assert ([t] + ts)[1..] == ts;
    if k < |s| {
      assert s[k..][1..] == s[k + 1..];
    }
  }

  /** match, from position si of the subject and pi of the pattern: true exactly when
      the rest of the subject can be cut along the rest of the pattern. */
  method Match(s: string, si: nat, p: string, raw: seq<bool>, pi: nat) returns (b: bool)
    requires |raw| == |p| && pi <= |p| && si <= |s|
    ensures b <==> Accepts(Parse(p, raw, pi), s[si..])
    decreases |p| - pi, 0
  {
    hide Accepts, ParseClass;
    var i, k := pi, si;
    while true
      invariant pi <= i <= |p| && si <= k <= |s|
      invariant Accepts(Parse(p, raw, i), s[k..]) == Accepts(Parse(p, raw, pi), s[si..])
      decreases |p| - i
    {
      if i == |p| {
        EmptyPattern(s[k..]);
        return k == |s|;
      }
      var c := p[i];
      i := i + 1;
      if raw[i - 1] && c == '?' {
        ConsumeOne(s, k, Any, Parse(p, raw, i));
        if k == |s| {
          return false;
        }
        k := k + 1;
      } else if raw[i - 1] && c == '*' {
        b := MatchStar(s, k, p, raw, i);
        return;
      } else if raw[i - 1] && c == '[' {
        BracketStep(s, k, p, raw, i);
        if k == |s| {
          return false;
        }
        var j := RangeMatch(p, raw, i, s[k]);
        if j == RANGE_FAIL {
          return false;
        } else if j == RANGE_ERROR {
          if s[k] != '[' {
            return false;
          }
        } else {
          i := i + j;
        }
        k := k + 1;
      } else {
        ConsumeOne(s, k, Lit(c), Parse(p, raw, i));
        if k == |s| || s[k] != c {
          return false;
        }
        k := k + 1;
      }
    }
  }

  lemma EmptyPattern(s: string)
    ensures Accepts([], s) <==> s == ""
  {
  }

  /** The bracket case: closed, it is a class; not closed, a literal `[`. */
  lemma BracketStep(s: string, k: nat, p: string, raw: seq<bool>, i: nat)
    requires |raw| == |p| && 0 < i <= |p| && k <= |s| && p[i - 1] == '[' && raw[i - 1]
    ensures Accepts(Parse(p, raw, i - 1), s[k..]) <==>
              k < |s| && match ParseClass(p, raw, i)
                         case None => s[k] == '[' && Accepts(Parse(p, raw, i), s[k + 1..])
                         case Some(expr) => FitsChar(expr.0, s[k]) && Accepts(Parse(p, raw, expr.1), s[k + 1..])
    ensures ParseClass(p, raw, i).Some? ==> ParseClass(p, raw, i).value.1 - i > 0
  {
    hide Accepts, ParseClass;
    match ParseClass(p, raw, i)
    case None => ConsumeOne(s, k, Lit('['), Parse(p, raw, i));
    case Some(expr) => ConsumeOne(s, k, expr.0, Parse(p, raw, expr.1));
  }

  /** The star case of match: collapse stars, then try every non-empty suffix. */
  method MatchStar(s: string, si: nat, p: string, raw: seq<bool>, pi: nat) returns (b: bool)
    requires |raw| == |p| && 0 < pi <= |p| && si <= |s| && p[pi - 1] == '*' && raw[pi - 1]
    ensures b <==> Accepts(Parse(p, raw, pi - 1), s[si..])
    decreases |p| - pi, 1
  {
    hide Accepts, Parse;
    var i := pi;
    while i < |p| && p[i] == '*' && raw[i]
      invariant pi <= i <= |p| && p[i - 1] == '*' && raw[i - 1]
      invariant Accepts(Parse(p, raw, i - 1), s[si..]) == Accepts(Parse(p, raw, pi - 1), s[si..])
    {
      StarParse(p, raw, i - 1);
      StarParse(p, raw, i);
      StarsCollapse(Parse(p, raw, i - 1), s[si..]);
      i := i + 1;
    }
    StarParse(p, raw, i - 1);
    if i == |p| {
      FinalStar(Parse(p, raw, i - 1), s[si..]);
      return true;
    }
    ghost var ts := Parse(p, raw, i);
    var k := si;
    while k < |s|
      invariant si <= k <= |s|
      invariant forall j | si <= j < k :: !Accepts(ts, s[j..])
    {
      b := Match(s, k, p, raw, i);
      if b {
        SomeSuffix(ts, s, si, k);
        return;
      }
      k := k + 1;
    }
    MustConsume(p, raw, i);
    NoSuffix(ts, s, si);
    b := false;
  }

  lemma StarParse(p: string, raw: seq<bool>, i: nat)
    requires |raw| == |p| && i < |p| && p[i] == '*' && raw[i]
    ensures Parse(p, raw, i) == [Star] + Parse(p, raw, i + 1)
    ensures i + 1 == |p| ==> Parse(p, raw, i) == [Star]
    ensures Parse(p, raw, i)[1..] == Parse(p, raw, i + 1)
  {
  }

  lemma SomeSuffix(ts: seq<Token>, s: string, si: nat, k: nat)
    requires si <= k <= |s| && Accepts(ts, s[k..])
    ensures Accepts([Star] + ts, s[si..])
  {
    assert s[si..][k - si..] == s[k..];
    AcceptsStarAt([Star] + ts, s[si..], k - si);
  }

  /** Skipping the empty suffix loses nothing if the remainder must consume something. */
  lemma NoSuffix(ts: seq<Token>, s: string, si: nat)
    requires si <= |s| && !Accepts(ts, "") && forall j | si <= j < |s| :: !Accepts(ts, s[j..])
    ensures !Accepts([Star] + ts, s[si..])
  {
    assert ([Star] + ts)[1..] == ts;
    forall j | 0 <= j <= |s[si..]|
      ensures !Accepts(ts, s[si..][j..])
    {
      assert s[si..][j..] == s[si + j..];
    }
  }

  lemma {:induction false} QuotedIsLiteral(p: string, raw: seq<bool>, i: nat, s: string)
    requires |raw| == |p| && i <= |p| && forall j | i <= j < |p| :: !raw[j]
    ensures Accepts(Parse(p, raw, i), s) <==> s == p[i..]
    decreases |p| - i
  {
    if i < |p| {
      assert p[i..] == [p[i]] + p[i + 1..];
      if s != "" {
        assert s == [s[0]] + s[1..];
        QuotedIsLiteral(p, raw, i + 1, s[1..]);
      }
    }
  }

  /** match as it is called, with a quoting word. */
  method MatchWord(s: string, p: string, q: Quote) returns (b: bool)
    requires QuoteFits(q, |p|)
    ensures b <==> Accepts(Parse(p, RawFlags(q, |p|), 0), s)
  {
    if q == QUOTED {
      QuotedIsLiteral(p, RawFlags(q, |p|), 0, s);
      return s == p;
    }
    b := Match(s, 0, p, RawFlags(q, |p|), 0);
    assert s[0..] == s;
  }
}
