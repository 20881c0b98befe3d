/** src/match.c: matching lists of words, and extracting what the wildcards of a
    pattern stood for (`~~`). */
module Extraction {
  import opened Lists
  import opened Options
  import opened Patterns

  // ----- what extraction means

  predicate IsWild(t: Token) { !t.Lit? }

  /** The pieces that the wildcards stood for. */
  ghost function WildPieces(ts: seq<Token>, pieces: seq<string>): seq<string>
    requires |pieces| == |ts|
  {
    if ts == [] then []
    else (if IsWild(ts[0]) then [pieces[0]] else []) + WildPieces(ts[1..], pieces[1..])
  }

  ghost function WildCount(ts: seq<Token>): nat {
    if ts == [] then 0 else (if IsWild(ts[0]) then 1 else 0) + WildCount(ts[1..])
  }

  /** The pattern with its wildcards replaced, in order, by the captures. */
  ghost function Fill(ts: seq<Token>, captures: seq<string>): string
    requires |captures| == WildCount(ts)
  {
    if ts == [] then ""
    else if IsWild(ts[0]) then captures[0] + Fill(ts[1..], captures[1..])
    else match ts[0] case Lit(c) => [c] + Fill(ts[1..], captures)
  }

  /** Comparing cuts of the same subject from the left: no piece of a is longer than the
      one of b before some piece is shorter. */
  ghost predicate NotLonger(a: seq<string>, b: seq<string>) {
    a == [] || b == [] || |a[0]| < |b[0]| || (|a[0]| == |b[0]| && NotLonger(a[1..], b[1..]))
  }

  /** The first suffix from k on that the tokens accept. */
  ghost function FirstSuffix(ts: seq<Token>, s: string, k: nat): (j: int)
    requires k <= |s|
    ensures j == -1 || (k <= j <= |s| && Accepts(ts, s[j..]))
    ensures forall i | k <= i <= |s| && (j == -1 || i < j) :: !Accepts(ts, s[i..])
    decreases |s| - k
  {
    if Accepts(ts, s[k..]) then k else if k == |s| then -1 else FirstSuffix(ts, s, k + 1)
  }

  /** The cut made by extractsinglematch, which gives each star the shortest text that
      lets the rest match; None when it asserts that there is text left and is wrong. */
  ghost function Lazy(ts: seq<Token>, s: string): Option<seq<string>>
    requires Accepts(ts, s)
    decreases |ts|
  {
    if ts == [] then Some([])
    else if ts[0].Star? then
      if |ts| == 1 then Some([s])
      else
        var k := FirstSuffix(ts[1..], s, 0);
        if k == |s| then None
        else match Lazy(ts[1..], s[k..])
             case None => None
             case Some(rest) => Some([s[..k]] + rest)
    else
      match Lazy(ts[1..], s[1..])
      case None => None
      case Some(rest) => Some([s[..1]] + rest)
  }

  lemma {:induction false} WildPiecesCount(ts: seq<Token>, pieces: seq<string>)
    requires |pieces| == |ts|
    ensures |WildPieces(ts, pieces)| == WildCount(ts)
  {
    if ts != [] {
      WildPiecesCount(ts[1..], pieces[1..]);
    }
  }

  /** Substituting the captures back into the pattern rebuilds the subject. */
  lemma {:induction false} FillRebuilds(ts: seq<Token>, s: string, pieces: seq<string>)
    requires Splits(ts, s, pieces)
    ensures |WildPieces(ts, pieces)| == WildCount(ts)
    ensures Fill(ts, WildPieces(ts, pieces)) == s
  {
    WildPiecesCount(ts, pieces);
    if ts != [] {
      var rest := Flatten(pieces[1..]);
      forall i | 0 <= i < |ts[1..]|
        ensures Fits(ts[1..][i], pieces[1..][i])
      {
        assert Fits(ts[i + 1], pieces[i + 1]);
      }
      FillRebuilds(ts[1..], rest, pieces[1..]);
      assert Fits(ts[0], pieces[0]);
      if IsWild(ts[0]) {
        assert WildPieces(ts, pieces)[1..] == WildPieces(ts[1..], pieces[1..]);
      } else {
        assert WildPieces(ts, pieces) == WildPieces(ts[1..], pieces[1..]);
        assert pieces[0] == [pieces[0][0]];
      }
    }
  }

  lemma FirstPiece(ts: seq<Token>, s: string, pieces: seq<string>)
    requires Splits(ts, s, pieces) && ts != []
    ensures |pieces[0]| <= |s| && pieces[0] == s[..|pieces[0]|]
    ensures Splits(ts[1..], s[|pieces[0]|..], pieces[1..]) && Accepts(ts[1..], s[|pieces[0]|..])
    ensures !ts[0].Star? ==> |pieces[0]| == 1
  {
    var k := |pieces[0]|;
    assert s == pieces[0] + Flatten(pieces[1..]);
    assert s[k..] == Flatten(pieces[1..]);
    forall i | 0 <= i < |ts[1..]|
      ensures Fits(ts[1..][i], pieces[1..][i])
    {
      assert Fits(ts[i + 1], pieces[i + 1]);
    }
    assert Fits(ts[0], pieces[0]);
    AcceptsIfSplits(ts[1..], s[k..], pieces[1..]);
  }

  lemma ConsSplits(ts: seq<Token>, s: string, k: nat, rest: seq<string>)
    requires ts != [] && k <= |s| && Splits(ts[1..], s[k..], rest) && Fits(ts[0], s[..k])
    ensures Splits(ts, s, [s[..k]] + rest)
  {
    var pieces := [s[..k]] + rest;
    assert pieces[1..] == rest;
    assert s == s[..k] + s[k..];
    forall i | 0 <= i < |ts|
      ensures Fits(ts[i], pieces[i])
    {
      if i > 0 {
        assert Fits(ts[1..][i - 1], rest[i - 1]);
      }
    }
  }

  /** A successful extraction is a cut of the subject along the pattern, and the one
      whose pieces are shortest from the left. */
  lemma {:induction false} LazyIsShortest(ts: seq<Token>, s: string)
    requires Accepts(ts, s) && Lazy(ts, s).Some?
    ensures Splits(ts, s, Lazy(ts, s).value)
    ensures forall other | Splits(ts, s, other) :: NotLonger(Lazy(ts, s).value, other)
    decreases |ts|
  {
    var mine := Lazy(ts, s).value;
    if ts == [] {
    } else if ts == [Star] {
      assert s + Flatten([]) == s && [s][1..] == [];
      forall other | Splits(ts, s, other)
        ensures NotLonger(mine, other)
      {
        FirstPiece(ts, s, other);
        assert other[1..] == [] && s[|other[0]|..] == "";
      }
    } else {
      var k := if ts[0].Star? then FirstSuffix(ts[1..], s, 0) else 1;
      LazyIsShortest(ts[1..], s[k..]);
      ConsSplits(ts, s, k, Lazy(ts[1..], s[k..]).value);
      assert mine[1..] == Lazy(ts[1..], s[k..]).value;
      forall other | Splits(ts, s, other)
        ensures NotLonger(mine, other)
      {
        FirstPiece(ts, s, other);
        assert |other[0]| == k ==> Splits(ts[1..], s[k..], other[1..]);
      }
    }
  }

  // ----- when the assertion fires

  predicate EndsInStars(ts: seq<Token>) {
    |ts| >= 2 && ts[|ts| - 1].Star? && ts[|ts| - 2].Star?
  }

  /** The guard of the assertion: two final stars, and a subject that the pattern no
      longer accepts once its last character is gone. */
  ghost predicate Starved(ts: seq<Token>, s: string) {
    EndsInStars(ts) && (s == "" || !Accepts(ts, s[..|s| - 1]))
  }

  lemma StarSplit(ts: seq<Token>, s: string) returns (k: nat)
    requires ts != [] && ts[0].Star? && Accepts(ts, s)
    ensures k <= |s| && Accepts(ts[1..], s[k..])
  {
    k :| 0 <= k <= |s| && Accepts(ts[1..], s[k..]);
  }

  lemma FirstChar(ts: seq<Token>, s: string)
    requires ts != [] && !ts[0].Star?
    ensures Accepts(ts, s) <==> s != "" && FitsChar(ts[0], s[0]) && Accepts(ts[1..], s[1..])
  {
  }

  lemma {:induction false} FinalStarExtends(ts: seq<Token>, s: string, m: nat)
    requires ts != [] && ts[|ts| - 1].Star? && m <= |s| && Accepts(ts, s[..m])
    ensures Accepts(ts, s)
    decreases |ts|
  {
    hide Accepts, FitsChar;
    if |ts| == 1 {
      FinalStar(ts, s);
    } else if ts[0].Star? {
      var k := StarSplit(ts, s[..m]);
      assert s[..m][k..] == s[k..][..m - k];
      FinalStarExtends(ts[1..], s[k..], m - k);
      AcceptsStarAt(ts, s, k);
    } else {
      FirstChar(ts, s[..m]);
      FirstChar(ts, s);
      assert s[..m][1..] == s[1..][..m - 1];
      FinalStarExtends(ts[1..], s[1..], m - 1);
    }
  }

  /** For a pattern that ends in a star, starting as early as one match and stopping as
      early as another still matches. */
  lemma {:induction false} EarlyStartEarlyStop(ts: seq<Token>, s: string, k: nat, later: nat, m: nat)
    requires ts != [] && ts[|ts| - 1].Star? && k <= later <= m <= |s|
    requires Accepts(ts, s[k..]) && Accepts(ts, s[later..m])
    ensures Accepts(ts, s[k..m])
    decreases |ts|
  {
    hide Accepts, FitsChar;
    if |ts| == 1 {
      FinalStar(ts, s[k..m]);
    } else if ts[0].Star? {
      var a := StarSplit(ts, s[k..]);
      var b := StarSplit(ts, s[later..m]);
      assert s[k..][a..] == s[k + a..] && s[later..m][b..] == s[later + b..m];
      if k + a <= later + b {
        EarlyStartEarlyStop(ts[1..], s, k + a, later + b, m);
        assert s[k..m][a..] == s[k + a..m];
        AcceptsStarAt(ts, s[k..m], a);
      } else {
        assert s[k..m][later + b - k..] == s[later + b..m];
        AcceptsStarAt(ts, s[k..m], later + b - k);
      }
    } else {
      FirstChar(ts, s[k..]);
      FirstChar(ts, s[later..m]);
      FirstChar(ts, s[k..m]);
      assert s[k..][1..] == s[k + 1..] && s[later..m][1..] == s[later + 1..m];
      EarlyStartEarlyStop(ts[1..], s, k + 1, later + 1, m);
      assert s[k..m][1..] == s[k + 1..m];
    }
  }

  /** Only a pattern of stars accepts the empty subject. */
  lemma {:induction false} AcceptsNothing(ts: seq<Token>)
    requires Accepts(ts, "")
    ensures forall i | 0 <= i < |ts| :: ts[i].Star?
  {
    if ts != [] {
      AcceptsNothing(ts[1..]);
      forall i | 0 <= i < |ts|
        ensures ts[i].Star?
      {
        if i > 0 {
          assert ts[1..][i - 1].Star?;
        }
      }
    }
  }

  /** The star in front of an accepted rest, the rest having a final star too. */
  lemma StarvedAfterStar(ts: seq<Token>, s: string, k: nat)
    requires |ts| >= 3 && ts[0].Star? && ts[|ts| - 1].Star? && k < |s|
    requires Accepts(ts[1..], s[k..]) && forall i | 0 <= i < k :: !Accepts(ts[1..], s[i..])
    ensures Accepts(ts[1..], s[k..][..|s[k..]| - 1]) <==> Accepts(ts, s[..|s| - 1])
  {
    hide Accepts;
    var n := |s| - 1;
    assert s[k..][..|s[k..]| - 1] == s[k..n] == s[..n][k..];
    if Accepts(ts, s[..n]) {
      var j := StarSplit(ts, s[..n]);
      assert s[..n][j..] == s[j..n] == s[j..][..n - j];
      FinalStarExtends(ts[1..], s[j..], n - j);
      EarlyStartEarlyStop(ts[1..], s, k, j, n);
    }
    if Accepts(ts[1..], s[..n][k..]) {
      AcceptsStarAt(ts, s[..n], k);
    }
  }

  /** Extraction on a matching subject reaches the assertion exactly when the pattern ends
      in two unquoted stars and has no use for the last character of the subject. */
  lemma {:induction false} FiresExactly(ts: seq<Token>, s: string)
    requires Accepts(ts, s)
    ensures Lazy(ts, s).None? <==> Starved(ts, s)
    decreases |ts|
  {
    if |ts| <= 1 {
      if ts != [] && !ts[0].Star? {
        FiresExactly(ts[1..], s[1..]);
      }
    } else if !ts[0].Star? {
      FiresExactly(ts[1..], s[1..]);
      if |s| > 1 {
        assert s[..|s| - 1][1..] == s[1..][..|s[1..]| - 1];
      }
      assert |ts| > 2 ==> EndsInStars(ts) == EndsInStars(ts[1..]);
    } else {
      FirstStarFires(ts, s);
    }
  }

  lemma LazyStar(ts: seq<Token>, s: string)
    requires Accepts(ts, s) && |ts| >= 2 && ts[0].Star?
    ensures var k := FirstSuffix(ts[1..], s, 0);
            && 0 <= k <= |s| && Accepts(ts[1..], s[k..])
            && (forall i | 0 <= i < k :: !Accepts(ts[1..], s[i..]))
            && Lazy(ts, s) == if k == |s| then None
                              else match Lazy(ts[1..], s[k..])
                                   case None => None
                                   case Some(rest) => Some([s[..k]] + rest)
  {
    var k := StarSplit(ts, s);
  }

  lemma {:induction false} FirstStarFires(ts: seq<Token>, s: string)
    requires Accepts(ts, s) && |ts| >= 2 && ts[0].Star?
    ensures Lazy(ts, s).None? <==> Starved(ts, s)
    decreases |ts|, 0
  {
    hide Accepts, Lazy, FirstSuffix;
    LazyStar(ts, s);
    var k := FirstSuffix(ts[1..], s, 0);
    if k == |s| {
      assert s[k..] == "";
      AcceptsNothing(ts[1..]);
      assert ts[1..][0].Star? && ts[1..][|ts| - 2].Star?;
      FinalStarExtends(ts[1..], s[0..], 0);
    } else {
      FiresExactly(ts[1..], s[k..]);
      if |ts| == 2 {
        if ts[1].Star? {
          FinalStar(ts[1..], s[..|s| - 1][0..]);
          AcceptsStarAt(ts, s[..|s| - 1], 0);
        }
      } else {
        assert EndsInStars(ts) == EndsInStars(ts[1..]);
        if EndsInStars(ts) {
          StarvedAfterStar(ts, s, k);
        }
      }
    }
  }

  /** For instance, the pattern `**` matches everything, and the assertion fails for it on
      the empty subject only. */
  lemma TwoStars(s: string)
    ensures Parse("**", [true, true], 0) == [Star, Star]
    ensures Accepts([Star, Star], s) && (Lazy([Star, Star], s).None? <==> s == "")
  {
    assert Parse("**", [true, true], 2) == [];
    assert Parse("**", [true, true], 1) == [Star];
    TwoStarsAccept(s);
    FiresExactly([Star, Star], s);
    if s != "" {
      TwoStarsAccept(s[..|s| - 1]);
    }
  }

  lemma TwoStarsAccept(s: string)
    ensures Accepts([Star, Star], s)
  {
    assert [Star, Star][1..] == [Star];
    FinalStar([Star], s[0..]);
    AcceptsStarAt([Star, Star], s, 0);
  }

  // ----- extractsinglematch

  /** The result of an extraction: the captures, or a failed assertion. */
  datatype Outcome = Captured(list: seq<string>) | AssertFailed

  /** The captures of a matching subject, last first, in front of a list. */
  ghost function Extracted(ts: seq<Token>, s: string, list: seq<string>): Outcome
    requires Accepts(ts, s)
  {
    match Lazy(ts, s)
    case None => AssertFailed
    case Some(pieces) =>
      LazyIsShortest(ts, s);
      Captured(Backwards(WildPieces(ts, pieces)) + list)
  }

  /** Some raw character from i on is a wildcard. */
  predicate Wild(p: string, raw: seq<bool>, i: nat)
    requires |raw| == |p|
  {
    exists j | i <= j < |p| :: raw[j] && p[j] in "*?["
  }

  /** haswild, from position i of the pattern. */
  method HasWild(p: string, raw: seq<bool>, i: nat) returns (b: bool)
    requires |raw| == |p| && i <= |p|
    ensures b <==> Wild(p, raw, i)
  {
    var j := i;
    while j < |p|
      invariant i <= j <= |p|
      invariant forall n | i <= n < j :: !(raw[n] && p[n] in "*?[")
    {
      if (p[j] == '*' || p[j] == '?' || p[j] == '[') && raw[j] {
        return true;
      }
      j := j + 1;
    }
    return false;
  }

  /** Without a wildcard character there is nothing to capture. */
  lemma {:induction false} TameCapturesNothing(p: string, raw: seq<bool>, i: nat, s: string, list: seq<string>)
    requires |raw| == |p| && i <= |p| && !Wild(p, raw, i) && Accepts(Parse(p, raw, i), s)
    ensures Extracted(Parse(p, raw, i), s, list) == Captured(list)
    decreases |p| - i
  {
    if i < |p| {
      TameCapturesNothing(p, raw, i + 1, s[1..], list);
      var ts := Parse(p, raw, i + 1);
      assert Parse(p, raw, i) == [Lit(p[i])] + ts;
      ExtractedStep(Lit(p[i]), ts, s, list);
    }
  }

  /** A token for one character moves its character to the captures, if it is wild. */
  lemma ExtractedStep(t: Token, ts: seq<Token>, s: string, list: seq<string>)
    requires !t.Star? && Accepts([t] + ts, s)
    ensures s != "" && FitsChar(t, s[0]) && Accepts(ts, s[1..])
    ensures Extracted([t] + ts, s, list) == Extracted(ts, s[1..], if IsWild(t) then [s[..1]] + list else list)
  {
    var all := [t] + ts;
    assert all[1..] == ts;
    if Lazy(ts, s[1..]).Some? {
      LazyIsShortest(ts, s[1..]);
      WildStep(t, ts, s[..1], Lazy(ts, s[1..]).value, list);
    }
  }

  lemma WildStep(t: Token, ts: seq<Token>, piece: string, rest: seq<string>, list: seq<string>)
    requires |rest| == |ts|
    ensures Backwards(WildPieces([t] + ts, [piece] + rest)) + list
         == Backwards(WildPieces(ts, rest)) + (if IsWild(t) then [piece] + list else list)
  {
    assert ([t] + ts)[1..] == ts && ([piece] + rest)[1..] == rest;
    var inner := WildPieces(ts, rest);
    if IsWild(t) {
      assert ([piece] + inner)[1..] == inner;
      assert Backwards(inner) + [piece] + list == Backwards(inner) + ([piece] + list);
    } else {
      assert WildPieces([t] + ts, [piece] + rest) == inner;
    }
  }

  /** A star moves the text up to the first suffix that the rest accepts. */
  lemma ExtractedStar(ts: seq<Token>, s: string, k: nat, list: seq<string>)
    requires ts != [] && Accepts([Star] + ts, s) && k <= |s|
    requires forall i | 0 <= i < k :: !Accepts(ts, s[i..])
    ensures k < |s| && Accepts(ts, s[k..]) ==>
              Extracted([Star] + ts, s, list) == Extracted(ts, s[k..], [s[..k]] + list)
    ensures k == |s| ==> Extracted([Star] + ts, s, list) == AssertFailed
  {
    hide Accepts, Lazy, WildPieces, Backwards, FirstSuffix;
    var all := [Star] + ts;
    assert all[1..] == ts;
    LazyStar(all, s);
    if k < |s| && Accepts(ts, s[k..]) {
      assert FirstSuffix(ts, s, 0) == k;
      if Lazy(ts, s[k..]).Some? {
        LazyIsShortest(ts, s[k..]);
        WildStep(Star, ts, s[..k], Lazy(ts, s[k..]).value, list);
      }
    }
  }

  lemma ExtractedLastStar(s: string, list: seq<string>)
    ensures Accepts([Star], s) && Extracted([Star], s, list) == Captured([s] + list)
  {
    FinalStar([Star], s);
    assert [Star][1..] == [] && [s][1..] == [];
    assert WildPieces([Star], [s]) == [s];
    assert Backwards([s]) == [s];
  }

  /** The bracket case: a closed bracket expression captures, a literal `[` does not. */
  lemma ExtractedBracket(s: string, p: string, raw: seq<bool>, i: nat, list: seq<string>)
    requires |raw| == |p| && 0 < i <= |p| && p[i - 1] == '[' && raw[i - 1] && Accepts(Parse(p, raw, i - 1), s)
    ensures s != ""
    ensures ParseClass(p, raw, i).None? ==>
              && s[0] == '[' && Accepts(Parse(p, raw, i), s[1..])
              && Extracted(Parse(p, raw, i - 1), s, list) == Extracted(Parse(p, raw, i), s[1..], list)
    ensures ParseClass(p, raw, i).Some? ==>
              var expr := ParseClass(p, raw, i).value;
              && FitsChar(expr.0, s[0]) && Accepts(Parse(p, raw, expr.1), s[1..])
              && Extracted(Parse(p, raw, i - 1), s, list) == Extracted(Parse(p, raw, expr.1), s[1..], [s[..1]] + list)
  {
    hide Accepts, Extracted, ParseClass;
    match ParseClass(p, raw, i)
    case None => ExtractedStep(Lit('['), Parse(p, raw, i), s, list);
    case Some(expr) => ExtractedStep(expr.0, Parse(p, raw, expr.1), s, list);
  }

  /** What the extraction from one subject and one pattern should be, in front of a list. */
  ghost function Captures(ts: seq<Token>, s: string, wild: bool, list: seq<string>): Outcome {
    if wild && Accepts(ts, s) then Extracted(ts, s, list) else Captured([])
  }

  /** extractsinglematch: the captures are built up backwards in front of the result. */
  method ExtractSingle(s: string, si: nat, p: string, raw: seq<bool>, pi: nat, result: seq<string>) returns (r: Outcome)
    requires |raw| == |p| && pi <= |p| && si <= |s|
    ensures r == Captures(Parse(p, raw, pi), s[si..], Wild(p, raw, pi), result)
    decreases |p| - pi, 0
  {
    hide Accepts, Extracted, ParseClass, Parse, Wild, FitsChar;
    var wild := HasWild(p, raw, pi);
    if !wild {
      return Captured([]);
    }
    var matched := Match(s, si, p, raw, pi);
    if !matched {
      return Captured([]);
    }
    var i, k, list := pi, si, result;
    while i < |p|
      invariant pi <= i <= |p| && si <= k <= |s|
      invariant Accepts(Parse(p, raw, i), s[k..])
      invariant Extracted(Parse(p, raw, i), s[k..], list) == Extracted(Parse(p, raw, pi), s[si..], result)
    {
      if raw[i] && p[i] == '*' {
        r := ExtractStar(s, k, p, raw, i + 1, list);
        return;
      }
      ghost var ts := Parse(p, raw, i);
      i := i + 1;
      if raw[i - 1] && p[i - 1] == '[' {
        ExtractedBracket(s[k..], p, raw, i, list);
        BracketStep(s, k, p, raw, i);
        assert s[k..][1..] == s[k + 1..] && s[k..][..1] == [s[k]];
        var j := RangeMatch(p, raw, i, s[k]);
        assert j != RANGE_FAIL;
        if j == RANGE_ERROR {
          assert s[k] == '[';
        } else {
          i := i + j;
          list := [[s[k]]] + list;
        }
      } else {
        ghost var t := if raw[i - 1] && p[i - 1] == '?' then Any else Lit(p[i - 1]);
        PlainToken(p, raw, i - 1);
        ExtractedStep(t, Parse(p, raw, i), s[k..], list);
        assert s[k..][1..] == s[k + 1..] && s[k..][..1] == [s[k]];
        if raw[i - 1] && p[i - 1] == '?' {
          list := [[s[k]]] + list;
        }
      }
      k := k + 1;
    }
    ParseEnd(p, raw);
    NothingLeft(s[k..], list);
    r := Captured(list);
  }

  lemma PlainToken(p: string, raw: seq<bool>, i: nat)
    requires |raw| == |p| && i < |p| && !(raw[i] && (p[i] == '*' || p[i] == '['))
    ensures Parse(p, raw, i) == [if raw[i] && p[i] == '?' then Any else Lit(p[i])] + Parse(p, raw, i + 1)
  {
  }

  lemma ParseEnd(p: string, raw: seq<bool>)
    requires |raw| == |p|
    ensures Parse(p, raw, |p|) == []
  {
  }

  lemma NothingLeft(s: string, list: seq<string>)
    requires Accepts([], s)
    ensures Extracted([], s, list) == Captured(list)
  {
  }

  /** The star case of extractsinglematch. */
  method ExtractStar(s: string, si: nat, p: string, raw: seq<bool>, i: nat, list: seq<string>) returns (r: Outcome)
    requires |raw| == |p| && 0 < i <= |p| && si <= |s| && p[i - 1] == '*' && raw[i - 1]
    requires Accepts(Parse(p, raw, i - 1), s[si..])
    ensures r == Extracted(Parse(p, raw, i - 1), s[si..], list)
    decreases |p| - i, 1
  {
    hide Accepts, Extracted, Parse, Wild;
    StarParse(p, raw, i - 1);
    if i == |p| {
      ExtractedLastStar(s[si..], list);
      return Captured([s[si..]] + list);
    }
    ghost var ts := Parse(p, raw, i);
    SomeToken(p, raw, i);
    var k := si;
    while k < |s|
      invariant si <= k <= |s|
      invariant forall j | 0 <= j < k - si :: !Accepts(ts, s[si..][j..])
    {
      var found := Match(s, k, p, raw, i);
      assert s[si..][k - si..] == s[k..];
      if found {
        ExtractedStar(ts, s[si..], k - si, list);
        assert s[si..][..k - si] == s[si..k];
        var more := HasWild(p, raw, i);
        if more {
          r := ExtractSingle(s, k, p, raw, i, [s[si..k]] + list);
        } else {
          TameCapturesNothing(p, raw, i, s[k..], [s[si..k]] + list);
          r := Captured([s[si..k]] + list);
        }
        return;
      }
      k := k + 1;
    }
    ExtractedStar(ts, s[si..], k - si, list);
    r := AssertFailed;
  }

  lemma SomeToken(p: string, raw: seq<bool>, i: nat)
    requires |raw| == |p| && i < |p|
    ensures Parse(p, raw, i) != []
  {
  }

  // ----- lists of subjects and patterns

  function Tokens(p: string, q: Quote): seq<Token>
    requires QuoteFits(q, |p|)
  {
    Parse(p, RawFlags(q, |p|), 0)
  }

  predicate QuotesFit(patterns: seq<string>, quotes: seq<Quote>) {
    |quotes| == |patterns| && forall i | 0 <= i < |patterns| :: QuoteFits(quotes[i], |patterns[i]|)
  }

  /** One or more unquoted stars. */
  predicate OnlyStars(p: string, q: Quote)
    requires QuoteFits(q, |p|)
  {
    p != "" && forall i | 0 <= i < |p| :: p[i] == '*' && RawFlags(q, |p|)[i]
  }

  /** listmatch: some subject is accepted by some pattern; the empty list is matched by
      the empty list and by a pattern of stars. */
  method ListMatch(subjects: seq<string>, patterns: seq<string>, quotes: seq<Quote>) returns (b: bool)
    requires QuotesFit(patterns, quotes)
    ensures subjects == [] ==>
              (b <==> patterns == [] || exists i | 0 <= i < |patterns| :: OnlyStars(patterns[i], quotes[i]))
    ensures subjects != [] ==>
              (b <==> exists i, t | 0 <= i < |patterns| && 0 <= t < |subjects| ::
                        Accepts(Tokens(patterns[i], quotes[i]), subjects[t]))
  {
    hide Accepts, Tokens;
    var i := 0;
    if subjects == [] {
      if patterns == [] {
        return true;
      }
      while i < |patterns|
        invariant i <= |patterns|
        invariant forall n | 0 <= n < i :: !OnlyStars(patterns[n], quotes[n])
      {
        assert quotes[i] == QUOTED && patterns[i] != "" ==> !RawFlags(quotes[i], |patterns[i]|)[0];
        if patterns[i] != "" && quotes[i] != QUOTED {
          var stars := AllStars(patterns[i], quotes[i]);
          if stars {
            return true;
          }
        }
        i := i + 1;
      }
      return false;
    }
    while i < |patterns|
      invariant i <= |patterns|
      invariant forall n, t | 0 <= n < i && 0 <= t < |subjects| ::
                  !Accepts(Tokens(patterns[n], quotes[n]), subjects[t])
    {
      var t := 0;
      while t < |subjects|
        invariant t <= |subjects|
        invariant forall n | 0 <= n < t :: !Accepts(Tokens(patterns[i], quotes[i]), subjects[n])
      {
        var matched := MatchTokens(subjects[t], patterns[i], quotes[i]);
        if matched {
          return true;
        }
        t := t + 1;
      }
      i := i + 1;
    }
    return false;
  }

  method MatchTokens(s: string, p: string, q: Quote) returns (b: bool)
    requires QuoteFits(q, |p|)
    ensures b <==> Accepts(Tokens(p, q), s)
  {
    hide Accepts;
    b := MatchWord(s, p, q);
  }

  method AllStars(p: string, q: Quote) returns (stars: bool)
    requires QuoteFits(q, |p|) && p != "" && !q.QUOTED?
    ensures stars <==> OnlyStars(p, q)
  {
    var i := 0;
    stars := true;
    while i < |p|
      invariant i <= |p|
      invariant stars && forall n | 0 <= n < i :: p[n] == '*' && RawFlags(q, |p|)[n]
    {
      if p[i] != '*' || (q != UNQUOTED && q.flags[i] != 'r') {
        return false;
      }
      i := i + 1;
    }
  }

  /** The captures of the first pattern that captures anything. */
  ghost function FirstCaptures(s: string, patterns: seq<string>, quotes: seq<Quote>): Outcome
    requires QuotesFit(patterns, quotes)
  {
    if patterns == [] then Captured([])
    else if !Accepts(Tokens(patterns[0], quotes[0]), s) then FirstCaptures(s, patterns[1..], quotes[1..])
    else match Lazy(Tokens(patterns[0], quotes[0]), s)
         case None => AssertFailed
         case Some(pieces) =>
           LazyIsShortest(Tokens(patterns[0], quotes[0]), s);
           var captures := WildPieces(Tokens(patterns[0], quotes[0]), pieces);
           if captures != [] then Captured(captures) else FirstCaptures(s, patterns[1..], quotes[1..])
  }

  /** The captures of all the subjects in order. */
  ghost function AllCaptures(subjects: seq<string>, patterns: seq<string>, quotes: seq<Quote>): Outcome
    requires QuotesFit(patterns, quotes)
  {
    if subjects == [] then Captured([])
    else match FirstCaptures(subjects[0], patterns, quotes)
         case AssertFailed => AssertFailed
         case Captured(first) =>
           match AllCaptures(subjects[1..], patterns, quotes)
           case AssertFailed => AssertFailed
           case Captured(rest) => Captured(first + rest)
  }

  /** A pattern that accepts the subject and has something to capture. */
  ghost predicate Takes(s: string, p: string, q: Quote)
    requires QuoteFits(q, |p|)
  {
    Accepts(Tokens(p, q), s) && WildCount(Tokens(p, q)) > 0
  }

  lemma {:induction false} NoWildNoStar(ts: seq<Token>)
    requires WildCount(ts) == 0
    ensures forall i | 0 <= i < |ts| :: !ts[i].Star?
  {
    if ts != [] {
      NoWildNoStar(ts[1..]);
      assert forall i | 0 < i < |ts| :: ts[i] == ts[1..][i - 1];
    }
  }

  /** The first pattern that takes the subject decides: its captures, put back, are the
      subject, or the assertion fails.  Without one nothing is captured. */
  lemma {:induction false} FirstCapturesExactly(s: string, patterns: seq<string>, quotes: seq<Quote>, k: nat)
    requires QuotesFit(patterns, quotes) && k <= |patterns|
    requires forall i | 0 <= i < k :: !Takes(s, patterns[i], quotes[i])
    ensures k == |patterns| ==> FirstCaptures(s, patterns, quotes) == Captured([])
    ensures k < |patterns| && Takes(s, patterns[k], quotes[k]) ==>
              var ts, r := Tokens(patterns[k], quotes[k]), FirstCaptures(s, patterns, quotes);
              && (r.AssertFailed? <==> Starved(ts, s))
              && (r.Captured? ==> |r.list| == WildCount(ts) && Fill(ts, r.list) == s)
    decreases k
  {
    if patterns != [] {
      hide Accepts, Starved, Lazy;
      var ts := Tokens(patterns[0], quotes[0]);
      if Accepts(ts, s) {
        FiresExactly(ts, s);
        if Lazy(ts, s).Some? {
          LazyIsShortest(ts, s);
          FillRebuilds(ts, s, Lazy(ts, s).value);
        } else {
          StarvedIsWild(ts, s);
        }
      }
      if k > 0 {
        assert !Takes(s, patterns[0], quotes[0]);
        forall i | 0 <= i < k - 1
          ensures !Takes(s, patterns[1..][i], quotes[1..][i])
        {
          assert !Takes(s, patterns[i + 1], quotes[i + 1]);
        }
        FirstCapturesExactly(s, patterns[1..], quotes[1..], k - 1);
      }
    }
  }

  lemma StarvedIsWild(ts: seq<Token>, s: string)
    requires Starved(ts, s)
    ensures WildCount(ts) > 0
  {
    if WildCount(ts) == 0 {
      NoWildNoStar(ts);
    }
  }

  /** Captures come in the order of the subjects. */
  lemma {:induction false} CapturesInOrder(subjects: seq<string>, more: seq<string>, patterns: seq<string>, quotes: seq<Quote>)
    requires QuotesFit(patterns, quotes)
    ensures AllCaptures(subjects + more, patterns, quotes) ==
              if AllCaptures(subjects, patterns, quotes).AssertFailed? || AllCaptures(more, patterns, quotes).AssertFailed?
              then AssertFailed
              else Captured(AllCaptures(subjects, patterns, quotes).list + AllCaptures(more, patterns, quotes).list)
  {
    hide FirstCaptures;
    if subjects == [] {
      assert subjects + more == more;
      assert AllCaptures(more, patterns, quotes).Captured? ==>
               [] + AllCaptures(more, patterns, quotes).list == AllCaptures(more, patterns, quotes).list;
    } else {
      assert (subjects + more)[1..] == subjects[1..] + more;
      CapturesInOrder(subjects[1..], more, patterns, quotes);
      var a, b := AllCaptures(subjects[1..], patterns, quotes), AllCaptures(more, patterns, quotes);
      var first := FirstCaptures(subjects[0], patterns, quotes);
      if a.Captured? && b.Captured? && first.Captured? {
        assert first.list + (a.list + b.list) == first.list + a.list + b.list;
      }
    }
  }

  lemma OneSubject(s: string, patterns: seq<string>, quotes: seq<Quote>)
    requires QuotesFit(patterns, quotes)
    ensures AllCaptures([s], patterns, quotes) == FirstCaptures(s, patterns, quotes)
  {
    var first := FirstCaptures(s, patterns, quotes);
    assert first.Captured? ==> first.list + [] == first.list;
    assert AllCaptures([s][1..], patterns, quotes) == Captured([]);
  }

  /** What one pattern yields for one subject, once reversed: nothing if it does not match
      or has no wildcard. */
  lemma CapturesReversed(s: string, p: string, q: Quote)
    requires QuoteFits(q, |p|)
    ensures var ts := Tokens(p, q);
            var r := Captures(ts, s, Wild(p, RawFlags(q, |p|), 0), []);
            && (!Accepts(ts, s) ==> r == Captured([]))
            && (Accepts(ts, s) ==> match Lazy(ts, s)
                                   case None => r == AssertFailed
                                   case Some(pieces) => |pieces| == |ts| && r.Captured? &&
                                                        Backwards(r.list) == WildPieces(ts, pieces))
  {
    var ts := Tokens(p, q);
    if Accepts(ts, s) {
      if !Wild(p, RawFlags(q, |p|), 0) {
        TameCapturesNothing(p, RawFlags(q, |p|), 0, s, []);
      }
      if Lazy(ts, s).Some? {
        LazyIsShortest(ts, s);
        var captures := WildPieces(ts, Lazy(ts, s).value);
        BackwardsTwice(captures);
        assert Backwards(captures) + [] == Backwards(captures);
      }
    }
  }

  lemma NextPattern(s: string, patterns: seq<string>, quotes: seq<Quote>, i: nat)
    requires QuotesFit(patterns, quotes) && i < |patterns|
    ensures var r := Captures(Tokens(patterns[i], quotes[i]), s, Wild(patterns[i], RawFlags(quotes[i], |patterns[i]|), 0), []);
            FirstCaptures(s, patterns[i..], quotes[i..]) ==
              if r.AssertFailed? then AssertFailed
              else if r.list != [] then Captured(Backwards(r.list))
              else FirstCaptures(s, patterns[i + 1..], quotes[i + 1..])
  {
    hide Accepts, Lazy, WildPieces, Captures, Tokens, Wild;
    CapturesReversed(s, patterns[i], quotes[i]);
    assert patterns[i..][1..] == patterns[i + 1..] && quotes[i..][1..] == quotes[i + 1..];
  }

  /** extractmatches: the captures of every subject, from the first pattern that has any. */
  method ExtractMatches(subjects: seq<string>, patterns: seq<string>, quotes: seq<Quote>) returns (r: Outcome)
    requires QuotesFit(patterns, quotes)
    ensures r == AllCaptures(subjects, patterns, quotes)
  {
    hide Captures, Wild, Tokens, FirstCaptures;
    var result: seq<string> := [];
    var t := 0;
    assert subjects[0..] == subjects;
    while t < |subjects|
      invariant t <= |subjects|
      invariant AllCaptures(subjects, patterns, quotes) ==
                match AllCaptures(subjects[t..], patterns, quotes)
                case AssertFailed => AssertFailed
                case Captured(rest) => Captured(result + rest)
    {
      var first := ExtractFirst(subjects[t], patterns, quotes);
      assert subjects[t..][1..] == subjects[t + 1..];
      if first == AssertFailed {
        return AssertFailed;
      }
      ghost var later := AllCaptures(subjects[t + 1..], patterns, quotes);
      assert later.Captured? ==> result + (first.list + later.list) == result + first.list + later.list;
      result := result + first.list;
      t := t + 1;
    }
    r := Captured(result);
  }

  method ExtractFirst(s: string, patterns: seq<string>, quotes: seq<Quote>) returns (r: Outcome)
    requires QuotesFit(patterns, quotes)
    ensures r == FirstCaptures(s, patterns, quotes)
  {
    hide Captures, Wild, FirstCaptures, Accepts;
    var i := 0;
    assert patterns[0..] == patterns && quotes[0..] == quotes;
    while i < |patterns|
      invariant i <= |patterns|
      invariant FirstCaptures(s, patterns, quotes) == FirstCaptures(s, patterns[i..], quotes[i..])
    {
      var p, q := patterns[i], quotes[i];
      NextPattern(s, patterns, quotes, i);
      assert s[0..] == s;
      r := ExtractSingle(s, 0, p, RawFlags(q, |p|), 0, []);
      if r == AssertFailed {
        return;
      }
      if r.list != [] {
        return Captured(Backwards(r.list));
      }
      i := i + 1;
    }
    NoPatterns(s);
    r := Captured([]);
  }

  lemma NoPatterns(s: string)
    ensures FirstCaptures(s, [], []) == Captured([])
  {
  }
}
