/** src/match.c: what written patterns accept, character by character of their text. */
module PatternTexts {
  import opened Options
  import opened Patterns

  // ----- bracket expressions

  /** A member of a bracket expression, as it is written. */
  datatype Item = One(c: char) | Range(lo: char, hi: char)

  function ItemText(item: Item): string {
    match item case One(c) => [c] case Range(lo, hi) => [lo, '-', hi]
  }

  function Text(items: seq<Item>): string {
    if items == [] then "" else ItemText(items[0]) + Text(items[1..])
  }

  /** Members that can be written without quotes in any place but behind the `[`. */
  predicate Writable(items: seq<Item>) {
    forall i | 0 <= i < |items| ::
      match items[i]
      case One(c) => c != ']' && c != '-'
      case Range(lo, hi) => lo != ']' && lo != '-' && hi != ']'
  }

  predicate Has(items: seq<Item>, c: char) {
    exists i :: 0 <= i < |items| && match items[i] case One(d) => c == d case Range(lo, hi) => lo <= c <= hi
  }

  function Raw(n: nat): (r: seq<bool>)
    ensures |r| == n && forall i | 0 <= i < n :: r[i]
  {
    seq(n, i => true)
  }

  function RangesOf(items: seq<Item>): (r: seq<(char, char)>)
    ensures |r| == |items|
  {
    seq(|items|, i requires 0 <= i < |items| => match items[i] case One(c) => (c, c) case Range(lo, hi) => (lo, hi))
  }

  lemma HasIsInRanges(items: seq<Item>, c: char)
    ensures Has(items, c) <==> InRanges(RangesOf(items), c)
  {
    var ranges := RangesOf(items);
    if i :| 0 <= i < |items| && match items[i] case One(d) => c == d case Range(lo, hi) => lo <= c <= hi {
      assert ranges[i].0 <= c <= ranges[i].1;
    }
    if i :| 0 <= i < |ranges| && ranges[i].0 <= c <= ranges[i].1 {
      assert match items[i] case One(d) => c == d case Range(lo, hi) => lo <= c <= hi;
    }
  }

  lemma TextStarts(items: seq<Item>)
    requires Writable(items) && items != []
    ensures Text(items) != "" && Text(items)[0] != '-' && Text(items)[0] != ']'
  {
  }

  lemma {:induction false} ItemsParse(pre: string, items: seq<Item>, post: string)
    requires Writable(items)
    ensures var p := pre + Text(items) + "]" + post;
            ParseItems(p, Raw(|p|), |pre|) == Some((RangesOf(items), |pre| + |Text(items)| + 1))
    decreases |items|
  {
    hide ParseItems;
    var p := pre + Text(items) + "]" + post;
    var raw, j := Raw(|p|), |pre|;
    if items == [] {
      assert p[j] == ']' && RangesOf(items) == [];
      NoItems(p, raw, j, ']');
    } else {
      var rest, piece := items[1..], ItemText(items[0]);
      var front, tail := pre + piece, Text(items[1..]) + "]" + post;
      assert Writable(rest) by { assert forall i | 0 <= i < |rest| :: rest[i] == items[i + 1]; }
      assert p == pre + (piece + tail) && p == front + Text(rest) + "]" + post;
      ItemsParse(front, rest, post);
      TailStarts(rest, post);
      ItemIsRead(pre, items[0], tail);
      assert Writable(items) && p == pre + (piece + tail);
      ItemStep(p, raw, j);
      assert RangesOf(items) == [RangesOf(items)[0]] + RangesOf(rest);
    }
  }

  lemma TailStarts(items: seq<Item>, post: string)
    requires Writable(items)
    ensures var tail := Text(items) + "]" + post; tail != "" && tail[0] != '-'
  {
    if items != [] {
      TextStarts(items);
    }
  }

  /** The first member of the text, and whether it is a range. */
  lemma ItemIsRead(pre: string, item: Item, tail: string)
    requires tail != "" && tail[0] != '-' && Writable([item])
    ensures var p := pre + (ItemText(item) + tail); var j := |pre|;
            && j < |p| && p[j] != ']' && p[j] == ItemText(item)[0] && IsRange(p, Raw(|p|), j) == item.Range?
            && (item.Range? ==> p[j + 2] == item.hi)
  {
    var more := ItemText(item) + tail;
    var p, j := pre + more, |pre|;
    assert forall k | 0 <= k < |more| :: p[j + k] == more[k];
    assert [item][0] == item;
    if item.One? {
      assert p[j + 1] == more[1] == tail[0];
    } else {
      assert p[j + 1] == more[1] == '-' && p[j + 2] == more[2] == item.hi;
    }
  }

  /** The text of a bracket expression: perhaps `~`, perhaps `]`, and then its members. */
  function Bracket(neg: bool, bracket: bool, items: seq<Item>): string {
    "[" + (if neg then "~" else "") + (if bracket then "]" else "") + Text(items) + "]"
  }

  lemma BracketParses(neg: bool, bracket: bool, items: seq<Item>)
    requires Writable(items) && (bracket || (items != [] && (!neg ==> Text(items)[0] != '~')))
    ensures var p := Bracket(neg, bracket, items);
            var ranges := (if bracket then [(']', ']')] else []) + RangesOf(items);
            Parse(p, Raw(|p|), 0) == [Class(neg, ranges)]
  {
    hide ParseItems, Writable, RangesOf;
    var p := Bracket(neg, bracket, items);
    var raw := Raw(|p|);
    var sign := if neg then "~" else "";
    var pre := "[" + sign + if bracket then "]" else "";
    var tail := Text(items) + "]";
    assert p == pre + Text(items) + "]" + "" && p == pre + tail;
    ItemsParse(pre, items, "");
    if items != [] {
      TextStarts(items);
    }
    assert p[|pre|] == tail[0];
    assert p[1] == if neg then '~' else if bracket then ']' else tail[0];
    assert bracket ==> p[1 + |sign|] == ']';
    ClassOfBracket(p, neg, bracket, |pre|);
    assert [] + RangesOf(items) == RangesOf(items);
    NoMore(p, raw);
  }

  lemma NoMore(p: string, raw: seq<bool>)
    requires |raw| == |p|
    ensures Parse(p, raw, |p|) == []
  {
  }

  /** The sign and the leading bracket of an expression that starts the pattern. */
  lemma ClassOfBracket(p: string, neg: bool, bracket: bool, j: nat)
    requires j == 1 + (if neg then 1 else 0) + (if bracket then 1 else 0) && j < |p|
    requires (p[1] == '~') == neg && (bracket ==> p[j - 1] == ']') && (!bracket ==> p[j] != ']')
    ensures ParseClass(p, Raw(|p|), 1) == match ParseItems(p, Raw(|p|), j)
                                          case None => None
                                          case Some(items) =>
                                            Some((Class(neg, (if bracket then [(']', ']')] else []) + items.0), items.1))
  {
    hide ParseItems;
    assert forall items: seq<(char, char)> :: [] + items == items;
  }

  /** What a bracket expression accepts: one character, and which ones. */
  lemma BracketAccepts(neg: bool, bracket: bool, items: seq<Item>, s: string)
    requires Writable(items) && (bracket || (items != [] && (!neg ==> Text(items)[0] != '~')))
    ensures var p := Bracket(neg, bracket, items);
            Accepts(Parse(p, Raw(|p|), 0), s)
            <==> |s| == 1 && ((bracket && s[0] == ']') || Has(items, s[0])) != neg
  {
    hide Parse, RangesOf, Has, InRanges;
    BracketParses(neg, bracket, items);
    var ranges := (if bracket then [(']', ']')] else []) + RangesOf(items);
    var ts := [Class(neg, ranges)];
    assert ts[1..] == [];
    if s != "" {
      HasIsInRanges(items, s[0]);
      if bracket {
        InRangesCons((']', ']'), RangesOf(items), s[0]);
      } else {
        assert ranges == RangesOf(items);
      }
    }
  }

  function Ones(m: string): (r: seq<Item>)
    ensures |r| == |m|
  {
    seq(|m|, i requires 0 <= i < |m| => One(m[i]))
  }

  lemma {:induction false} OnesText(m: string)
    ensures Text(Ones(m)) == m
  {
    if m != "" {
      assert Ones(m)[1..] == Ones(m[1..]);
      OnesText(m[1..]);
      assert m == [m[0]] + m[1..];
    }
  }

  lemma OnesHave(m: string)
    ensures forall c :: Has(Ones(m), c) <==> c in m
    ensures ']' !in m && '-' !in m ==> Writable(Ones(m))
  {
    var items := Ones(m);
    forall c
      ensures Has(items, c) <==> c in m
    {
      if i :| 0 <= i < |m| && m[i] == c {
        assert items[i] == One(c);
      }
      if Has(items, c) {
        var i :| 0 <= i < |items| && match items[i] case One(d) => c == d case Range(lo, hi) => lo <= c <= hi;
        assert m[i] == c;
      }
    }
    assert forall i | 0 <= i < |m| :: m[i] in m;
  }

  /** `[m]` accepts the characters of m, and `[~m]` all others. */
  lemma CharactersAccept(m: string, s: string)
    requires m != "" && ']' !in m && '-' !in m && m[0] != '~'
    ensures var p := "[" + m + "]"; Accepts(Parse(p, Raw(|p|), 0), s) <==> |s| == 1 && s[0] in m
    ensures var p := "[~" + m + "]"; Accepts(Parse(p, Raw(|p|), 0), s) <==> |s| == 1 && s[0] !in m
  {
    hide Parse, Accepts, Has, Text, Ones, Bracket, Writable, Raw;
    OnesText(m);
    OnesHave(m);
    PlainBrackets(m);
    BracketAccepts(false, false, Ones(m), s);
    BracketAccepts(true, false, Ones(m), s);
  }

  lemma PlainBrackets(m: string)
    ensures Bracket(false, false, Ones(m)) == "[" + m + "]"
    ensures Bracket(true, false, Ones(m)) == "[~" + m + "]"
    ensures Bracket(false, true, Ones(m)) == "[]" + m + "]"
  {
    OnesText(m);
    assert "[" + "~" == "[~" && "[" + "]" == "[]";
  }

  /** `[a-b]` accepts the characters from a to b. */
  lemma RangeAccepts(a: char, b: char, s: string)
    requires a != ']' && a != '-' && a != '~' && b != ']'
    ensures var p := ['[', a, '-', b, ']']; Accepts(Parse(p, Raw(5), 0), s) <==> |s| == 1 && a <= s[0] <= b
  {
    hide Parse, Accepts;
    var items := [Range(a, b)];
    assert items[1..] == [] && Text(items) == [a, '-', b] + "";
    BracketAccepts(false, false, items, s);
    assert Bracket(false, false, items) == ['[', a, '-', b, ']'];
    if |s| == 1 && a <= s[0] <= b {
      assert items[0] == Range(a, b);
    }
  }

  /** A `]` right behind the `[` is a member. */
  lemma LeadingBracketAccepts(m: string, s: string)
    requires ']' !in m && '-' !in m
    ensures var p := "[]" + m + "]"; Accepts(Parse(p, Raw(|p|), 0), s) <==> |s| == 1 && (s[0] == ']' || s[0] in m)
  {
    hide Parse, Accepts, Has, Text, Ones, Bracket, Writable, Raw;
    OnesHave(m);
    PlainBrackets(m);
    BracketAccepts(false, true, Ones(m), s);
  }

  // ----- single characters

  /** `?` accepts one character, `*` everything, and any other character, or a quoted one,
      accepts itself; so does a bracket that is not closed. */
  lemma CharacterAccepts(c: char, quoted: bool, s: string)
    ensures Accepts(Parse([c], [!quoted], 0), s)
            <==> if !quoted && c == '*' then true else if !quoted && c == '?' then |s| == 1 else s == [c]
  {
    assert Parse([c], [!quoted], 1) == [];
    assert ParseItems([c], [!quoted], 1) == None;
    var t := if quoted then Lit(c) else if c == '*' then Star else if c == '?' then Any else Lit(c);
    assert Parse([c], [!quoted], 0) == [t] && [t][1..] == [];
    if t.Star? {
      FinalStar([t], s);
    } else if |s| > 0 {
      assert s[1..] == "" <==> |s| == 1;
    }
  }

  // ----- writing any tokens

  /** A token written so that it is read back: literal characters are quoted, and so are the
      ends of ranges. */
  function Written(t: Token): (r: (string, seq<bool>))
    ensures |r.0| == |r.1| > 0
  {
    match t
    case Lit(c) => ([c], [false])
    case Any => ("?", [true])
    case Star => ("*", [true])
    case Class(neg, ranges) =>
      var m := WrittenRanges(ranges);
      ("[" + (if neg then "~" else "") + m.0 + "]", [true] + (if neg then [true] else []) + m.1 + [true])
  }

  function WrittenRanges(ranges: seq<(char, char)>): (r: (string, seq<bool>))
    ensures |r.0| == |r.1| == 3 * |ranges|
  {
    if ranges == [] then ("", [])
    else
      var rest := WrittenRanges(ranges[1..]);
      ([ranges[0].0, '-', ranges[0].1] + rest.0, [false, true, false] + rest.1)
  }

  function WrittenAll(ts: seq<Token>): (r: (string, seq<bool>))
    ensures |r.0| == |r.1|
  {
    if ts == [] then ("", [])
    else
      var first, rest := Written(ts[0]), WrittenAll(ts[1..]);
      (first.0 + rest.0, first.1 + rest.1)
  }

  /** One range at the front of a text. */
  lemma RangeIsRead(pre: string, flags: seq<bool>, range: (char, char), tail: string, bits: seq<bool>)
    requires |flags| == |pre| && |bits| == |tail|
    ensures var p, raw, j := pre + ([range.0, '-', range.1] + tail), flags + ([false, true, false] + bits), |pre|;
            && j + 2 < |p| && p[j] == range.0 && !raw[j] && p[j + 2] == range.1
            && IsRange(p, raw, j)
  {
    var text, marks := [range.0, '-', range.1] + tail, [false, true, false] + bits;
    var p, raw, j := pre + text, flags + marks, |pre|;
    assert forall k | 0 <= k < |text| :: p[j + k] == text[k] && raw[j + k] == marks[k];
    assert p[j + 1] == text[1] && raw[j + 1] == marks[1] && p[j + 2] == text[2] && raw[j + 2] == marks[2];
  }

  lemma {:induction false} RangesParse(pre: string, flags: seq<bool>, ranges: seq<(char, char)>, post: string, postFlags: seq<bool>)
    requires |flags| == |pre| && |postFlags| == |post|
    ensures var m := WrittenRanges(ranges);
            ParseItems(pre + (m.0 + ("]" + post)), flags + (m.1 + ([true] + postFlags)), |pre|)
            == Some((ranges, |pre| + 3 * |ranges| + 1))
    decreases |ranges|
  {
    hide ParseItems, IsRange, WrittenRanges;
    var m := WrittenRanges(ranges);
    var tail, bits := "]" + post, [true] + postFlags;
    var p, raw, j := pre + (m.0 + tail), flags + (m.1 + bits), |pre|;
    WrittenRangesStep(ranges);
    if ranges == [] {
      assert m.0 + tail == tail && m.1 + bits == bits;
      assert p[j] == tail[0] && raw[j] == bits[0];
      NoItems(p, raw, j, ']');
    } else {
      var rest := WrittenRanges(ranges[1..]);
      var piece, marks := [ranges[0].0, '-', ranges[0].1], [false, true, false];
      assert p == pre + (piece + (rest.0 + tail)) && p == (pre + piece) + (rest.0 + tail);
      assert raw == flags + (marks + (rest.1 + bits)) && raw == (flags + marks) + (rest.1 + bits);
      RangesParse(pre + piece, flags + marks, ranges[1..], post, postFlags);
      RangeIsRead(pre, flags, ranges[0], rest.0 + tail, rest.1 + bits);
      ItemStep(p, raw, j);
      assert ranges == [ranges[0]] + ranges[1..];
    }
  }

  lemma WrittenRangesStep(ranges: seq<(char, char)>)
    ensures var m := WrittenRanges(ranges);
            if ranges == [] then m == ("", [])
            else var rest := WrittenRanges(ranges[1..]);
                 && m.0 == [ranges[0].0, '-', ranges[0].1] + rest.0 && m.1 == [false, true, false] + rest.1
                 && m.0[0] == ranges[0].0 && !m.1[0]
  {
  }

  /** The characters at the front of a text, behind others. */
  lemma At(pre: string, flags: seq<bool>, text: string, marks: seq<bool>, k: nat)
    requires |flags| == |pre| && |marks| == |text| && k < |text|
    ensures (pre + text)[|pre| + k] == text[k] && (flags + marks)[|pre| + k] == marks[k]
  {
  }

  lemma ClassParses(pre: string, flags: seq<bool>, t: Token, post: string, postFlags: seq<bool>)
    requires |flags| == |pre| && |postFlags| == |post| && t.Class? && t.ranges != []
    ensures ParseClass(pre + (Written(t).0 + post), flags + (Written(t).1 + postFlags), |pre| + 1)
         == Some((t, |pre| + |Written(t).0|))
  {
    hide ParseItems, WrittenRanges;
    var m := WrittenRanges(t.ranges);
    var text, marks := m.0 + ("]" + post), m.1 + ([true] + postFlags);
    var sign, signFlag := if t.neg then "~" else "", if t.neg then [true] else [];
    var front, bits := pre + ("[" + sign), flags + ([true] + signFlag);
    var p, raw := pre + (Written(t).0 + post), flags + (Written(t).1 + postFlags);
    assert Written(t).0 + post == ("[" + sign) + text && p == front + text;
    assert Written(t).1 + postFlags == ([true] + signFlag) + marks && raw == bits + marks;
    RangesParse(front, bits, t.ranges, post, postFlags);
    WrittenRangesStep(t.ranges);
    At(front, bits, text, marks, 0);
    if t.neg {
      At(pre + "[", flags + [true], sign + text, signFlag + marks, 0);
      assert p == (pre + "[") + (sign + text) && raw == (flags + [true]) + (signFlag + marks);
    }
  }

  /** The first token is read where it was written. */
  lemma TokenParses(pre: string, flags: seq<bool>, t: Token, post: string, postFlags: seq<bool>)
    requires |flags| == |pre| && |postFlags| == |post| && (t.Class? ==> t.ranges != [])
    ensures var p, raw := pre + (Written(t).0 + post), flags + (Written(t).1 + postFlags);
            Parse(p, raw, |pre|) == [t] + Parse(p, raw, |pre| + |Written(t).0|)
  {
    hide ParseClass, WrittenRanges;
    At(pre, flags, Written(t).0 + post, Written(t).1 + postFlags, 0);
    if t.Class? {
      ClassParses(pre, flags, t, post, postFlags);
    }
  }

  /** Reading undoes writing. */
  lemma {:induction false} ParseUndoesWriting(pre: string, flags: seq<bool>, ts: seq<Token>)
    requires |flags| == |pre|
    requires forall i | 0 <= i < |ts| :: ts[i].Class? ==> ts[i].ranges != []
    ensures Parse(pre + WrittenAll(ts).0, flags + WrittenAll(ts).1, |pre|) == ts
    decreases |ts|
  {
    hide Parse, Written;
    var p, raw := pre + WrittenAll(ts).0, flags + WrittenAll(ts).1;
    if ts == [] {
      NoMore(p, raw);
    } else {
      var first, rest := Written(ts[0]), WrittenAll(ts[1..]);
      assert p == pre + (first.0 + rest.0) && p == (pre + first.0) + rest.0;
      assert raw == flags + (first.1 + rest.1) && raw == (flags + first.1) + rest.1;
      assert forall i | 0 <= i < |ts[1..]| :: ts[1..][i] == ts[i + 1];
      ParseUndoesWriting(pre + first.0, flags + first.1, ts[1..]);
      TokenParses(pre, flags, ts[0], rest.0, rest.1);
      assert ts == [ts[0]] + ts[1..];
    }
  }
}
