/** src/conv.c and src/var.c: `%W`, which writes a list of words as one environment string,
    and importvar, which reads it back. */
module ExportedLists {
  import opened Options
  import opened Splitting

  const SEPARATOR := '\U{0001}'
  const ESCAPE := '\U{0002}'

  predicate IsSpecial(c: char) { c == SEPARATOR || c == ESCAPE }

  predicate NulFree(s: string) { forall i | 0 <= i < |s| :: s[i] != '\0' }

  predicate Lacks(s: string, c: char) { forall i | 0 <= i < |s| :: s[i] != c }

  function Specials(word: string): nat {
    if word == "" then 0 else (if IsSpecial(word[0]) then 1 else 0) + Specials(word[1..])
  }

  // ----- %W

  function Escaped(word: string): string {
    if word == "" then ""
    else (if IsSpecial(word[0]) then [ESCAPE, word[0]] else [word[0]]) + Escaped(word[1..])
  }

  function Exported(list: seq<string>): string {
    if list == [] then ""
    else if |list| == 1 then Escaped(list[0])
    else Escaped(list[0]) + [SEPARATOR] + Exported(list[1..])
  }

  lemma EscapedStep(word: string, s: nat, out: string)
    requires s < |word|
    ensures out + Escaped(word[s..])
         == (out + (if IsSpecial(word[s]) then [ESCAPE, word[s]] else [word[s]])) + Escaped(word[s + 1..])
  {
    assert word[s..][1..] == word[s + 1..];
    var piece := if IsSpecial(word[s]) then [ESCAPE, word[s]] else [word[s]];
    assert out + (piece + Escaped(word[s + 1..])) == (out + piece) + Escaped(word[s + 1..]);
  }

  /** One word of Wconv. */
  method EscapeWord(word: string) returns (out: string)
    ensures out == Escaped(word)
  {
    hide Escaped;
    out := "";
    var s := 0;
    assert word[0..] == word && "" + Escaped(word) == Escaped(word);
    while s < |word|
      invariant s <= |word| && out + Escaped(word[s..]) == Escaped(word)
    {
      EscapedStep(word, s, out);
      ghost var before := out;
      if word[s] == ESCAPE || word[s] == SEPARATOR {
        out := out + [ESCAPE];
      }
      out := out + [word[s]];
      assert out == before + (if IsSpecial(word[s]) then [ESCAPE, word[s]] else [word[s]]);
      s := s + 1;
    }
    NothingToEscape(word[s..]);
    assert out + "" == out;
  }

  lemma NothingToEscape(word: string)
    requires word == ""
    ensures Escaped(word) == ""
  {
  }

  /** Wconv */
  method Wconv(list: seq<string>) returns (out: string)
    ensures out == Exported(list)
  {
    out := "";
    var lp := 0;
    assert list[0..] == list;
    while lp < |list|
      invariant lp <= |list| && out + Exported(list[lp..]) == Exported(list)
    {
      assert list[lp..][1..] == list[lp + 1..];
      ghost var rest := Exported(list[lp + 1..]);
      var word := EscapeWord(list[lp]);
      assert out + (word + [SEPARATOR] + rest) == out + word + [SEPARATOR] + rest;
      out := out + word;
      lp := lp + 1;
      if lp < |list| {
        out := out + [SEPARATOR];
      }
    }
  }

  // ----- importvar

  /** What becomes of one word of the list: its text `cur`, while the escapes are still
      looked for, from k on, in the text that it had at first; and whether it swallowed
      the next one. */
  function Scan(word: string, k: nat, cur: string, next: Option<string>): (string, bool)
    requires k <= |word|
    decreases |word| - k
  {
    if k == |word| then (cur, false)
    else if word[k] != ESCAPE then Scan(word, k + 1, cur, next)
    else if k + 1 == |word| then
      if next.Some? then (word[..k] + [SEPARATOR] + next.value, true) else (cur, false)
    else if word[k + 1] == ESCAPE then Scan(word, k + 2, word[..k + 1] + word[k + 2..], next)
    else Scan(word, k + 1, cur, next)
  }

  function Next(words: seq<string>): Option<string> {
    if |words| > 1 then Some(words[1]) else None
  }

  lemma MergesNext(word: string, k: nat, cur: string, next: Option<string>)
    requires k <= |word|
    ensures Scan(word, k, cur, next).1 ==> next.Some?
    decreases |word| - k
  {
    if k < |word| && word[k] != ESCAPE {
      MergesNext(word, k + 1, cur, next);
    } else if k + 1 < |word| {
      if word[k + 1] == ESCAPE {
        MergesNext(word, k + 2, word[..k + 1] + word[k + 2..], next);
      } else {
        MergesNext(word, k + 1, cur, next);
      }
    }
  }

  function Imported(words: seq<string>): seq<string> {
    if words == [] then []
    else
      var (word, merged) := Scan(words[0], 0, words[0], Next(words));
      MergesNext(words[0], 0, words[0], Next(words));
      [word] + Imported(if merged then words[2..] else words[1..])
  }

  function SeparatorsOfLists(): set<char> { SeparatorSet([SEPARATOR]) }

  /** strchr */
  method FindEscape(word: string, offset: nat) returns (escape: int)
    requires offset <= |word|
    ensures escape == -1 || (offset <= escape < |word| && word[escape] == ESCAPE)
    ensures forall i | offset <= i < (if escape == -1 then |word| else escape) :: word[i] != ESCAPE
    ensures forall cur, next :: Scan(word, offset, cur, next)
              == if escape == -1 then (cur, false) else Scan(word, escape, cur, next)
  {
    escape := offset;
    while escape < |word|
      invariant offset <= escape <= |word| && forall i | offset <= i < escape :: word[i] != ESCAPE
      invariant forall cur, next :: Scan(word, offset, cur, next) == Scan(word, escape, cur, next)
    {
      if word[escape] == ESCAPE {
        return;
      }
      escape := escape + 1;
    }
    escape := -1;
  }

  /** The inner loop of importvar, for one word of the list. */
  method DecodeWord(word: string, next: Option<string>) returns (str: string, merged: bool)
    ensures (str, merged) == Scan(word, 0, word, next)
  {
    str, merged := word, false;
    var offset := 0;
    while true
      invariant offset <= |word| && Scan(word, offset, str, next) == Scan(word, 0, word, next)
      decreases |word| - offset
    {
      var escape := FindEscape(word, offset);
      if escape == -1 {
        return;
      }
      offset := escape + 1;
      if offset == |word| {
        if next.Some? {
          return word[..offset - 1] + [SEPARATOR] + next.value, true;
        }
      } else if word[offset] == ESCAPE {
        str := word[..offset] + word[escape + 2..];
        offset := offset + 1;
      }
    }
  }

  /** The first words are done, the others still as they were. */
  ghost predicate Decoded(words: seq<string>, i: nat, goal: seq<string>) {
    i <= |words| && words[..i] + Imported(words[i..]) == goal
  }

  lemma Replaced(words: seq<string>, i: nat, goal: seq<string>)
    requires i < |words| && Decoded(words, i, goal)
    ensures var next := if i + 1 < |words| then Some(words[i + 1]) else None;
            var (str, merged) := Scan(words[i], 0, words[i], next);
            && (merged ==> i + 1 < |words|)
            && Decoded(if merged then words[..i] + [str] + words[i + 2..] else words[..i] + [str] + words[i + 1..], i + 1, goal)
  {
    hide Scan, Imported;
    var rest := words[i..];
    ImportedStep(rest);
    var (str, merged) := Scan(words[i], 0, words[i], Next(rest));
    var left := if merged then rest[2..] else rest[1..];
    assert left == if merged then words[i + 2..] else words[i + 1..];
    var shorter := words[..i] + [str] + left;
    assert shorter[..i + 1] == words[..i] + [str] && shorter[i + 1..] == left;
    assert words[..i] + ([str] + Imported(left)) == (words[..i] + [str]) + Imported(left);
  }

  /** The loop of importvar over the list, which changes words and drops merged ones. */
  method DecodeWords(words: seq<string>) returns (defn: seq<string>)
    ensures defn == Imported(words)
  {
    hide Scan, Imported, Decoded;
    defn := words;
    var list := 0;
    DecodedEnds(words);
    while list < |defn|
      invariant list <= |defn| && Decoded(defn, list, Imported(words))
      decreases |defn| - list
    {
      Replaced(defn, list, Imported(words));
      var next := if list + 1 < |defn| then Some(defn[list + 1]) else None;
      var str, merged := DecodeWord(defn[list], next);
      defn := defn[..list] + [str] + (if merged then defn[list + 2..] else defn[list + 1..]);
      list := list + 1;
    }
    DecodedEnds(defn);
  }

  lemma DecodedEnds(words: seq<string>)
    ensures Decoded(words, 0, Imported(words))
    ensures forall goal | Decoded(words, |words|, goal) :: words == goal
  {
    assert words[..0] == [] && words[0..] == words && words[..|words|] == words && words[|words|..] == [];
    assert [] + Imported(words) == Imported(words) && words + [] == words;
  }

  /** importvar, up to the definition of the variable; the value begins with `=`. */
  method ImportVar(splitter: Splitter, value: string) returns (defn: seq<string>)
    requires splitter.CacheValid() && value != "" && value[0] == '='
    modifies splitter
    ensures splitter.CacheValid()
    ensures defn == Imported(Fields(value[1..], SeparatorsOfLists()))
  {
    hide Scan, Fields, Imported, AllWords, SeparatorsOfLists;
    var words := splitter.FSplit([SEPARATOR], [value[1..]], false);
    OneString(value[1..]);
    var escape := FindEscape(value, 0);
    if escape == -1 {
      NothingEscaped(value);
      return words;
    }
    defn := DecodeWords(words);
  }

  lemma ImportedStep(words: seq<string>)
    requires words != []
    ensures var (word, merged) := Scan(words[0], 0, words[0], Next(words));
            && (merged ==> |words| > 1)
            && Imported(words) == [word] + Imported(if merged then words[2..] else words[1..])
  {
    MergesNext(words[0], 0, words[0], Next(words));
  }

  lemma NoneImported()
    ensures Imported([]) == []
  {
  }

  lemma OneString(s: string)
    ensures AllWords([s], [SEPARATOR], false) == Fields(s, SeparatorsOfLists())
  {
    assert [s][..0] == [];
    assert AllWords([s], [SEPARATOR], false) == [] + Words(s, [SEPARATOR], false);
  }

  // ----- text without escapes

  /** Characters that are no escapes are passed over. */
  lemma {:induction false} ScanSkips(word: string, k: nat, j: nat, cur: string, next: Option<string>)
    requires k <= j <= |word| && forall i | k <= i < j :: word[i] != ESCAPE
    ensures Scan(word, k, cur, next) == Scan(word, j, cur, next)
    decreases j - k
  {
    if k < j {
      ScanSkips(word, k + 1, j, cur, next);
    }
  }

  lemma {:induction false} FieldsLack(s: string, c: char, seps: set<char>)
    requires Lacks(s, c)
    ensures forall i | 0 <= i < |Closed(s, seps)| :: Lacks(Closed(s, seps)[i], c)
    ensures Lacks(Tail(s, seps), c)
  {
    if s != "" {
      FieldsLack(s[..|s| - 1], c, seps);
    }
  }

  lemma {:induction false} ImportedUnchanged(words: seq<string>)
    requires forall i | 0 <= i < |words| :: Lacks(words[i], ESCAPE)
    ensures Imported(words) == words
  {
    if words != [] {
      ImportedStep(words);
      ScanSkips(words[0], 0, |words[0]|, words[0], Next(words));
      ImportedUnchanged(words[1..]);
    }
  }

  lemma NothingEscaped(value: string)
    requires value != "" && Lacks(value, ESCAPE)
    ensures Imported(Fields(value[1..], SeparatorsOfLists())) == Fields(value[1..], SeparatorsOfLists())
  {
    FieldsLack(value[1..], ESCAPE, SeparatorsOfLists());
    ImportedUnchanged(Fields(value[1..], SeparatorsOfLists()));
  }

  // ----- the fields of an exported list

  lemma SeparatesOnly(c: char)
    ensures c in SeparatorsOfLists() <==> c == SEPARATOR || c == '\0'
  {
  }

  lemma {:induction false} OneField(s: string, seps: set<char>)
    requires forall i | 0 <= i < |s| :: s[i] !in seps
    ensures Fields(s, seps) == [s]
    ensures Closed(s, seps) == [] && Tail(s, seps) == s
  {
    if s != "" {
      OneField(s[..|s| - 1], seps);
      assert s == s[..|s| - 1] + [s[|s| - 1]];
    }
    assert [] + [s] == [s];
  }

  lemma {:induction false} FieldsAppend(a: string, c: char, b: string, seps: set<char>)
    requires c in seps
    ensures Closed(a + [c] + b, seps) == Fields(a, seps) + Closed(b, seps)
    ensures Tail(a + [c] + b, seps) == Tail(b, seps)
    ensures Fields(a + [c] + b, seps) == Fields(a, seps) + Fields(b, seps)
  {
    hide Closed, Tail;
    Nothing(seps, false);
    if b == "" {
      SeeSeparator(a, c, seps);
      assert a + [c] + b == a + [c];
    } else {
      var n := |b| - 1;
      var whole := a + [c] + b[..n];
      FieldsAppend(a, c, b[..n], seps);
      assert a + [c] + b == whole + [b[n]] && b == b[..n] + [b[n]];
      if b[n] in seps {
        SeeSeparator(whole, b[n], seps);
        SeeSeparator(b[..n], b[n], seps);
      } else {
        SeeOther(whole, b[n], seps);
        SeeOther(b[..n], b[n], seps);
      }
    }
  }

  lemma {:induction false} EscapedAppend(a: string, b: string)
    ensures Escaped(a + b) == Escaped(a) + Escaped(b)
    ensures Specials(a + b) == Specials(a) + Specials(b)
  {
    if a == "" {
      assert a + b == b;
    } else {
      assert (a + b)[1..] == a[1..] + b;
      EscapedAppend(a[1..], b);
    }
  }

  lemma {:induction false} EscapedLength(word: string)
    ensures |Escaped(word)| == |word| + Specials(word)
  {
    if word != "" {
      EscapedLength(word[1..]);
    }
  }

  lemma {:induction false} EscapedSeparates(word: string)
    requires NulFree(word) && Lacks(word, SEPARATOR)
    ensures NulFree(Escaped(word)) && Lacks(Escaped(word), SEPARATOR)
  {
    if word != "" {
      EscapedSeparates(word[1..]);
    }
  }

  lemma {:induction false} NoSpecials(word: string)
    requires Specials(word) == 0
    ensures Escaped(word) == word && Lacks(word, SEPARATOR) && Lacks(word, ESCAPE)
  {
    if word != "" {
      NoSpecials(word[1..]);
      forall i | 0 <= i < |word|
        ensures word[i] != SEPARATOR && word[i] != ESCAPE
      {
        if i > 0 {
          assert word[1..][i - 1] == word[i];
        }
      }
    }
  }

  /** A word without separators stays one field; at its first separator it breaks. */
  lemma FieldsOfEscaped(word: string)
    requires NulFree(word) && Lacks(word, SEPARATOR)
    ensures Fields(Escaped(word), SeparatorsOfLists()) == [Escaped(word)]
    ensures Fields(Escaped(word) + [ESCAPE], SeparatorsOfLists()) == [Escaped(word) + [ESCAPE]]
  {
    EscapedSeparates(word);
    forall c
      ensures c in SeparatorsOfLists() <==> c == SEPARATOR || c == '\0'
    {
      SeparatesOnly(c);
    }
    OneField(Escaped(word), SeparatorsOfLists());
    OneField(Escaped(word) + [ESCAPE], SeparatorsOfLists());
  }

  lemma EscapedFirst(c: char, rest: string)
    requires IsSpecial(c)
    ensures Escaped([c] + rest) == [ESCAPE, c] + Escaped(rest)
    ensures Specials([c] + rest) == 1 + Specials(rest)
  {
    assert ([c] + rest)[1..] == rest;
  }

  lemma EscapedSpecial(word: string, q: nat)
    requires q < |word| && IsSpecial(word[q])
    ensures Escaped(word) == Escaped(word[..q]) + [ESCAPE, word[q]] + Escaped(word[q + 1..])
    ensures Specials(word) == Specials(word[..q]) + 1 + Specials(word[q + 1..])
  {
    hide Escaped, Specials;
    var p, rest := word[..q], word[q + 1..];
    assert word == p + ([word[q]] + rest);
    EscapedAppend(p, [word[q]] + rest);
    EscapedFirst(word[q], rest);
  }

  lemma BreaksAtSeparator(word: string, q: nat)
    requires NulFree(word) && q < |word| && word[q] == SEPARATOR && Lacks(word[..q], SEPARATOR)
    ensures Fields(Escaped(word), SeparatorsOfLists())
         == [Escaped(word[..q]) + [ESCAPE]] + Fields(Escaped(word[q + 1..]), SeparatorsOfLists())
  {
    hide Escaped, Fields, Specials, SeparatorsOfLists;
    var p, r := Escaped(word[..q]), Escaped(word[q + 1..]);
    EscapedSpecial(word, q);
    assert Escaped(word) == p + [ESCAPE] + [SEPARATOR] + r;
    SeparatesOnly(SEPARATOR);
    FieldsAppend(p + [ESCAPE], SEPARATOR, r, SeparatorsOfLists());
    FieldsOfEscaped(word[..q]);
  }

  predicate AllNulFree(list: seq<string>) { forall i | 0 <= i < |list| :: NulFree(list[i]) }

  lemma FieldsOfExported(list: seq<string>)
    requires list != [] && AllNulFree(list)
    ensures Fields(Exported(list), SeparatorsOfLists())
         == Fields(Escaped(list[0]), SeparatorsOfLists())
            + (if |list| == 1 then [] else Fields(Exported(list[1..]), SeparatorsOfLists()))
  {
    var seps := SeparatorsOfLists();
    if |list| == 1 {
      assert Fields(Escaped(list[0]), seps) + [] == Fields(Escaped(list[0]), seps);
    } else {
      SeparatesOnly(SEPARATOR);
      FieldsAppend(Escaped(list[0]), SEPARATOR, Exported(list[1..]), seps);
    }
  }

  // ----- words that come back

  lemma {:induction false} FirstSpecial(word: string) returns (i: nat)
    requires Specials(word) > 0
    ensures i < |word| && IsSpecial(word[i]) && Specials(word[..i]) == 0
    ensures Specials(word[i + 1..]) == Specials(word) - 1
  {
    if IsSpecial(word[0]) {
      i := 0;
    } else {
      var j := FirstSpecial(word[1..]);
      i := j + 1;
      assert word[..i][1..] == word[1..][..j];
      assert word[i + 1..] == word[1..][j + 1..];
    }
  }

  /** One word with at most one special character comes back as it was. */
  lemma GoodWord(word: string, rest: seq<string>)
    requires NulFree(word) && Specials(word) <= 1
    ensures Imported(Fields(Escaped(word), SeparatorsOfLists()) + rest) == [word] + Imported(rest)
  {
    var nodes := Fields(Escaped(word), SeparatorsOfLists()) + rest;
    if Specials(word) == 0 {
      NoSpecials(word);
      FieldsOfEscaped(word);
      ImportedStep(nodes);
      ScanSkips(word, 0, |word|, word, Next(nodes));
      assert nodes[1..] == rest;
    } else {
      var i := FirstSpecial(word);
      var a, b := word[..i], word[i + 1..];
      NoSpecials(a);
      NoSpecials(b);
      if word[i] == SEPARATOR {
        GoodSeparator(word, i, rest);
      } else {
        GoodEscape(word, i, rest);
      }
    }
  }

  lemma ScanMerge(a: string, next: string)
    requires Lacks(a, ESCAPE)
    ensures Scan(a + [ESCAPE], 0, a + [ESCAPE], Some(next)) == (a + [SEPARATOR] + next, true)
  {
    var word := a + [ESCAPE];
    ScanSkips(word, 0, |a|, word, Some(next));
    assert word[..|a|] == a;
  }

  lemma ScanPair(a: string, b: string, next: Option<string>)
    requires Lacks(a, ESCAPE) && Lacks(b, ESCAPE)
    ensures var word := a + [ESCAPE, ESCAPE] + b;
            Scan(word, 0, word, next) == (a + [ESCAPE] + b, false)
  {
    var word := a + [ESCAPE, ESCAPE] + b;
    ScanSkips(word, 0, |a|, word, next);
    assert word[..|a| + 1] + word[|a| + 2..] == a + [ESCAPE] + b;
    ScanSkips(word, |a| + 2, |word|, a + [ESCAPE] + b, next);
  }

  lemma GoodSeparator(word: string, i: nat, rest: seq<string>)
    requires NulFree(word) && i < |word| && word[i] == SEPARATOR
    requires Specials(word[..i]) == 0 && Specials(word[i + 1..]) == 0
    ensures Imported(Fields(Escaped(word), SeparatorsOfLists()) + rest) == [word] + Imported(rest)
  {
    hide Fields, Escaped, SeparatorsOfLists, Scan, Imported;
    var nodes := Fields(Escaped(word), SeparatorsOfLists()) + rest;
    var a, b := word[..i], word[i + 1..];
    NoSpecials(a);
    NoSpecials(b);
    BreaksAtSeparator(word, i);
    FieldsOfEscaped(b);
    assert nodes == [a + [ESCAPE], b] + rest;
    ImportedStep(nodes);
    ScanMerge(a, b);
    assert a + [SEPARATOR] + b == word && nodes[2..] == rest;
  }

  lemma GoodEscape(word: string, i: nat, rest: seq<string>)
    requires NulFree(word) && i < |word| && word[i] == ESCAPE
    requires Specials(word[..i]) == 0 && Specials(word[i + 1..]) == 0
    ensures Imported(Fields(Escaped(word), SeparatorsOfLists()) + rest) == [word] + Imported(rest)
  {
    hide Fields, Escaped, SeparatorsOfLists, Scan, Imported;
    var nodes := Fields(Escaped(word), SeparatorsOfLists()) + rest;
    var a, b := word[..i], word[i + 1..];
    NoSpecials(a);
    NoSpecials(b);
    assert word == a + [ESCAPE] + b;
    FieldsOfEscaped(word);
    EscapedSpecial(word, i);
    assert nodes == [a + [ESCAPE, ESCAPE] + b] + rest && nodes[1..] == rest;
    ImportedStep(nodes);
    ScanPair(a, b, Next(nodes));
  }

  // ----- words that do not come back

  /** Escapes that come in pairs: at most one of each word's is ever taken away. */
  lemma {:induction false} ScanEscaped(word: string, k: nat, cur: string, x: string, next: Option<string>)
    requires k <= |word| && word[k..] == Escaped(x) && Lacks(x, SEPARATOR)
    requires |cur| == |word| - 1 || (Specials(x) > 0 && cur == word)
    ensures |Scan(word, k, cur, next).0| == |word| - 1 && !Scan(word, k, cur, next).1
    decreases |x|
  {
    if x != "" {
      assert word[k] == word[k..][0];
      if x[0] == ESCAPE {
        assert word[k + 1] == word[k..][1] && word[k..][2..] == Escaped(x[1..]);
        ScanEscaped(word, k + 2, word[..k + 1] + word[k + 2..], x[1..], next);
      } else {
        assert word[k..][1..] == Escaped(x[1..]);
        ScanEscaped(word, k + 1, cur, x[1..], next);
      }
    }
  }

  /** An escape without a partner, at the end, undoes all that was done before. */
  lemma {:induction false} ScanToMerge(word: string, k: nat, cur: string, x: string, next: string)
    requires k <= |word| && word[k..] == Escaped(x) + [ESCAPE] && Lacks(x, SEPARATOR)
    ensures Scan(word, k, cur, Some(next)) == (word[..|word| - 1] + [SEPARATOR] + next, true)
    decreases |x|
  {
    assert word[k] == word[k..][0];
    if x != "" {
      if x[0] == ESCAPE {
        assert word[k + 1] == word[k..][1] && word[k..][2..] == Escaped(x[1..]) + [ESCAPE];
        ScanToMerge(word, k + 2, word[..k + 1] + word[k + 2..], x[1..], next);
      } else {
        assert word[k..][1..] == Escaped(x[1..]) + [ESCAPE];
        ScanToMerge(word, k + 1, cur, x[1..], next);
      }
    }
  }

  lemma {:induction false} FirstSeparator(word: string) returns (q: nat)
    ensures q <= |word| && Lacks(word[..q], SEPARATOR) && (q < |word| ==> word[q] == SEPARATOR)
  {
    if word == "" || word[0] == SEPARATOR {
      q := 0;
    } else {
      var j := FirstSeparator(word[1..]);
      q := j + 1;
      assert forall i | 1 <= i < q :: word[i] == word[1..][..j][i - 1];
    }
  }

  /** The first field of an escaped word: it ends at the word's first separator. */
  lemma FirstField(word: string, q: nat)
    requires NulFree(word) && q <= |word| && Lacks(word[..q], SEPARATOR) && (q < |word| ==> word[q] == SEPARATOR)
    ensures var first := if q == |word| then Escaped(word) else Escaped(word[..q]) + [ESCAPE];
            && Fields(Escaped(word), SeparatorsOfLists()) ==
                 [first] + (if q == |word| then [] else Fields(Escaped(word[q + 1..]), SeparatorsOfLists()))
            && Lacks(first, SEPARATOR) && |first| >= q
  {
    hide Escaped, Fields, Specials, SeparatorsOfLists;
    EscapedSeparates(word[..q]);
    EscapedLength(word[..q]);
    if q == |word| {
      assert word[..q] == word;
      FieldsOfEscaped(word);
    } else {
      BreaksAtSeparator(word, q);
    }
  }

  /** A word without separators but with several escapes keeps all but one of them twice. */
  lemma BadEscapes(word: string, rest: seq<string>)
    requires NulFree(word) && Lacks(word, SEPARATOR) && Specials(word) >= 2
    ensures Imported(Fields(Escaped(word), SeparatorsOfLists()) + rest)[0] != word
  {
    hide Escaped, Fields, Specials, SeparatorsOfLists, Scan, Imported;
    var nodes := Fields(Escaped(word), SeparatorsOfLists()) + rest;
    FieldsOfEscaped(word);
    ImportedStep(nodes);
    EscapedLength(word);
    assert Escaped(word)[0..] == Escaped(word);
    ScanEscaped(Escaped(word), 0, Escaped(word), word, Next(nodes));
  }

  /** A word with a separator and more is taken together wrongly. */
  lemma BadSeparator(word: string, q: nat, rest: seq<string>)
    requires NulFree(word) && q < |word| && word[q] == SEPARATOR && Lacks(word[..q], SEPARATOR)
    requires Specials(word) >= 2
    ensures var r := Imported(Fields(Escaped(word), SeparatorsOfLists()) + rest);
            r != [] && r[0] != word
  {
    hide Escaped, Fields, Specials, SeparatorsOfLists, Scan, Imported;
    var nodes := Fields(Escaped(word), SeparatorsOfLists()) + rest;
    var p, r := word[..q], word[q + 1..];
    var q1 := FirstSeparator(r);
    FirstField(word, q);
    FirstField(r, q1);
    var next := nodes[1];
    ImportedStep(nodes);
    assert nodes[0][0..] == nodes[0];
    ScanToMerge(nodes[0], 0, nodes[0], p, next);
    var got := Escaped(p) + [SEPARATOR] + next;
    assert nodes[0][..|nodes[0]| - 1] == Escaped(p);
    assert Imported(nodes)[0] == got;
    EscapedLength(p);
    EscapedSpecial(word, q);
    EscapedSeparates(p);
    EscapedLength(r);
    assert q1 < |r| ==> r[q1] == word[q + 1 + q1];
    OneSeparatorOnly(word, q, q1, Escaped(p), next);
  }

  lemma OneSeparatorOnly(word: string, q: nat, q1: nat, a: string, b: string)
    requires q < |word| && word[q] == SEPARATOR && Lacks(a, SEPARATOR) && Lacks(b, SEPARATOR) && |a| >= q
    requires |a| + 1 + |b| > |word| || (q + 1 + q1 < |word| && word[q + 1 + q1] == SEPARATOR)
    ensures a + [SEPARATOR] + b != word
  {
    var got := a + [SEPARATOR] + b;
    if q < |a| {
      assert got[q] != word[q];
    } else if |got| == |word| {
      assert got[q + 1 + q1] == b[q1];
    }
  }

  lemma BadWord(word: string, rest: seq<string>)
    requires NulFree(word) && Specials(word) >= 2
    ensures var r := Imported(Fields(Escaped(word), SeparatorsOfLists()) + rest);
            r != [] && r[0] != word
  {
    hide Escaped, Fields, Specials, SeparatorsOfLists, Scan, Imported;
    var q := FirstSeparator(word);
    if q == |word| {
      assert word[..q] == word;
      FieldsOfEscaped(word);
      ImportedStep(Fields(Escaped(word), SeparatorsOfLists()) + rest);
      BadEscapes(word, rest);
    } else {
      BadSeparator(word, q, rest);
    }
  }

  // ----- the round trip

  /** A non-empty list comes back from the environment exactly when none of its words
      holds two characters that are escaped. */
  lemma {:induction false} RoundTripExactly(list: seq<string>)
    requires list != [] && AllNulFree(list)
    ensures Imported(Fields(Exported(list), SeparatorsOfLists())) == list
        <==> forall i | 0 <= i < |list| :: Specials(list[i]) <= 1
  {
    hide Escaped, Fields, Specials, SeparatorsOfLists, Imported, Exported;
    FieldsOfExported(list);
    var rest := if |list| == 1 then [] else Fields(Exported(list[1..]), SeparatorsOfLists());
    NoneImported();
    if Specials(list[0]) <= 1 {
      GoodWord(list[0], rest);
      assert list == [list[0]] + list[1..];
      if |list| > 1 {
        RoundTripExactly(list[1..]);
        if forall i | 0 <= i < |list[1..]| :: Specials(list[1..][i]) <= 1 {
          forall i | 0 <= i < |list|
            ensures Specials(list[i]) <= 1
          {
            assert i > 0 ==> list[i] == list[1..][i - 1];
          }
        }
        assert Imported(Fields(Exported(list), SeparatorsOfLists()))[1..] == Imported(rest);
      }
    } else {
      BadWord(list[0], rest);
    }
  }
}
