/** src/split.c: splitting text at separator characters.  The text may come in chunks; the
    state kept between the calls is proved to stand for the text seen so far. */
module Splitting {
  import opened Lists
  import opened Options

  // ----- what splitting means

  /** The text after the last separator. */
  function Tail(s: string, seps: set<char>): string {
    if s == "" then ""
    else if s[|s| - 1] in seps then ""
    else Tail(s[..|s| - 1], seps) + [s[|s| - 1]]
  }

  /** The fields that a separator closes. */
  function Closed(s: string, seps: set<char>): seq<string> {
    if s == "" then []
    else if s[|s| - 1] in seps then Closed(s[..|s| - 1], seps) + [Tail(s[..|s| - 1], seps)]
    else Closed(s[..|s| - 1], seps)
  }

  /** The fields of a text: one more than it has separators. */
  function Fields(s: string, seps: set<char>): seq<string> {
    Closed(s, seps) + [Tail(s, seps)]
  }

  /** The separators of a text, in order. */
  function Separators(s: string, seps: set<char>): string {
    if s == "" then ""
    else Separators(s[..|s| - 1], seps) + (if s[|s| - 1] in seps then [s[|s| - 1]] else "")
  }

  /** Closed fields, each followed by its separator. */
  function Weave(fields: seq<string>, separators: string): string
    requires |fields| == |separators|
  {
    if fields == [] then ""
    else
      var n := |fields| - 1;
      Weave(fields[..n], separators[..n]) + fields[n] + [separators[n]]
  }

  /** Nothing is lost, and no field holds a separator. */
  lemma {:induction false} FieldsRebuild(s: string, seps: set<char>)
    ensures |Closed(s, seps)| == |Separators(s, seps)|
    ensures s == Weave(Closed(s, seps), Separators(s, seps)) + Tail(s, seps)
    ensures forall i, c | 0 <= i < |Fields(s, seps)| && c in Fields(s, seps)[i] :: c !in seps
  {
    if s != "" {
      var n := |s| - 1;
      FieldsRebuild(s[..n], seps);
      var closed, separators := Closed(s[..n], seps), Separators(s[..n], seps);
      assert s == s[..n] + [s[n]];
      if s[n] in seps {
        assert Closed(s, seps)[..|closed|] == closed && Separators(s, seps)[..|closed|] == separators;
        assert Closed(s, seps) == Fields(s[..n], seps);
      } else {
        assert Separators(s, seps) == separators;
        assert Closed(s, seps) == closed;
        assert Tail(s[..n], seps) == Fields(s[..n], seps)[|closed|];
        forall i, c | 0 <= i < |Fields(s, seps)| && c in Fields(s, seps)[i]
          ensures c !in seps
        {
          if i < |closed| {
            assert Fields(s, seps)[i] == Fields(s[..n], seps)[i];
          }
        }
      }
    }
  }

  function NonEmpty(fields: seq<string>): seq<string> {
    if fields == [] then []
    else NonEmpty(fields[..|fields| - 1]) + (if fields[|fields| - 1] == "" then [] else [fields[|fields| - 1]])
  }

  /** What is kept of the fields. */
  function Kept(fields: seq<string>, coalesce: bool): seq<string> {
    if coalesce then NonEmpty(fields) else fields
  }

  function Chars(s: string): (r: seq<string>)
    ensures |r| == |s| && forall i | 0 <= i < |s| :: r[i] == [s[i]]
  {
    seq(|s|, i requires 0 <= i < |s| => [s[i]])
  }

  /** The words that one string is split into. */
  function Words(s: string, sep: string, coalesce: bool): seq<string> {
    if !coalesce && sep == "" then Chars(s) else Kept(Fields(s, SeparatorSet(sep)), coalesce)
  }

  function AllWords(list: seq<string>, sep: string, coalesce: bool): seq<string> {
    if list == [] then []
    else AllWords(list[..|list| - 1], sep, coalesce) + Words(list[|list| - 1], sep, coalesce)
  }

  /** Words come in the order of the strings. */
  lemma {:induction false} WordsInOrder(a: seq<string>, b: seq<string>, sep: string, coalesce: bool)
    ensures AllWords(a + b, sep, coalesce) == AllWords(a, sep, coalesce) + AllWords(b, sep, coalesce)
  {
    hide Words;
    if b == [] {
      assert a + b == a;
      assert AllWords(b, sep, coalesce) == [];
    } else {
      var n := |b| - 1;
      WordsInOrder(a, b[..n], sep, coalesce);
      assert (a + b)[..|a| + n] == a + b[..n];
    }
  }

  /** Those of one string are its fields in order; the empty ones go when they coalesce. */
  lemma {:induction false} KeptInOrder(a: seq<string>, b: seq<string>, coalesce: bool)
    ensures Kept(a + b, coalesce) == Kept(a, coalesce) + Kept(b, coalesce)
  {
    if b == [] {
      assert a + b == a;
      assert Kept(b, coalesce) == [];
    } else {
      var n := |b| - 1;
      KeptInOrder(a, b[..n], coalesce);
      assert (a + b)[..|a| + n] == a + b[..n];
    }
  }

  lemma OneWordEach(s: string, sep: string, coalesce: bool)
    ensures AllWords([s], sep, coalesce) == Words(s, sep, coalesce)
    ensures Kept([s], coalesce) == if coalesce && s == "" then [] else [s]
  {
    assert [s][..0] == [] && NonEmpty([]) == [];
  }

  /** The separators of startsplit; the terminator is always one. */
  function SeparatorSet(sep: string): set<char> {
    (set c | c in sep) + {'\0'}
  }

  /** The longest separator string, with its terminator, that the cache keeps. */
  const IFS_SIZE := 10

  // ----- steps

  lemma SeeSeparator(s: string, c: char, seps: set<char>)
    requires c in seps
    ensures Closed(s + [c], seps) == Fields(s, seps) && Tail(s + [c], seps) == ""
  {
    assert (s + [c])[..|s|] == s;
  }

  lemma SeeOther(s: string, c: char, seps: set<char>)
    requires c !in seps
    ensures Closed(s + [c], seps) == Closed(s, seps) && Tail(s + [c], seps) == Tail(s, seps) + [c]
  {
    assert (s + [c])[..|s|] == s;
  }

  lemma KeepOne(fields: seq<string>, last: string, coalesce: bool)
    ensures Kept(fields + [last], coalesce) == Kept(fields, coalesce) + (if coalesce && last == "" then [] else [last])
  {
    assert (fields + [last])[..|fields|] == fields;
  }

  lemma Prepended(list: seq<string>, word: string)
    ensures [word] + Backwards(list) == Backwards(list + [word])
  {
    BackwardsLast(list, word);
  }

  /** The table of startsplit. */
  method Table(sep: string) returns (isifs: set<char>)
    ensures isifs == SeparatorSet(sep)
  {
    isifs := {'\0'};
    var i := 0;
    while i < |sep|
      invariant i <= |sep| && isifs == (set c | c in sep[..i]) + {'\0'}
    {
      isifs := isifs + {sep[i]};
      assert sep[..i + 1] == sep[..i] + [sep[i]];
      i := i + 1;
    }
    assert sep[..i] == sep;
  }

  // ----- the state of split.c

  class Splitter {
    var coalesce: bool
    var splitchars: bool
    var buffer: Option<string>
    var value: seq<string>
    var ifsvalid: bool
    var ifs: string
    var isifs: set<char>
    /** The words finished before the one that `seen` belongs to. */
    ghost var front: seq<string>
    /** The text seen since the last end of a word. */
    ghost var seen: string

    /** The cached separator string describes the table. */
    ghost predicate CacheValid()
      reads this
    {
      ifsvalid ==> isifs == SeparatorSet(ifs)
    }

    ghost predicate Valid()
      reads this
    {
      && CacheValid()
      && (splitchars ==> !coalesce && buffer == None && seen == "")
      && value == Backwards(front + Kept(Closed(seen, isifs), coalesce))
      && (buffer == None ==> Tail(seen, isifs) == "" && (coalesce || seen == ""))
      && (buffer.Some? ==> buffer.value == Tail(seen, isifs) && (coalesce ==> buffer.value != ""))
    }

    constructor ()
      ensures Valid()
    {
      coalesce, splitchars, buffer, value := false, false, None, [];
      ifsvalid, ifs, isifs := false, "", {};
      front, seen := [], "";
    }

    /** startsplit: the table is rebuilt unless the cache says that it is for `sep`. */
    method StartSplit(sep: string, coalescef: bool)
      requires CacheValid()
      modifies this
      ensures Valid() && isifs == SeparatorSet(sep) && coalesce == coalescef
      ensures splitchars == (!coalescef && sep == "") && front == [] && seen == "" && buffer == None
    {
      hide Kept, Closed, Tail, SeparatorSet;
      value := [];
      buffer := None;
      coalesce := coalescef;
      splitchars := !coalesce && sep == "";
      front, seen := [], "";
      if !ifsvalid || sep != ifs {
        if |sep| + 1 < IFS_SIZE {
          ifs := sep;
          ifsvalid := true;
        } else {
          ifsvalid := false;
        }
        isifs := Table(sep);
      }
      Nothing(isifs, coalesce);
    }

    /** The loop of splitstring for one character. */
    method SplitChar(c: char)
      requires Valid() && !splitchars && (coalesce || buffer.Some?)
      modifies this`buffer, this`value, this`seen
      ensures Valid() && seen == old(seen) + [c] && (coalesce || buffer.Some?)
    {
      hide Kept, Closed, Tail, Backwards;
      ghost var kept := Kept(Closed(seen, isifs), coalesce);
      ghost var list := front + kept;
      KeepOne(Closed(seen, isifs), Tail(seen, isifs), coalesce);
      assert front + (kept + [Tail(seen, isifs)]) == list + [Tail(seen, isifs)] && kept + [] == kept;
      if c in isifs {
        SeeSeparator(seen, c, isifs);
      } else {
        SeeOther(seen, c, isifs);
      }
      if buffer.Some? {
        if c in isifs {
          Prepended(list, buffer.value);
          value := [buffer.value] + value;
          buffer := if coalesce then None else Some("");
        } else {
          buffer := Some(buffer.value + [c]);
        }
      } else if c !in isifs {
        buffer := Some([c]);
      }
      seen := seen + [c];
    }

    /** splitstring: the chunk continues the text seen so far, and may end a word. */
    method SplitString(text: string, endword: bool)
      requires Valid()
      modifies this`buffer, this`value, this`front, this`seen
      ensures Valid()
      ensures splitchars ==> front == old(front) + Chars(text)
      ensures !splitchars && endword ==>
                seen == "" && buffer == None && front == old(front) + Kept(Fields(old(seen) + text, isifs), coalesce)
      ensures !splitchars && !endword ==>
                seen == old(seen) + text && front == old(front) && (coalesce || buffer.Some?)
    {
      hide Kept, Closed, Tail, Backwards;
      Nothing(isifs, coalesce);
      if splitchars {
        SplitEach(text);
        return;
      }
      if !coalesce && buffer == None {
        buffer := Some("");
      }
      var s := 0;
      assert old(seen) + text[..0] == seen;
      while s < |text|
        invariant s <= |text| && Valid() && (coalesce || buffer.Some?) && front == old(front)
        invariant seen == old(seen) + text[..s]
      {
        SplitChar(text[s]);
        assert old(seen) + text[..s + 1] == old(seen) + text[..s] + [text[s]];
        s := s + 1;
      }
      assert text[..s] == text;
      if endword {
        if buffer.Some? {
          CloseWord();
        } else {
          NothingOpen(seen, isifs);
          front, seen := front + Kept(Fields(seen, isifs), coalesce), "";
          assert front + [] == front;
        }
      }
    }

    /** splitstring without separators: every character is a word. */
    method SplitEach(text: string)
      requires Valid() && splitchars
      modifies this`value, this`front
      ensures Valid() && front == old(front) + Chars(text)
    {
      hide Kept, Closed, Tail, Backwards;
      Nothing(isifs, coalesce);
      var s := 0;
      while s < |text|
        invariant s <= |text| && front == old(front) + Chars(text)[..s] && value == Backwards(front + [])
      {
        assert front + [] == front && front + [[text[s]]] == front + [[text[s]]] + [];
        Prepended(front, [text[s]]);
        value := [[text[s]]] + value;
        front := front + [[text[s]]];
        s := s + 1;
      }
      assert Chars(text)[..s] == Chars(text);
    }

    /** The end of a word that is open, in splitstring and endsplit. */
    method CloseWord()
      requires Valid() && buffer.Some?
      modifies this`buffer, this`value, this`front, this`seen
      ensures Valid() && buffer == None && seen == ""
      ensures front == old(front) + Kept(Fields(old(seen), isifs), coalesce)
    {
      hide Kept, Closed, Tail, Backwards;
      ghost var list := front + Kept(Closed(seen, isifs), coalesce);
      KeepOne(Closed(seen, isifs), Tail(seen, isifs), coalesce);
      Nothing(isifs, coalesce);
      assert front + (Kept(Closed(seen, isifs), coalesce) + [Tail(seen, isifs)]) == list + [Tail(seen, isifs)];
      Prepended(list, buffer.value);
      value := [buffer.value] + value;
      buffer := None;
      front := front + Kept(Fields(seen, isifs), coalesce);
      seen := "";
      assert front + [] == front;
    }

    /** endsplit: the finished words and what the open text adds. */
    method EndSplit() returns (result: seq<string>)
      requires Valid()
      modifies this`buffer, this`value, this`front, this`seen
      ensures CacheValid()
      ensures result == if splitchars || (!coalesce && old(buffer) == None) then old(front)
                        else old(front) + Kept(Fields(old(seen), isifs), coalesce)
    {
      hide Kept, Closed, Tail;
      Nothing(isifs, coalesce);
      if buffer.Some? {
        CloseWord();
      } else if coalesce {
        NothingOpen(seen, isifs);
        front, seen := front + Kept(Fields(seen, isifs), coalesce), "";
      }
      assert front + [] == front;
      BackwardsTwice(front);
      result := Backwards(value);
      value, front := [], [];
    }

    /** fsplit: every string of the list is split, and ends a word. */
    method FSplit(sep: string, list: seq<string>, coalescef: bool) returns (result: seq<string>)
      requires CacheValid()
      modifies this
      ensures CacheValid()
      ensures result == AllWords(list, sep, coalescef)
    {
      hide Kept, Closed, Tail, Backwards;
      StartSplit(sep, coalescef);
      Nothing(isifs, coalesce);
      var lp := 0;
      while lp < |list|
        invariant lp <= |list| && Valid() && isifs == SeparatorSet(sep) && coalesce == coalescef
        invariant splitchars == (!coalesce && sep == "") && seen == "" && buffer == None
        invariant front == AllWords(list[..lp], sep, coalescef)
      {
        assert list[..lp + 1][..lp] == list[..lp];
        assert seen + list[lp] == list[lp];
        SplitString(list[lp], true);
        lp := lp + 1;
      }
      assert list[..lp] == list;
      assert front + [] == front;
      result := EndSplit();
    }
  }

  lemma NothingOpen(s: string, seps: set<char>)
    requires Tail(s, seps) == ""
    ensures Kept(Fields(s, seps), true) == Kept(Closed(s, seps), true)
  {
    KeepOne(Closed(s, seps), "", true);
  }

  lemma Nothing(seps: set<char>, coalesce: bool)
    ensures Closed("", seps) == [] && Tail("", seps) == "" && Kept([], coalesce) == [] && Kept([""], true) == []
    ensures Fields("", seps) == [""]
  {
    assert [""][..0] == [];
  }
}
