/** src/conv.c: `%F`, which turns any name into one that other shells can import, and
    `%N`, which undoes it.  Characters are bytes, the alphabet is that of the C locale. */
module ExportedNames {
  /** What `%N` yields, or that it reads beyond the terminator of its argument. */
  datatype Decoded = Ok(name: string) | PastEnd

  /** A hexadecimal digit, in lower case. */
  predicate IsHex(c: char) { '0' <= c <= '9' || 'a' <= c <= 'f' }

  predicate IsAlpha(c: char) { 'a' <= c <= 'z' || 'A' <= c <= 'Z' }

  predicate IsAlnum(c: char) { IsAlpha(c) || '0' <= c <= '9' }

  /** A C string: bytes, none of them NUL. */
  predicate IsCString(s: string) {
    forall i | 0 <= i < |s| :: 0 < s[i] as int < 256
  }

  /** An identifier of C. */
  predicate IsIdentifier(s: string) {
    && s != "" && (IsAlpha(s[0]) || s[0] == '_')
    && forall i | 0 <= i < |s| :: IsAlnum(s[i]) || s[i] == '_'
  }

  // ----- %F

  /** Whether the character at k stands for itself. */
  predicate IsPlain(name: string, k: nat)
    requires k < |name|
  {
    || (if k == 0 then IsAlpha(name[k]) else IsAlnum(name[k]))
    || (name[k] == '_' && !(k + 1 < |name| && name[k + 1] == '_'))
  }

  function HexDigit(n: nat): (c: char)
    requires n < 16
    ensures IsHex(c) && HexValue(c) == n
  {
    if n < 10 then (48 + n) as char else (87 + n) as char
  }

  /** strchr in the string of hexadecimal digits. */
  function HexValue(c: char): (v: int)
    ensures -1 <= v < 16 && (v >= 0 <==> IsHex(c))
  {
    if '0' <= c <= '9' then c as int - 48
    else if 'a' <= c <= 'f' then c as int - 87
    else -1
  }

  /** `%02x` */
  function Hex2(c: char): (r: string)
    requires c as int < 256
    ensures |r| == 2 && IsHex(r[0]) && IsHex(r[1])
    ensures 16 * HexValue(r[0]) + HexValue(r[1]) == c as int
  {
    [HexDigit(c as int / 16), HexDigit(c as int % 16)]
  }

  function Piece(name: string, k: nat): string
    requires k < |name| && IsCString(name)
  {
    if IsPlain(name, k) then [name[k]] else "__" + Hex2(name[k])
  }

  function Encode(name: string, k: nat): string
    requires k <= |name| && IsCString(name)
    decreases |name| - k
  {
    if k == |name| then "" else Piece(name, k) + Encode(name, k + 1)
  }

  lemma EncodeStep(name: string, k: nat, out: string)
    requires k < |name| && IsCString(name)
    ensures out + Encode(name, k) == (out + Piece(name, k)) + Encode(name, k + 1)
  {
    hide Piece;
    assert out + (Piece(name, k) + Encode(name, k + 1)) == (out + Piece(name, k)) + Encode(name, k + 1);
  }

  /** Fconv */
  method Fconv(name: string) returns (out: string)
    requires IsCString(name)
    ensures out == Encode(name, 0)
  {
    hide Hex2, Encode, IsAlpha, IsAlnum;
    out := "";
    var s := 0;
    assert out + Encode(name, 0) == Encode(name, 0);
    while s < |name|
      invariant s <= |name| && out + Encode(name, s) == Encode(name, 0)
    {
      var c := name[s];
      EncodeStep(name, s, out);
      if (if s == 0 then IsAlpha(c) else IsAlnum(c)) || (c == '_' && (s + 1 == |name| || name[s + 1] != '_')) {
        out := out + [c];
      } else {
        out := out + ("__" + Hex2(c));
      }
      s := s + 1;
    }
    NothingMore(name);
    assert out + "" == out;
  }

  lemma NothingMore(name: string)
    requires IsCString(name)
    ensures Encode(name, |name|) == ""
  {
  }

  /** The name that `%F` yields for a non-empty name is a C identifier. */
  lemma {:induction false} EncodedIsIdentifier(name: string, k: nat)
    requires k < |name| && IsCString(name)
    ensures k == 0 ==> IsIdentifier(Encode(name, k))
    ensures forall i | 0 <= i < |Encode(name, k)| :: IsAlnum(Encode(name, k)[i]) || Encode(name, k)[i] == '_'
    decreases |name| - k
  {
    hide Hex2;
    if k + 1 < |name| {
      EncodedIsIdentifier(name, k + 1);
    }
  }

  lemma {:induction false} UnchangedFrom(name: string, k: nat)
    requires k <= |name| && IsCString(name)
    ensures |Encode(name, k)| >= |name| - k
    ensures Encode(name, k) == name[k..] <==> forall i | k <= i < |name| :: IsPlain(name, i)
    decreases |name| - k
  {
    if k < |name| {
      UnchangedFrom(name, k + 1);
      assert name[k..] == [name[k]] + name[k + 1..];
      if !IsPlain(name, k) {
        assert |Encode(name, k)| > |name| - k;
      } else {
        assert Encode(name, k)[1..] == Encode(name, k + 1);
      }
    }
  }

  /** `%F` leaves exactly the identifiers without two underscores in a row as they are. */
  lemma UnchangedExactly(name: string)
    requires IsCString(name)
    ensures Encode(name, 0) == name
      <==> (name == "" || IsIdentifier(name)) && forall i | 0 <= i < |name| - 1 :: name[i] == '_' ==> name[i + 1] != '_'
  {
    hide Encode;
    UnchangedFrom(name, 0);
    assert name[0..] == name;
    if (name == "" || IsIdentifier(name)) && forall i | 0 <= i < |name| - 1 :: name[i] == '_' ==> name[i + 1] != '_' {
      assert forall i | 0 <= i < |name| :: IsPlain(name, i);
    }
    if forall i | 0 <= i < |name| :: IsPlain(name, i) {
      assert name != "" ==> IsPlain(name, 0);
      assert forall i | 0 <= i < |name| :: IsPlain(name, i) ==> IsAlnum(name[i]) || name[i] == '_';
      assert forall i | 0 <= i < |name| - 1 :: IsPlain(name, i) && name[i] == '_' ==> name[i + 1] != '_';
    }
  }

  // ----- %N

  /** What `%N` makes of the beginning of a string: a character and how much it took. */
  datatype Lead = Lead(c: char, length: nat) | Beyond

  /** The text after two underscores is read two characters deep, whatever it is; strchr
      finds a terminator among the digits. */
  function First(t: string): (r: Lead)
    requires t != ""
    ensures r.Lead? ==> 1 <= r.length <= |t|
  {
    if t[0] == '_' && |t| > 1 && t[1] == '_' then
      if |t| == 2 then Beyond
      else if !IsHex(t[2]) then Lead('_', 1)
      else if |t| == 3 then Beyond
      else if !IsHex(t[3]) then Lead('_', 1)
      else Lead((16 * HexValue(t[2]) + HexValue(t[3])) as char, 4)
    else Lead(t[0], 1)
  }

  function Decode(t: string): Decoded {
    if t == "" then Ok("")
    else if First(t).Beyond? then PastEnd
    else Prepend(First(t).c, Decode(t[First(t).length..]))
  }

  function Prepend(c: char, d: Decoded): Decoded {
    match d case PastEnd => PastEnd case Ok(name) => Ok([c] + name)
  }

  function Glue(done: string, d: Decoded): Decoded {
    match d case PastEnd => PastEnd case Ok(name) => Ok(done + name)
  }

  lemma GluePrepend(done: string, c: char, d: Decoded)
    ensures Glue(done, Prepend(c, d)) == Glue(done + [c], d)
  {
    if d.Ok? {
      assert done + ([c] + d.name) == done + [c] + d.name;
    }
  }

  /** Nconv */
  method Nconv(t: string) returns (r: Decoded)
    ensures r == Decode(t)
  {
    hide HexValue, IsHex, Decode, Prepend;
    var out := "";
    var s := 0;
    NothingDecoded(t);
    while s < |t|
      invariant s <= |t| && Glue(out, Decode(t[s..])) == Decode(t)
    {
      ghost var rest := t[s..];
      DecodeStep(rest);
      var c := t[s];
      s := s + 1;
      if c == '_' && s < |t| && t[s] == '_' {
        if s + 1 == |t| {
          return PastEnd;
        }
        var h1 := HexValue(t[s + 1]);
        if s + 2 == |t| {
          if h1 >= 0 {
            return PastEnd;
          }
        } else {
          var h2 := HexValue(t[s + 2]);
          if h1 >= 0 && h2 >= 0 {
            c := (16 * h1 + h2) as char;
            s := s + 3;
          }
        }
      }
      assert First(rest).Lead? && First(rest).c == c && rest[First(rest).length..] == t[s..];
      GluePrepend(out, c, Decode(t[s..]));
      out := out + [c];
    }
    NothingDecoded("");
    assert t[s..] == "" && out + "" == out;
    r := Ok(out);
  }

  lemma DecodeStep(t: string)
    requires t != ""
    ensures Decode(t) == if First(t).Beyond? then PastEnd else Prepend(First(t).c, Decode(t[First(t).length..]))
  {
  }

  lemma NothingDecoded(t: string)
    ensures t[0..] == t && Glue("", Decode(t)) == Decode(t)
    ensures Decode("") == Ok("")
  {
    if Decode(t).Ok? {
      assert "" + Decode(t).name == Decode(t).name;
    }
  }

  /** Encoded text never begins with two underscores and a digit unless it is an escape. */
  lemma EncodedStart(name: string, k: nat)
    requires 0 < k <= |name| && IsCString(name) && !(k < |name| && name[k] == '_')
    ensures var t := Encode(name, k);
            t != "" && t[0] == '_' ==> |t| >= 4 && t[1] == '_'
  {
  }

  lemma EscapeReads(c: char, rest: string)
    requires c as int < 256
    ensures First("__" + Hex2(c) + rest) == Lead(c, 4)
  {
    hide Hex2, HexValue, IsHex;
    var t := "__" + Hex2(c) + rest;
    assert t[0] == '_' && t[1] == '_' && t[2] == Hex2(c)[0] && t[3] == Hex2(c)[1];
  }

  lemma PlainReads(c: char, rest: string)
    requires c == '_' && rest != "" && rest[0] == '_' ==> |rest| >= 2 && rest[1] == '_'
    ensures First([c] + rest) == Lead(c, 1)
  {
    hide HexValue;
    var t := [c] + rest;
    assert rest != "" ==> t[1] == rest[0];
    assert |rest| > 1 ==> t[2] == rest[1];
  }

  /** The beginning of encoded text is read as the piece that was written. */
  lemma FirstOfEncoded(name: string, k: nat)
    requires k < |name| && IsCString(name)
    ensures Encode(name, k) != "" && First(Encode(name, k)) == Lead(name[k], |Piece(name, k)|)
  {
    hide Hex2, HexValue, First, IsAlnum, IsAlpha;
    var rest := Encode(name, k + 1);
    if IsPlain(name, k) {
      if name[k] == '_' {
        NotAlnum();
        EncodedStart(name, k + 1);
      }
      PlainReads(name[k], rest);
    } else {
      EscapeReads(name[k], rest);
    }
  }

  lemma NotAlnum()
    ensures !IsAlnum('_') && !IsAlpha('_')
  {
  }

  lemma {:induction false} DecodeEncode(name: string, k: nat)
    requires k <= |name| && IsCString(name)
    ensures Decode(Encode(name, k)) == Ok(name[k..])
    decreases |name| - k
  {
    hide Piece, First, Decode;
    if k == |name| {
      NothingDecoded("");
    } else {
      FirstOfEncoded(name, k);
      DecodeStep(Encode(name, k));
      DecodeEncode(name, k + 1);
      assert Encode(name, k)[|Piece(name, k)|..] == Encode(name, k + 1);
      assert name[k..] == [name[k]] + name[k + 1..];
    }
  }

  /** `%N` undoes `%F`, and never leaves the string. */
  lemma NameRoundTrip(name: string)
    requires IsCString(name)
    ensures Decode(Encode(name, 0)) == Ok(name)
    ensures name != "" ==> IsIdentifier(Encode(name, 0))
  {
    DecodeEncode(name, 0);
    assert name[0..] == name;
    if name != "" {
      EncodedIsIdentifier(name, 0);
    }
  }

  /** Distinct names never collide in the environment. */
  lemma EncodeInjective(a: string, b: string)
    requires IsCString(a) && IsCString(b) && Encode(a, 0) == Encode(b, 0)
    ensures a == b
  {
    NameRoundTrip(a);
    NameRoundTrip(b);
  }
}
