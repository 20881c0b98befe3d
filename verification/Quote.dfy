/** src/conv.c and src/token.c: the `%#S` form of a string, and the lexer's reading of
    quoted strings, backslash escapes and carets.  Characters are bytes; printing and
    classes of characters are those of the C locale. */
module QuotedStrings {
  import opened Options

  predicate IsPrint(c: char) { 32 <= c as int < 127 }

  predicate IsAlnum(c: char) { 'a' <= c <= 'z' || 'A' <= c <= 'Z' || '0' <= c <= '9' }

  predicate IsOctal(c: char) { '0' <= c <= '7' }

  predicate IsCString(s: string) { forall i | 0 <= i < |s| :: 0 < s[i] as int < 256 }

  const ALARM := '\U{0007}'
  const BACKSPACE := '\U{0008}'
  const ESC := '\U{001B}'
  const FORMFEED := '\U{000C}'

  // ----- %S

  datatype QuoteState = Begin | Quoted | Unquoted

  /** `%o` */
  function Octal(n: nat): string {
    (if n < 8 then "" else Octal(n / 8)) + [(48 + n % 8) as char]
  }

  /** The escape sequence of a character that cannot be printed, after its backslash. */
  function EscapeTail(c: char): string {
    if c == ALARM then "a"
    else if c == BACKSPACE then "b"
    else if c == FORMFEED then "f"
    else if c == '\n' then "n"
    else if c == '\r' then "r"
    else if c == '\t' then "t"
    else if c == ESC then "e"
    else Octal(c as int)
  }

  function EscapeOf(c: char): string { "\\" + EscapeTail(c) }

  /** What is written before a character, to enter or leave the quotes. */
  function Opening(state: QuoteState, printable: bool): string {
    match state
    case Begin => if printable then "'" else ""
    case Quoted => if printable then "" else "'^"
    case Unquoted => if printable then "^'" else "^"
  }

  function Shown(c: char): string {
    if !IsPrint(c) then EscapeOf(c) else if c == '\'' then "''" else [c]
  }

  function Closing(state: QuoteState): string {
    match state case Begin => "''" case Quoted => "'" case Unquoted => ""
  }

  /** What Sconv writes for the characters from k on. */
  function Emit(s: string, k: nat, state: QuoteState): string
    requires k <= |s|
    decreases |s| - k
  {
    if k == |s| then Closing(state)
    else Opening(state, IsPrint(s[k])) + Shown(s[k]) + Emit(s, k + 1, if IsPrint(s[k]) then Quoted else Unquoted)
  }

  lemma EmitStep(s: string, k: nat, state: QuoteState, out: string)
    requires k < |s|
    ensures out + Emit(s, k, state) == ((out + Opening(state, IsPrint(s[k]))) + Shown(s[k]))
                                       + Emit(s, k + 1, if IsPrint(s[k]) then Quoted else Unquoted)
  {
    hide Shown, IsPrint, Opening;
  }

  /** The loop of Sconv: `%#S`. */
  method Sconv(s: string) returns (out: string)
    ensures out == Emit(s, 0, Begin)
  {
    hide EscapeOf, IsPrint, Emit;
    out := "";
    var state := Begin;
    var t := 0;
    assert "" + Emit(s, 0, Begin) == Emit(s, 0, Begin);
    while t < |s|
      invariant t <= |s| && out + Emit(s, t, state) == Emit(s, 0, Begin)
    {
      var c := s[t];
      EmitStep(s, t, state, out);
      ghost var before := out;
      if !IsPrint(c) {
        if state == Quoted {
          out := out + "'";
        }
        if state != Begin {
          out := out + "^";
        }
        assert out == before + Opening(state, false);
        out := out + EscapeOf(c);
        state := Unquoted;
      } else {
        if state == Unquoted {
          out := out + "^";
        }
        if state != Quoted {
          out := out + "'";
        }
        assert out == before + Opening(state, true);
        before := out;
        if c == '\'' {
          out := out + "'";
        }
        out := out + [c];
        assert out == before + Shown(c);
        state := Quoted;
      }
      t := t + 1;
    }
    EmitEnd(s, state);
    match state {
      case Begin => out := out + "''";
      case Quoted => out := out + "'";
      case Unquoted => assert out + "" == out;
    }
  }

  lemma EmitEnd(s: string, state: QuoteState)
    ensures Emit(s, |s|, state) == Closing(state)
  {
  }

  // ----- the lexer's reading

  datatype WordState = NonWord | RealWord | KeyWord

  datatype Token = Qword(s: string) | Caret | EndFile | Newline | Error | Foreign(c: char)

  /** A text that was read, and the input after it; or an error, what is left after the
      line was skipped, and the word state. */
  datatype Piece = Piece(text: string, rest: string) | Fail(rest: string, w: WordState)

  /** scanerror skips the rest of the line. */
  function AfterLine(t: string): (r: string)
    ensures |r| <= |t|
  {
    if t == "" then "" else if t[0] == '\n' then t[1..] else AfterLine(t[1..])
  }

  function Cons(c: char, p: Piece): Piece {
    match p case Piece(text, rest) => Piece([c] + text, rest) case Fail(_, _) => p
  }

  /** The rest of a quoted string: the quote is doubled, or follows a backslash, to stand
      for itself; a backslash before a newline joins lines; any other one is literal. */
  function ReadQuoted(t: string, quote: char): (p: Piece)
    ensures |p.rest| <= |t| && (p.Piece? ==> |p.rest| < |t|)
  {
    if t == "" then Fail("", NonWord)
    else if t[0] == quote then
      if |t| > 1 && t[1] == quote then Cons(quote, ReadQuoted(t[2..], quote)) else Piece("", t[1..])
    else if t[0] == '\\' then
      if |t| > 1 && t[1] == '\n' then ReadQuoted(t[2..], quote)
      else if |t| > 1 && t[1] == quote then Cons(quote, ReadQuoted(t[2..], quote))
      else Cons('\\', ReadQuoted(t[1..], quote))
    else if t[0] == '\0' then Fail(AfterLine(t[1..]), NonWord)
    else Cons(t[0], ReadQuoted(t[1..], quote))
  }

  /** The digits of a numeric escape. */
  function ReadNumber(t: string, base: nat, n: nat): (r: (nat, string))
    ensures |r.1| <= |t|
  {
    if t == "" || !IsDigitOf(t[0], base) then (n, t) else ReadNumber(t[1..], base, base * n + DigitValue(t[0]))
  }

  predicate IsDigitOf(c: char, base: nat) {
    if base == 8 then IsOctal(c) else '0' <= c <= '9' || 'a' <= c <= 'f' || 'A' <= c <= 'F'
  }

  function DigitValue(c: char): nat {
    if '0' <= c <= '9' then c as int - 48
    else if 'a' <= c <= 'f' then c as int - 87
    else if 'A' <= c <= 'F' then c as int - 55
    else 0
  }

  /** A number read is stored in a char, and a NUL ends the string; zero is refused. */
  function NumberPiece(number: (nat, string)): (p: Piece)
    ensures |p.rest| <= |number.1|
  {
    if number.0 == 0 then Fail(AfterLine(if number.1 == "" then "" else number.1[1..]), RealWord)
    else Piece(if number.0 % 256 == 0 then "" else [(number.0 % 256) as char], number.1)
  }

  /** What follows a backslash outside quotes. */
  function ReadEscape(t: string): (p: Piece)
    requires t != ""
    ensures |p.rest| <= |t|
  {
    match t[0]
      case 'a' => Piece([ALARM], t[1..])
      case 'b' => Piece([BACKSPACE], t[1..])
      case 'e' => Piece([ESC], t[1..])
      case 'f' => Piece([FORMFEED], t[1..])
      case 'n' => Piece("\n", t[1..])
      case 'r' => Piece("\r", t[1..])
      case 't' => Piece("\t", t[1..])
      case c =>
        if c == 'x' || c == 'X' then NumberPiece(ReadNumber(t[1..], 16, 0))
        else if IsOctal(c) then NumberPiece(ReadNumber(t, 8, 0))
        else if c == '\0' then Fail(AfterLine(t[1..]), NonWord)
        else if IsAlnum(c) then Fail(AfterLine(t[1..]), RealWord)
        else Piece([c], t[1..])
  }

  datatype Lexed = Lexed(token: Token, rest: string, w: WordState)

  function Word(p: Piece): Lexed {
    match p
    case Piece(text, rest) => Lexed(Qword(text), rest, RealWord)
    case Fail(rest, w) => Lexed(Error, rest, w)
  }

  /** The next token, after the word state w; only its blank, quoting, escape and caret
      cases are told apart. */
  function Lex(t: string, w: WordState): (r: Lexed)
    ensures |r.rest| <= |t|
    ensures r.token.Qword? ==> |r.rest| < |t|
  {
    if t == "" then Lexed(EndFile, "", w)
    else if t[0] == ' ' || t[0] == '\t' then Lex(t[1..], NonWord)
    else if t[0] == '\0' then Lexed(Error, AfterLine(t[1..]), NonWord)
    else if t[0] == '\'' || t[0] == '"' then
      if w != NonWord then Lexed(Caret, t, NonWord) else Word(ReadQuoted(t[1..], t[0]))
    else if t[0] == '\\' then
      if |t| == 1 then Lexed(Error, "", w)
      else if t[1] == '\n' then Lex(t[2..], NonWord)
      else if w != NonWord then Lexed(Caret, t, NonWord)
      else Word(ReadEscape(t[1..]))
    else if t[0] == '^' then Lexed(Caret, t[1..], NonWord)
    else Lexed(Foreign(t[0]), t, w)
  }

  /** The string that quoted words joined by carets stand for, up to the end of the input. */
  function Joined(t: string): Option<string>
    decreases |t|
  {
    var word := Lex(t, NonWord);
    if !word.token.Qword? then None
    else
      var next := Lex(word.rest, word.w);
      match next.token
      case EndFile => Some(word.token.s)
      case Caret =>
        (match Joined(next.rest) case None => None case Some(more) => Some(word.token.s + more))
      case _ => None
  }

  // ----- the lexer

  function Append(buf: string, p: Piece): Piece {
    match p case Piece(text, rest) => Piece(buf + text, rest) case Fail(_, _) => p
  }

  lemma AppendCons(buf: string, c: char, p: Piece)
    ensures Append(buf, Cons(c, p)) == Append(buf + [c], p)
  {
    if p.Piece? {
      assert buf + ([c] + p.text) == buf + [c] + p.text;
    }
  }

  /** The static state of token.c that these cases use. */
  class Lexer {
    var input: string
    var w: WordState
    var goterror: bool

    constructor (text: string)
      ensures input == text && w == NonWord && !goterror
    {
      input, w, goterror := text, NonWord, false;
    }

    method GetC() returns (c: Option<char>)
      modifies this`input
      ensures old(input) == "" ==> c == None && input == ""
      ensures old(input) != "" ==> c == Some(old(input)[0]) && input == old(input)[1..]
    {
      if input == "" {
        return None;
      }
      c := Some(input[0]);
      input := input[1..];
    }

    method UngetC(c: Option<char>)
      modifies this`input
      ensures input == if c.Some? then [c.value] + old(input) else old(input)
    {
      if c.Some? {
        input := [c.value] + input;
      }
    }

    method ScanError()
      modifies this`input, this`goterror
      ensures input == AfterLine(old(input)) && goterror
    {
      var c := GetC();
      while c != Some('\n') && c != None
        invariant AfterLine(old(input)) == if c == None || c == Some('\n') then input else AfterLine(input)
        decreases |input| + (if c == None then 0 else 1)
      {
        c := GetC();
      }
      goterror := true;
    }

    /** The quoted-string case of yylex, after the opening quote. */
    method ScanQuoted(quote: char) returns (ok: bool, buf: string)
      requires quote == '\'' || quote == '"'
      modifies this`input, this`w, this`goterror
      ensures match ReadQuoted(old(input), quote)
              case Piece(text, rest) => ok && buf == text && input == rest && w == RealWord && goterror == old(goterror)
              case Fail(rest, state) => !ok && input == rest && w == state && goterror
    {
      ok, buf := true, "";
      w := RealWord;
      ghost var all := ReadQuoted(input, quote);
      AppendNothing(all);
      while true
        invariant w == RealWord && goterror == old(goterror) && Append(buf, ReadQuoted(input, quote)) == all
        decreases |input|
      {
        ghost var before := input;
        QuotedStep(before, quote, buf);
        var c := GetC();
        if c == Some(quote) {
          c := GetC();
          if c != Some(quote) {
            UngetC(c);
            assert input == before[1..];
            return;
          }
        } else if c == Some('\\') {
          c := GetC();
          if c == Some('\n') {
            continue;
          }
          if c != Some(quote) {
            UngetC(c);
            assert input == before[1..];
            c := Some('\\');
          }
        } else if c == Some('\0') || c == None {
          ok, w := false, NonWord;
          ScanError();
          return;
        }
        buf := buf + [c.value];
      }
    }

    /** The digits of a numeric escape. */
    method ScanNumber(base: nat) returns (n: nat)
      requires base == 8 || base == 16
      modifies this`input
      ensures (n, input) == ReadNumber(old(input), base, 0)
    {
      n := 0;
      ghost var ahead := input;
      var c := GetC();
      assert ahead == if c.Some? then [c.value] + input else "";
      while c.Some? && IsDigitOf(c.value, base)
        invariant ahead == (if c.Some? then [c.value] + input else "") && (c == None ==> input == "")
        invariant ReadNumber(old(input), base, 0) == ReadNumber(ahead, base, n)
        decreases |ahead|
      {
        n := base * n + DigitValue(c.value);
        ahead := input;
        c := GetC();
        assert ahead == if c.Some? then [c.value] + input else "";
      }
      UngetC(c);
    }

    /** The backslash case of yylex, outside quotes and with something after it. */
    method ScanEscape() returns (ok: bool, buf: string)
      requires input != ""
      modifies this`input, this`w, this`goterror
      ensures match ReadEscape(old(input))
              case Piece(text, rest) => ok && buf == text && input == rest && w == RealWord && goterror == old(goterror)
              case Fail(rest, state) => !ok && input == rest && w == state && goterror
    {
      hide ReadNumber, AfterLine;
      ok, buf, w := true, "", RealWord;
      var c := GetC();
      match c.value {
        case 'a' => buf := [ALARM];
        case 'b' => buf := [BACKSPACE];
        case 'e' => buf := [ESC];
        case 'f' => buf := [FORMFEED];
        case 'n' => buf := "\n";
        case 'r' => buf := "\r";
        case 't' => buf := "\t";
        case other =>
          if other == 'x' || other == 'X' || IsOctal(other) {
            var base := if IsOctal(other) then 8 else 16;
            if base == 8 {
              UngetC(c);
              assert input == old(input);
            }
            var n := ScanNumber(base);
            if n == 0 {
              c := GetC();
              ScanError();
              ok := false;
            } else {
              buf := if n % 256 == 0 then "" else [(n % 256) as char];
            }
          } else if other == '\0' {
            w := NonWord;
            ScanError();
            ok := false;
          } else if IsAlnum(other) {
            ScanError();
            ok := false;
          } else {
            buf := [other];
          }
      }
    }

    /** yylex */
    method Yylex() returns (token: Token)
      modifies this`input, this`w, this`goterror
      ensures old(goterror) ==> token == Newline && !goterror && input == old(input) && w == old(w)
      ensures !old(goterror) ==> Lexed(token, input, w) == Lex(old(input), old(w)) && goterror == (token == Error)
    {
      hide ReadQuoted, ReadEscape, AfterLine;
      if goterror {
        goterror := false;
        return Newline;
      }
      while true
        invariant !goterror && Lex(input, w) == Lex(old(input), old(w))
        decreases |input|
      {
        ghost var start := input;
        var c := GetC();
        if c == None {
          return EndFile;
        }
        assert start == [c.value] + input;
        if c == Some(' ') || c == Some('\t') {
          w := NonWord;
        } else if c == Some('\0') {
          w := NonWord;
          ScanError();
          return Error;
        } else if c == Some('\'') || c == Some('"') {
          if w != NonWord {
            w := NonWord;
            UngetC(c);
            return Caret;
          }
          var ok, text := ScanQuoted(c.value);
          return if ok then Qword(text) else Error;
        } else if c == Some('\\') {
          c := GetC();
          if c == Some('\n') {
            w := NonWord;
            assert start[2..] == input;
          } else {
            UngetC(c);
            assert input == start[1..];
            if c == None {
              ScanError();
              return Error;
            }
            if w != NonWord {
              w := NonWord;
              UngetC(Some('\\'));
              return Caret;
            }
            var ok, text := ScanEscape();
            return if ok then Qword(text) else Error;
          }
        } else if c == Some('^') {
          w := NonWord;
          return Caret;
        } else {
          UngetC(c);
          return Foreign(c.value);
        }
      }
    }
  }

  lemma AppendNothing(p: Piece)
    ensures Append("", p) == p
  {
    if p.Piece? {
      assert "" + p.text == p.text;
    }
  }

  lemma QuotedStep(t: string, quote: char, buf: string)
    requires quote == '\'' || quote == '"'
    ensures t == "" ==> ReadQuoted(t, quote) == Fail("", NonWord)
    ensures t != "" ==>
              var p := Append(buf, ReadQuoted(t, quote));
              if t[0] == quote || t[0] == '\\' then
                if |t| > 1 && t[1] == quote then p == Append(buf + [quote], ReadQuoted(t[1..][1..], quote))
                else if t[0] == quote then p == Piece(buf, t[1..])
                else if |t| > 1 && t[1] == '\n' then p == Append(buf, ReadQuoted(t[1..][1..], quote))
                else p == Append(buf + ['\\'], ReadQuoted(t[1..], quote))
              else if t[0] == '\0' then ReadQuoted(t, quote) == Fail(AfterLine(t[1..]), NonWord)
              else p == Append(buf + [t[0]], ReadQuoted(t[1..], quote))
  {
    if t != "" {
      if |t| > 1 {
        assert t[1..][1..] == t[2..];
        AppendCons(buf, quote, ReadQuoted(t[2..], quote));
      }
      AppendCons(buf, '\\', ReadQuoted(t[1..], quote));
      AppendCons(buf, t[0], ReadQuoted(t[1..], quote));
      assert buf + "" == buf;
    }
  }

  // ----- reading what was written

  /** Every backslash is followed by a printable character other than a single quote. */
  predicate Fine(s: string, k: nat) {
    forall i | k <= i < |s| && s[i] == '\\' :: i + 1 < |s| && IsPrint(s[i + 1]) && s[i + 1] != '\''
  }

  function Prepend(text: string, r: Option<string>): Option<string> {
    match r case None => None case Some(more) => Some(text + more)
  }

  /** What follows a word that ended: the end, or a caret and more words. */
  function After(t: string): Option<string> {
    var next := Lex(t, RealWord);
    match next.token
    case EndFile => Some("")
    case Caret => Joined(next.rest)
    case _ => None
  }

  /** The string read from inside single quotes on. */
  function Inside(t: string): Option<string> {
    match ReadQuoted(t, '\'')
    case Fail(_, _) => None
    case Piece(text, rest) => Prepend(text, After(rest))
  }

  lemma PrependTwice(a: string, b: string, r: Option<string>)
    ensures Prepend(a, Prepend(b, r)) == Prepend(a + b, r)
  {
    if r.Some? {
      assert a + (b + r.value) == a + b + r.value;
    }
  }

  /** A word at the start of the input, and what follows it. */
  lemma JoinedWord(t: string, text: string, rest: string)
    requires Lex(t, NonWord) == Lexed(Qword(text), rest, RealWord)
    ensures Joined(t) == Prepend(text, After(rest))
  {
    assert text + "" == text;
  }

  lemma AfterNothing()
    ensures After("") == Some("")
  {
  }

  lemma AfterCaret(t: string)
    ensures After("^" + t) == Joined(t)
  {
    assert ("^" + t)[1..] == t;
  }

  /** Reading inside quotes: what each character written there does. */
  lemma InsideStep(c: char, t: string)
    ensures c != '\'' && c != '\\' && c != '\0' ==> Inside([c] + t) == Prepend([c], Inside(t))
    ensures Inside("''" + t) == Prepend("'", Inside(t))
    ensures Inside("\\'" + t) == Prepend("'", Inside(t))
    ensures t != "" && t[0] != '\'' && t[0] != '\n' ==> Inside("\\" + t) == Prepend("\\", Inside(t))
  {
    assert ([c] + t)[1..] == t && ("''" + t)[2..] == t && ("\\'" + t)[2..] == t && ("\\" + t)[1..] == t;
    var p := ReadQuoted(t, '\'');
    if p.Piece? {
      PrependTwice([c], p.text, After(p.rest));
      PrependTwice("'", p.text, After(p.rest));
      PrependTwice("\\", p.text, After(p.rest));
    }
  }

  /** The closing quote. */
  lemma InsideEnds(t: string)
    requires t == "" || t[0] == '^'
    ensures Inside("'" + t) == After(t)
  {
    assert ("'" + t)[1..] == t;
    if After(t).Some? {
      assert "" + After(t).value == After(t).value;
    }
  }

  /** An opening quote: the rest of the word is read inside. */
  lemma OpensQuote(t: string)
    ensures Joined("'" + t) == Inside(t)
  {
    assert ("'" + t)[1..] == t;
    var p := ReadQuoted(t, '\'');
    if p.Piece? {
      JoinedWord("'" + t, p.text, p.rest);
    }
  }

  lemma OctalDigits(n: nat)
    requires 0 < n < 256
    ensures n < 8 ==> Octal(n) == [(48 + n) as char]
    ensures 8 <= n < 64 ==> Octal(n) == [(48 + n / 8) as char, (48 + n % 8) as char]
    ensures 64 <= n ==> Octal(n) == [(48 + n / 64) as char, (48 + n / 8 % 8) as char, (48 + n % 8) as char]
  {
    if n >= 64 {
      assert Octal(n / 8) == [(48 + n / 64) as char, (48 + n / 8 % 8) as char];
    }
  }

  lemma ReadDigit(d: nat, t: string, n: nat)
    requires d < 8
    ensures ReadNumber([(48 + d) as char] + t, 8, n) == ReadNumber(t, 8, 8 * n + d)
    ensures IsOctal((48 + d) as char)
  {
    assert ([(48 + d) as char] + t)[1..] == t;
  }

  lemma ReadNone(t: string, n: nat)
    requires t == "" || t[0] == '^'
    ensures ReadNumber(t, 8, n) == (n, t)
  {
  }

  /** An octal number is read back. */
  lemma ReadOctal(n: nat, t: string)
    requires 0 < n < 256 && (t == "" || t[0] == '^')
    ensures ReadNumber(Octal(n) + t, 8, 0) == (n, t)
    ensures Octal(n) != "" && IsOctal(Octal(n)[0])
  {
    hide Octal, ReadNumber;
    OctalDigits(n);
    ReadNone(t, n);
    if n < 8 {
      ReadDigit(n, t, 0);
    } else if n < 64 {
      var a, b := [(48 + n / 8) as char], [(48 + n % 8) as char];
      assert Octal(n) + t == a + (b + t);
      ReadDigit(n / 8, b + t, 0);
      ReadDigit(n % 8, t, n / 8);
    } else {
      var a, b, c := [(48 + n / 64) as char], [(48 + n / 8 % 8) as char], [(48 + n % 8) as char];
      assert Octal(n) + t == a + (b + (c + t));
      ReadDigit(n / 64, b + (c + t), 0);
      ReadDigit(n / 8 % 8, c + t, n / 64);
      ReadDigit(n % 8, t, n / 8);
      assert 8 * (n / 64) + n / 8 % 8 == n / 8;
    }
  }

  const LOWER: string := "0123456789abcdef"
  const UPPER: string := "0123456789ABCDEF"

  /** d is a number in octal or hexadecimal, of any length and in either case. */
  predicate Spells(d: string, base: nat, n: nat)
    requires base == 8 || base == 16
  {
    if d == "" then n == 0
    else d[|d| - 1] in {LOWER[n % base], UPPER[n % base]} && Spells(d[..|d| - 1], base, n / base)
  }

  lemma DigitSpelled(c: char, v: nat)
    requires v < 16 && c in {LOWER[v], UPPER[v]}
    ensures DigitValue(c) == v && IsDigitOf(c, 16) && (v < 8 ==> IsDigitOf(c, 8))
  {
  }

  lemma {:induction false} ReadSpelled(d: string, base: nat, n: nat, t: string)
    requires base == 8 || base == 16
    requires Spells(d, base, n)
    ensures ReadNumber(d + t, base, 0) == ReadNumber(t, base, n)
    decreases |d|
  {
    if d == "" {
      assert d + t == t;
    } else {
      var last, c := |d| - 1, d[|d| - 1];
      DigitSpelled(c, n % base);
      ReadSpelled(d[..last], base, n / base, [c] + t);
      assert d + t == d[..last] + ([c] + t);
      assert ([c] + t)[1..] == t;
      assert base * (n / base) + n % base == n;
    }
  }

  /** A numeric escape stands for the character with its number, as far as that fits a
      character; zero is refused. */
  lemma NumericEscape(d: string, n: nat, t: string)
    requires d != "" && n > 0
    ensures Spells(d, 16, n) && (t == "" || !IsDigitOf(t[0], 16)) ==>
              ReadEscape("x" + d + t) == ReadEscape("X" + d + t)
              == Piece(if n % 256 == 0 then "" else [(n % 256) as char], t)
    ensures Spells(d, 8, n) && (t == "" || !IsDigitOf(t[0], 8)) ==>
              ReadEscape(d + t) == Piece(if n % 256 == 0 then "" else [(n % 256) as char], t)
  {
    hide Spells, ReadNumber;
    assert ("x" + d + t)[1..] == d + t && ("X" + d + t)[1..] == d + t;
    if Spells(d, 16, n) && (t == "" || !IsDigitOf(t[0], 16)) {
      ReadSpelled(d, 16, n, t);
      NoDigits(t, 16, n);
    }
    if Spells(d, 8, n) && (t == "" || !IsDigitOf(t[0], 8)) {
      ReadSpelled(d, 8, n, t);
      NoDigits(t, 8, n);
      FirstIsOctal(d, n);
      assert (d + t)[0] == d[0];
    }
  }

  lemma NoDigits(t: string, base: nat, n: nat)
    requires t == "" || !IsDigitOf(t[0], base)
    ensures ReadNumber(t, base, n) == (n, t)
  {
  }

  lemma {:induction false} FirstIsOctal(d: string, n: nat)
    requires d != "" && Spells(d, 8, n)
    ensures IsOctal(d[0])
    decreases |d|
  {
    if |d| > 1 {
      FirstIsOctal(d[..|d| - 1], n / 8);
    } else {
      DigitSpelled(d[0], n % 8);
    }
  }

  lemma TailReads(c: char, t: string)
    requires 0 < c as int < 256 && !IsPrint(c) && (t == "" || t[0] == '^')
    ensures var u := EscapeTail(c) + t;
            u != "" && u[0] != '\n' && ReadEscape(u) == Piece([c], t)
  {
    hide Octal, ReadNumber, AfterLine, NumberPiece;
    var u := EscapeTail(c) + t;
    ReadOctal(c as int, t);
    if EscapeTail(c) == Octal(c as int) {
      assert u[0] == Octal(c as int)[0];
      NumberReads(c);
    } else {
      assert u[1..] == t;
    }
  }

  /** The escape sequence of a character is read as that character. */
  lemma ReadsEscape(c: char, t: string)
    requires 0 < c as int < 256 && !IsPrint(c) && (t == "" || t[0] == '^')
    ensures Joined(EscapeOf(c) + t) == Prepend([c], After(t))
  {
    hide EscapeTail, ReadEscape, Joined, After;
    TailReads(c, t);
    var u := EscapeTail(c) + t;
    assert EscapeOf(c) + t == "\\" + u && ("\\" + u)[1..] == u;
    JoinedWord("\\" + u, [c], t);
  }

  lemma NumberReads(c: char)
    requires 0 < c as int < 256
    ensures forall rest :: NumberPiece((c as int, rest)) == Piece([c], rest)
  {
    assert (c as int) % 256 == c as int;
  }

  // ----- the round trip

  lemma SomeCons(c: char, s: string, k: nat, r: Option<string>)
    requires k < |s|
    ensures Prepend([c], r) == Some(s[k..]) <==> c == s[k] && r == Some(s[k + 1..])
  {
    assert s[k..] == [s[k]] + s[k + 1..];
    if r.Some? && Prepend([c], r) == Some(s[k..]) {
      assert ([c] + r.value)[1..] == r.value;
    }
  }

  lemma EmitHead(s: string, k: nat)
    requires k <= |s|
    ensures var t := Emit(s, k, Quoted);
            t != "" && t[0] != '\n' && (t[0] != '\'' <==> k < |s| && IsPrint(s[k]) && s[k] != '\'')
  {
    hide EscapeOf;
  }

  lemma FineStep(s: string, k: nat)
    requires k < |s|
    ensures Fine(s, k) <==> Fine(s, k + 1) && (s[k] == '\\' ==> k + 1 < |s| && IsPrint(s[k + 1]) && s[k + 1] != '\'')
  {
    hide IsPrint;
  }

  lemma PrintableInside(s: string, k: nat)
    requires k < |s| && IsPrint(s[k])
    ensures Emit(s, k, Quoted) == (if s[k] == '\'' then "''" else [s[k]]) + Emit(s, k + 1, Quoted)
  {
    hide IsPrint;
  }

  /** A backslash, inside quotes: it is read as the quote that follows it, if one does. */
  lemma BackslashReads(s: string, k: nat)
    requires k < |s| && s[k] == '\\'
    ensures var t := Emit(s, k + 1, Quoted);
            Inside("\\" + t) == Some(s[k..]) <==>
              Inside(t) == Some(s[k + 1..]) && k + 1 < |s| && IsPrint(s[k + 1]) && s[k + 1] != '\''
  {
    hide Inside, Prepend, Emit, IsPrint;
    var t := Emit(s, k + 1, Quoted);
    EmitHead(s, k + 1);
    if t[0] == '\'' {
      assert "\\" + t == "\\'" + t[1..];
      InsideStep('\\', t[1..]);
      SomeCons('\'', s, k, Inside(t[1..]));
    } else {
      InsideStep('\\', t);
      SomeCons('\\', s, k, Inside(t));
    }
  }

  /** A printable character, inside quotes. */
  lemma ShownReads(s: string, k: nat)
    requires k < |s| && IsCString(s) && IsPrint(s[k])
    requires Inside(Emit(s, k + 1, Quoted)) == Some(s[k + 1..]) <==> Fine(s, k + 1)
    ensures Inside(Emit(s, k, Quoted)) == Some(s[k..]) <==> Fine(s, k)
  {
    hide Inside, Prepend, Emit, IsPrint, Fine;
    var c, t := s[k], Emit(s, k + 1, Quoted);
    FineStep(s, k);
    PrintableInside(s, k);
    if c == '\\' {
      BackslashReads(s, k);
    } else {
      InsideStep(c, t);
      SomeCons(c, s, k, Inside(t));
    }
  }

  /** The three states write the same, up to the quotes and the caret before it. */
  lemma PrintableForms(s: string, k: nat)
    requires k < |s| && IsPrint(s[k])
    ensures Emit(s, k, Begin) == "'" + Emit(s, k, Quoted)
    ensures Emit(s, k, Unquoted) == "^" + ("'" + Emit(s, k, Quoted))
  {
    hide Shown, IsPrint;
    var shown, rest := Shown(s[k]), Emit(s, k + 1, Quoted);
    assert "" + shown + rest == shown + rest;
    assert "^'" + shown + rest == "^" + ("'" + (shown + rest));
    assert "'" + shown + rest == "'" + (shown + rest);
  }

  lemma EscapedForms(s: string, k: nat)
    requires k < |s| && !IsPrint(s[k])
    ensures Emit(s, k, Begin) == EscapeOf(s[k]) + Emit(s, k + 1, Unquoted)
    ensures Emit(s, k, Unquoted) == "^" + Emit(s, k, Begin)
    ensures Emit(s, k, Quoted) == "'" + ("^" + Emit(s, k, Begin))
  {
    hide EscapeOf, IsPrint;
    var shown, rest := EscapeOf(s[k]), Emit(s, k + 1, Unquoted);
    assert Shown(s[k]) == shown;
    assert "" + shown + rest == shown + rest;
    assert "'^" + shown + rest == "'" + ("^" + (shown + rest));
    assert "^" + shown + rest == "^" + (shown + rest);
  }

  lemma UnquotedHead(s: string, k: nat)
    requires k <= |s|
    ensures var t := Emit(s, k, Unquoted);
            t == "" || t[0] == '^'
  {
    hide Shown;
  }

  /** A character that cannot be printed. */
  lemma EmitReadsEscape(s: string, k: nat)
    requires k < |s| && IsCString(s) && !IsPrint(s[k])
    requires After(Emit(s, k + 1, Unquoted)) == Some(s[k + 1..]) <==> Fine(s, k + 1)
    ensures Joined(Emit(s, k, Begin)) == Some(s[k..]) <==> Fine(s, k)
    ensures Inside(Emit(s, k, Quoted)) == Some(s[k..]) <==> Fine(s, k)
    ensures After(Emit(s, k, Unquoted)) == Some(s[k..]) <==> Fine(s, k)
  {
    hide Inside, After, Joined, Prepend, EscapeOf, Emit;
    var t := Emit(s, k + 1, Unquoted);
    UnquotedHead(s, k + 1);
    ReadsEscape(s[k], t);
    SomeCons(s[k], s, k, After(t));
    EscapedForms(s, k);
    AfterCaret(Emit(s, k, Begin));
    InsideEnds("^" + Emit(s, k, Begin));
  }

  /** Reading back what was written from k on gives the string from k on, inside quotes,
      after them or at the beginning, exactly when its backslashes are harmless. */
  lemma {:induction false} EmitReads(s: string, k: nat)
    requires k <= |s| && IsCString(s)
    ensures Inside(Emit(s, k, Quoted)) == Some(s[k..]) <==> Fine(s, k)
    ensures After(Emit(s, k, Unquoted)) == Some(s[k..]) <==> Fine(s, k)
    ensures Joined(Emit(s, k, Begin)) == Some(s[k..]) <==> Fine(s, k)
    decreases |s| - k
  {
    hide Inside, After, Joined, Prepend, EscapeOf, Shown, Emit, IsPrint, Fine;
    if k == |s| {
      ReadsEnd(s);
    } else {
      EmitReads(s, k + 1);
      if IsPrint(s[k]) {
        ShownReads(s, k);
        PrintableForms(s, k);
        AfterCaret("'" + Emit(s, k, Quoted));
        OpensQuote(Emit(s, k, Quoted));
      } else {
        EmitReadsEscape(s, k);
      }
    }
  }

  lemma ReadsEnd(s: string)
    ensures Inside(Emit(s, |s|, Quoted)) == Some("") && After(Emit(s, |s|, Unquoted)) == Some("")
    ensures Joined(Emit(s, |s|, Begin)) == Some("") && s[|s|..] == "" && Fine(s, |s|)
  {
    hide Inside, After, Joined;
    AfterNothing();
    InsideEnds("");
    assert "'" + "" == "'" && "''" == "'" + "'";
    OpensQuote("'");
  }

  lemma {:induction false} PlainEmit(s: string, k: nat)
    requires k <= |s| && forall i | 0 <= i < |s| :: IsPrint(s[i]) && s[i] != '\''
    ensures Emit(s, k, Quoted) == s[k..] + "'"
    decreases |s| - k
  {
    if k < |s| {
      PlainEmit(s, k + 1);
      assert s[k..] == [s[k]] + s[k + 1..];
      assert "" + Shown(s[k]) == [s[k]];
    } else {
      assert s[k..] == "";
    }
  }

  /** Printable text without a single quote stands between single quotes. */
  lemma PlainQuoted(s: string)
    requires forall i | 0 <= i < |s| :: IsPrint(s[i]) && s[i] != '\''
    ensures Emit(s, 0, Begin) == "'" + s + "'"
  {
    hide Emit, IsPrint;
    if s != "" {
      PlainEmit(s, 1);
      FirstEmitted(s);
      assert s == [s[0]] + s[1..];
      assert "'" + [s[0]] + (s[1..] + "'") == "'" + ([s[0]] + s[1..]) + "'";
    } else {
      EmitEnd(s, Begin);
      assert "'" + s + "'" == "''";
    }
  }

  lemma FirstEmitted(s: string)
    requires s != "" && IsPrint(s[0]) && s[0] != '\''
    ensures Emit(s, 0, Begin) == "'" + [s[0]] + Emit(s, 1, Quoted)
  {
    assert Opening(Begin, true) == "'" && Shown(s[0]) == [s[0]];
  }

  /** The letters that stand for control characters after a backslash. */
  lemma EscapeLetters(t: string)
    ensures ReadEscape("a" + t) == Piece([7 as char], t) && ReadEscape("b" + t) == Piece([8 as char], t)
    ensures ReadEscape("t" + t) == Piece([9 as char], t) && ReadEscape("n" + t) == Piece([10 as char], t)
    ensures ReadEscape("f" + t) == Piece([12 as char], t) && ReadEscape("r" + t) == Piece([13 as char], t)
    ensures ReadEscape("e" + t) == Piece([27 as char], t)
  {
    assert forall c: char :: ([c] + t)[0] == c && ([c] + t)[1..] == t;
  }

  /** Lexing the `%#S` form of a string and joining the words gives the string back
      exactly when each of its backslashes is followed by a printable character other
      than a single quote. */
  lemma QuoteRoundTrip(s: string)
    requires IsCString(s)
    ensures Joined(Emit(s, 0, Begin)) == Some(s) <==> Fine(s, 0)
  {
    hide Joined, Emit, Fine;
    EmitReads(s, 0);
    assert s[0..] == s;
  }
}
