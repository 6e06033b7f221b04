/** String literals: what is written into SPARQL and Cypher text, and what is read back. */
module Escaping {
  import opened Prelude
  import opened Text

  // ---------- Replacing single characters ----------

  function Sub(c: char, f: char, to: string): string {
    if c == f then to else [c]
  }

  lemma ReplaceOne(s: string, f: char, to: string)
    requires s != ""
    ensures Replace(s, [f], to) == Sub(s[0], f, to) + Replace(s[1..], [f], to)
  {
    assert StartsWith(s, [f]) <==> s[0] == f by {
      assert s[..1] == [s[0]];
    }
  }

  function Each(s: string, f: char, to: string): string {
    if s == "" then "" else Sub(s[0], f, to) + Each(s[1..], f, to)
  }

  lemma {:induction false} ReplaceIsEach(s: string, f: char, to: string)
    ensures Replace(s, [f], to) == Each(s, f, to)
  {
    if s != "" {
      ReplaceOne(s, f, to);
      ReplaceIsEach(s[1..], f, to);
    }
  }

  lemma {:induction false} EachConcat(a: string, b: string, f: char, to: string)
    ensures Each(a + b, f, to) == Each(a, f, to) + Each(b, f, to)
  {
    hide Sub;
    if a == "" {
      assert a + b == b;
    } else {
      assert (a + b)[1..] == a[1..] + b;
      EachConcat(a[1..], b, f, to);
    }
  }

  lemma ReplaceConcat(a: string, b: string, f: char, to: string)
    ensures Replace(a + b, [f], to) == Replace(a, [f], to) + Replace(b, [f], to)
  {
    hide Replace, Each;
    ReplaceIsEach(a, f, to);
    ReplaceIsEach(b, f, to);
    ReplaceIsEach(a + b, f, to);
    EachConcat(a, b, f, to);
  }

  lemma {:induction false} Unaffected(s: string, f: char, to: string)
    requires f !in s
    ensures Replace(s, [f], to) == s
  {
    if s != "" {
      ReplaceOne(s, f, to);
      Unaffected(s[1..], f, to);
      assert s == [s[0]] + s[1..];
    }
  }

  lemma ReplaceChar(c: char, f: char, to: string)
    ensures Replace([c], [f], to) == Sub(c, f, to)
  {
    ReplaceOne([c], f, to);
  }

  // ---------- SPARQL string literals ----------

  function Lines(s: string): string {
    Replace(Replace(Replace(s, "\n", "\\n"), "\r", "\\r"), "\t", "\\t")
  }

  function Quotes(s: string): string {
    Replace(s, "\"", "\\\"")
  }

  function Backslashes(s: string): string {
    Replace(s, "\\", "\\\\")
  }

  // The body of a string literal: five passes, backslashes first.
  function StringBody(s: string): string {
    Lines(Quotes(Backslashes(s)))
  }

  // A typed literal has only its quotes escaped.
  function TypedBody(s: string): string {
    Quotes(s)
  }

  // A constant list or map, written as text, has no line breaks escaped.
  function ListBody(s: string): string {
    Quotes(Backslashes(s))
  }

  // ECHAR, rule 160 of the SPARQL 1.1 grammar, after the backslash.
  function EscapedChar(c: char): Option<char> {
    match c
    case 't' => Some('\t')
    case 'b' => Some('\U{0008}')
    case 'n' => Some('\n')
    case 'r' => Some('\r')
    case 'f' => Some('\U{000c}')
    case '\\' => Some('\\')
    case '"' => Some('"')
    case '\'' => Some('\'')
    case _ => None
  }

  datatype Read = Read(value: string, rest: string)

  // STRING_LITERAL2, from after the opening quote up to and past the closing one.
  function ReadSparql(text: string): Option<Read> {
    if text == "" || text[0] == '\n' || text[0] == '\r' then None
    else if text[0] == '"' then Some(Read("", text[1..]))
    else if text[0] == '\\' then
      if |text| == 1 then None
      else
        var c :- EscapedChar(text[1]);
        var r :- ReadSparql(text[2..]);
        Some(r.(value := [c] + r.value))
    else
      var r :- ReadSparql(text[1..]);
      Some(r.(value := [text[0]] + r.value))
  }

  function EscapeOf(c: char): string {
    match c
    case '\\' => "\\\\"
    case '"' => "\\\""
    case '\n' => "\\n"
    case '\r' => "\\r"
    case '\t' => "\\t"
    case _ => [c]
  }

  function PlainOf(c: char): string {
    if c == '\\' then "\\\\" else if c == '"' then "\\\"" else [c]
  }

  lemma LinesConcat(a: string, b: string)
    ensures Lines(a + b) == Lines(a) + Lines(b)
  {
    ReplaceConcat(a, b, '\n', "\\n");
    var a1, b1 := Replace(a, "\n", "\\n"), Replace(b, "\n", "\\n");
    ReplaceConcat(a1, b1, '\r', "\\r");
    ReplaceConcat(Replace(a1, "\r", "\\r"), Replace(b1, "\r", "\\r"), '\t', "\\t");
  }

  lemma LinesKeep(s: string)
    requires '\n' !in s && '\r' !in s && '\t' !in s
    ensures Lines(s) == s
  {
    Unaffected(s, '\n', "\\n");
    Unaffected(s, '\r', "\\r");
    Unaffected(s, '\t', "\\t");
  }

  lemma LinesChar(c: char)
    requires c == '\n' || c == '\r' || c == '\t'
    ensures Lines([c]) == EscapeOf(c)
  {
    ReplaceChar(c, '\n', "\\n");
    if c == '\n' {
      Unaffected("\\n", '\r', "\\r");
      Unaffected("\\n", '\t', "\\t");
    } else {
      ReplaceChar(c, '\r', "\\r");
      if c == '\r' {
        Unaffected("\\r", '\t', "\\t");
      } else {
        ReplaceChar(c, '\t', "\\t");
      }
    }
  }

  lemma ListBodyStep(s: string)
    requires s != ""
    ensures ListBody(s) == PlainOf(s[0]) + ListBody(s[1..])
  {
    hide Replace;
    ReplaceOne(s, '\\', "\\\\");
    var first := Sub(s[0], '\\', "\\\\");
    ReplaceConcat(first, Backslashes(s[1..]), '"', "\\\"");
    if s[0] == '\\' {
      Unaffected(first, '"', "\\\"");
    } else {
      ReplaceChar(s[0], '"', "\\\"");
    }
  }

  lemma StringBodyStep(s: string)
    requires s != ""
    ensures StringBody(s) == EscapeOf(s[0]) + StringBody(s[1..])
  {
    hide Lines, ListBody;
    var c := s[0];
    assert StringBody(s) == Lines(ListBody(s)) && StringBody(s[1..]) == Lines(ListBody(s[1..])) by { BodyOfList(s); BodyOfList(s[1..]); }
    ListBodyStep(s);
    LinesConcat(PlainOf(c), ListBody(s[1..]));
    if c == '\n' || c == '\r' || c == '\t' {
      LinesChar(c);
    } else {
      LinesKeep(PlainOf(c));
    }
  }

  lemma BodyOfList(s: string)
    ensures StringBody(s) == Lines(ListBody(s))
  {
  }

  // An escape is read as the character it stands for.
  lemma ReadEscape(c: char, e: string, tail: string)
    requires e == EscapeOf(c) || (e == PlainOf(c) && c != '\n' && c != '\r')
    ensures ReadSparql(e + tail) == if ReadSparql(tail).Some? then Some(Read([c] + ReadSparql(tail).value.value, ReadSparql(tail).value.rest)) else None
  {
    var text := e + tail;
    assert text[|e|..] == tail;
    assert text[0] == e[0] && (|e| == 2 ==> text[1] == e[1]);
  }

  // Reading back what was written for any string gives the string, and the closing
  // quote is the one that was written: the passes do not interfere.
  lemma {:induction false} StringRoundTrip(s: string, rest: string)
    ensures ReadSparql(StringBody(s) + "\"" + rest) == Some(Read(s, rest))
    ensures '\n' !in StringBody(s) && '\r' !in StringBody(s)
  {
    hide ReadSparql, StringBody;
    var end := "\"" + rest;
    assert StringBody(s) + "\"" + rest == StringBody(s) + end;
    if s == "" {
      EmptyBodies();
      ReadEnd(rest);
      assert "" + end == end;
    } else {
      StringBodyStep(s);
      StringRoundTrip(s[1..], rest);
      var e, tail := EscapeOf(s[0]), StringBody(s[1..]) + end;
      assert StringBody(s[1..]) + "\"" + rest == tail;
      assert StringBody(s) + end == e + tail;
      ReadEscape(s[0], e, tail);
      assert s == [s[0]] + s[1..];
    }
  }

  lemma EmptyBodies()
    ensures StringBody("") == "" && ListBody("") == ""
  {
  }

  lemma ReadEnd(rest: string)
    ensures ReadSparql("\"" + rest) == Some(Read("", rest))
  {
    assert ("\"" + rest)[1..] == rest;
  }

  predicate NoLineBreak(s: string) {
    '\n' !in s && '\r' !in s
  }

  // A list is read back exactly when it has no line break; else it is not a literal.
  lemma {:induction false} ListRoundTrip(s: string, rest: string)
    ensures ReadSparql(ListBody(s) + "\"" + rest) == if NoLineBreak(s) then Some(Read(s, rest)) else None
  {
    hide ReadSparql, ListBody;
    var end := "\"" + rest;
    assert ListBody(s) + "\"" + rest == ListBody(s) + end;
    if s == "" {
      EmptyBodies();
      ReadEnd(rest);
      assert "" + end == end;
    } else {
      ListBodyStep(s);
      ListRoundTrip(s[1..], rest);
      var e, tail := PlainOf(s[0]), ListBody(s[1..]) + end;
      assert ListBody(s[1..]) + "\"" + rest == tail;
      assert ListBody(s) + end == e + tail;
      assert s == [s[0]] + s[1..];
      if s[0] == '\n' || s[0] == '\r' {
        ReadBreak(e + tail);
      } else {
        ReadEscape(s[0], e, tail);
      }
    }
  }

  lemma ReadBreak(text: string)
    requires text != "" && (text[0] == '\n' || text[0] == '\r')
    ensures ReadSparql(text) == None
  {
  }

  lemma ReadHead(text: string)
    requires text != ""
    ensures ReadSparql(text) ==
            if text[0] == '\n' || text[0] == '\r' then None
            else if text[0] == '"' then Some(Read("", text[1..]))
            else if text[0] != '\\' then Prefixed(text[0], ReadSparql(text[1..]))
            else if |text| == 1 || EscapedChar(text[1]).None? then None
            else Prefixed(EscapedChar(text[1]).value, ReadSparql(text[2..]))
  {
  }

  function Prefixed(c: char, r: Option<Read>): Option<Read> {
    if r.None? then None else Some(Read([c] + r.value.value, r.value.rest))
  }

  lemma TypedBodyStep(s: string)
    requires s != ""
    ensures TypedBody(s) + "\"" == (if s[0] == '"' then "\\\"" else [s[0]]) + (TypedBody(s[1..]) + "\"")
  {
    ReplaceOne(s, '"', "\\\"");
  }

  lemma EmptyTypedBody()
    ensures TypedBody("") == ""
  {
  }

  // What is read from a typed literal, if it ends where it should, is no longer than
  // what was written, and shorter if there was a backslash.
  lemma {:induction false} TypedShrinks(s: string)
    ensures var r := ReadSparql(TypedBody(s) + "\"");
            r.Some? && r.value.rest == "" ==> |r.value.value| <= |s| && ('\\' in s ==> |r.value.value| < |s|)
    decreases |s|
  {
    hide ReadSparql, TypedBody, EscapedChar;
    var text := TypedBody(s) + "\"";
    EmptyTypedBody();
    ReadHead(text);
    if s != "" {
      TypedBodyStep(s);
      var tail := TypedBody(s[1..]) + "\"";
      assert s == [s[0]] + s[1..];
      if s[0] == '"' {
        TypedShrinks(s[1..]);
        assert text[0] == '\\' && text[2..] == tail;
      } else if s[0] != '\\' {
        TypedShrinks(s[1..]);
        assert text[0] == s[0] && text[1..] == tail;
      } else if |s| == 1 {
        assert text == "\\\"" && text[2..] == "";
        ReadNothing();
      } else {
        TypedBodyStep(s[1..]);
        var tail2 := TypedBody(s[2..]) + "\"";
        assert s[1..][1..] == s[2..] && text[1..] == tail;
        if s[1] == '"' {
          assert text[2..] == "\"" + tail2;
          ReadHead(text[2..]);
          assert text[2..][1..] == tail2;
        } else {
          TypedShrinks(s[2..]);
          assert text[2..] == tail2;
        }
      }
    }
  }

  lemma ReadNothing()
    ensures ReadSparql("") == None
  {
  }

  lemma {:induction false} TypedReads(s: string)
    requires '\\' !in s && NoLineBreak(s)
    ensures ReadSparql(TypedBody(s) + "\"") == Some(Read(s, ""))
  {
    hide ReadSparql;
    if s == "" {
      ReadEnd("");
      assert TypedBody(s) + "\"" == "\"" + "";
    } else {
      ReplaceOne(s, '"', "\\\"");
      assert s == [s[0]] + s[1..];
      TypedReads(s[1..]);
      var e, tail := PlainOf(s[0]), TypedBody(s[1..]) + "\"";
      assert TypedBody(s) + "\"" == e + tail;
      ReadEscape(s[0], e, tail);
    }
  }

  lemma {:induction false} NoLineBreakRead(text: string)
    ensures ReadSparql(text).Some? ==>
              var rest := ReadSparql(text).value.rest; |rest| <= |text| && NoLineBreak(text[..|text| - |rest|])
  {
    if ReadSparql(text).Some? {
      if text[0] == '"' {
        assert text[..1] == "\"";
      } else {
        var n := if text[0] == '\\' then 2 else 1;
        NoLineBreakRead(text[n..]);
        var used := |text| - |ReadSparql(text).value.rest|;
        assert text[..used] == text[..n] + text[n..][..used - n];
        assert NoLineBreak(text[..n]);
      }
    }
  }

  lemma {:induction false} QuotesKeepLines(s: string)
    ensures NoLineBreak(Quotes(s)) <==> NoLineBreak(s)
  {
    if s != "" {
      ReplaceOne(s, '"', "\\\"");
      QuotesKeepLines(s[1..]);
      assert s == [s[0]] + s[1..];
    }
  }

  // A typed literal is read back exactly when its value has no backslash and no line break.
  lemma TypedRoundTripIff(s: string)
    ensures ReadSparql(TypedBody(s) + "\"") == Some(Read(s, "")) <==> '\\' !in s && NoLineBreak(s)
  {
    var text := TypedBody(s) + "\"";
    if '\\' !in s && NoLineBreak(s) {
      TypedReads(s);
    }
    if ReadSparql(text) == Some(Read(s, "")) {
      TypedShrinks(s);
      NoLineBreakRead(text);
      assert text[..|text|] == text;
      QuotesKeepLines(s);
      assert forall c :: c in TypedBody(s) ==> c in text;
    }
  }

  // ---------- Cypher string literals ----------

  // The body that the harness writes between single quotes.
  function CypherBody(s: string): string {
    Replace(s, "'", "\\'")
  }

  predicate IsHex(c: char) {
    '0' <= c <= '9' || 'a' <= c <= 'f' || 'A' <= c <= 'F'
  }

  // The length of the escape sequence at the start of the text, which is a backslash; 0 if there is none.
  function EscapeLength(text: string): (n: nat)
    ensures n <= |text|
  {
    if |text| < 2 then 0
    else if text[1] in "\\'\"bfnrt" then 2
    else if text[1] == 'u' && |text| >= 6 && forall i :: 2 <= i < 6 ==> IsHex(text[i]) then 6
    else if text[1] == 'U' && |text| >= 10 && forall i :: 2 <= i < 10 ==> IsHex(text[i]) then 10
    else 0
  }

  // The body of a single-quoted literal, from after the opening quote.
  function LexCypher(text: string): Option<Read> {
    if text == "" then None
    else if text[0] == '\'' then Some(Read("", text[1..]))
    else
      var n := if text[0] == '\\' then EscapeLength(text) else 1;
      if n == 0 then None
      else
        var r :- LexCypher(text[n..]);
        Some(r.(value := text[..n] + r.value))
  }

  function Unescaped(c: char): char {
    if c == 'n' then '\n' else if c == 't' then '\t' else if c == 'r' then '\r' else c
  }

  function Unescape(s: string): string {
    if s == "" then ""
    else if s[0] == '\\' then (if |s| == 1 then "\\" else [Unescaped(s[1])] + Unescape(s[2..]))
    else [s[0]] + Unescape(s[1..])
  }

  // One character, or one escape, further.
  lemma UnescapeStep(s: string, i: nat)
    requires i < |s|
    ensures Unescape(s[i..]) == if s[i] != '\\' then [s[i]] + Unescape(s[i + 1..])
                                else if i + 1 == |s| then "\\"
                                else [Unescaped(s[i + 1])] + Unescape(s[i + 2..])
  {
    var t := s[i..];
    assert t[0] == s[i] && t[1..] == s[i + 1..];
    if |t| > 1 {
      assert t[1] == s[i + 1] && t[2..] == s[i + 2..];
    }
  }

  method UnescapeString(s: string) returns (out: string)
    ensures out == Unescape(s)
  {
    hide Unescape;
    out := "";
    var i := 0;
    assert s[0..] == s;
    while i < |s|
      invariant 0 <= i <= |s|
      invariant Unescape(s) == out + Unescape(s[i..])
    {
      var c := s[i];
      UnescapeStep(s, i);
      i := i + 1;
      if c == '\\' {
        if i == |s| {
          EmptyUnescapes(s[i..]);
          out := out + "\\";
        } else {
          out := out + [Unescaped(s[i])];
          i := i + 1;
        }
      } else {
        out := out + [c];
      }
    }
    EmptyUnescapes(s[i..]);
  }

  lemma EmptyUnescapes(s: string)
    requires s == ""
    ensures Unescape(s) == ""
  {
  }

  // ---------- What escapes stand for ----------

  function HexDigit(c: char): nat
    requires IsHex(c)
  {
    if '0' <= c <= '9' then c as nat - '0' as nat
    else if 'a' <= c <= 'f' then c as nat - 'a' as nat + 10
    else c as nat - 'A' as nat + 10
  }

  function HexValue(s: string): nat
    requires forall c :: c in s ==> IsHex(c)
  {
    if s == "" then 0 else HexValue(s[..|s| - 1]) * 16 + HexDigit(s[|s| - 1])
  }

  // The character with the code; a code of none is replaced.
  function CharOf(code: nat): char {
    if code < 0xD800 || 0xE000 <= code < 0x11_0000 then code as char else '\U{fffd}'
  }

  // The character that an escape sequence stands for in openCypher.
  function EscapeValue(esc: string): char
    requires |esc| > 1 && esc[0] == '\\' && EscapeLength(esc) == |esc|
  {
    match esc[1]
    case 'b' => '\U{0008}'
    case 'f' => '\U{000c}'
    case 'n' => '\n'
    case 'r' => '\r'
    case 't' => '\t'
    case 'u' => CharOf(HexValue(esc[2..]))
    case 'U' => CharOf(HexValue(esc[2..]))
    case c => c
  }

  // The text that a literal's body stands for, None where a backslash begins no escape.
  function Denoted(s: string): Option<string> {
    if s == "" then Some("")
    else if s[0] != '\\' then
      var rest :- Denoted(s[1..]);
      Some([s[0]] + rest)
    else if EscapeLength(s) == 0 then None
    else
      EscapeIsOne(s);
      var rest :- Denoted(s[EscapeLength(s)..]);
      Some([EscapeValue(s[..EscapeLength(s)])] + rest)
  }

  lemma EscapeIsOne(s: string)
    requires EscapeLength(s) > 0
    ensures var n := EscapeLength(s); n > 1 && EscapeLength(s[..n]) == n
  {
  }

  // The escape sequence of a character, where it has one of two characters.
  function ShortEscapeOf(c: char): string {
    match c
    case '\\' => "\\\\"
    case '\'' => "\\'"
    case '"' => "\\\""
    case '\U{0008}' => "\\b"
    case '\U{000c}' => "\\f"
    case '\n' => "\\n"
    case '\r' => "\\r"
    case '\t' => "\\t"
    case _ => [c]
  }

  function Written(s: string): string {
    if s == "" then "" else ShortEscapeOf(s[0]) + Written(s[1..])
  }

  const HEX_DIGITS := "0123456789abcdefABCDEF"

  lemma HexDigitsIff(c: char)
    ensures IsHex(c) <==> c in HEX_DIGITS
  {
    if '0' <= c <= '9' {
      assert HEX_DIGITS[c as int - '0' as int] == c;
    } else if 'a' <= c <= 'f' {
      assert HEX_DIGITS[c as int - 'a' as int + 10] == c;
    } else if 'A' <= c <= 'F' {
      assert HEX_DIGITS[c as int - 'A' as int + 16] == c;
    }
  }

  predicate HexOnly(h: string) {
    forall c :: c in h ==> IsHex(c)
  }

  // Every text can be written, all eight characters escaped, so that it is what the body
  // stands for; and four or eight hexadecimal digits stand for the character with that code.
  lemma {:induction false} WrittenDenotes(s: string)
    ensures Denoted(Written(s)) == Some(s)
  {
    hide ShortEscapeOf, Denoted;
    if s == "" {
      NothingDenoted();
    } else {
      WrittenDenotes(s[1..]);
      ShortEscapeDenotes(s[0], Written(s[1..]));
      assert s == [s[0]] + s[1..];
    }
  }

  lemma NothingDenoted()
    ensures Denoted("") == Some("")
  {
  }

  lemma ShortEscapeDenotes(c: char, tail: string)
    requires Denoted(tail).Some?
    ensures Denoted(ShortEscapeOf(c) + tail) == Some([c] + Denoted(tail).value)
  {
    hide EscapeLength, EscapeValue;
    var e := ShortEscapeOf(c);
    var s := e + tail;
    ShortEscapeIs(c, tail);
    assert s[|e|..] == tail;
    if |e| == 2 {
      assert s[..2] == e && s[2..] == tail;
    }
  }

  lemma ShortEscapeIs(c: char, tail: string)
    ensures var e := ShortEscapeOf(c);
            || (e == [c] && c != '\\')
            || (|e| == 2 && e[0] == '\\' && EscapeLength(e + tail) == 2 && EscapeLength(e) == 2 && EscapeValue(e) == c)
  {
  }

  lemma CodeDenotes(letter: char, h: string, rest: string)
    requires (letter == 'u' && |h| == 4) || (letter == 'U' && |h| == 8)
    requires (forall c :: c in h ==> c in HEX_DIGITS) && Denoted(rest).Some?
    ensures HexOnly(h) && Denoted(['\\', letter] + h + rest) == Some([CharOf(HexValue(h))] + Denoted(rest).value)
  {
    hide HexValue, CharOf, IsHex;
    forall c | c in h
      ensures IsHex(c)
    {
      HexDigitsIff(c);
    }
    var s := ['\\', letter] + h + rest;
    var n := |h| + 2;
    assert s[..n] == ['\\', letter] + h && s[n..] == rest;
    assert forall i :: 2 <= i < n ==> s[i] == h[i - 2];
    assert EscapeLength(s) == n;
    EscapeIsOne(s);
    assert s[..n][2..] == h;
  }

  // All escapes are those of a quote, a backslash, a line break or a tab.
  predicate HasShortEscapes(s: string) {
    s == "" || if s[0] == '\\' then |s| > 1 && s[1] in "\\'\"nrt" && HasShortEscapes(s[2..]) else HasShortEscapes(s[1..])
  }

  // The text read is never shorter than what the body stands for.
  lemma {:induction false} UnescapeIsLonger(s: string)
    requires Denoted(s).Some?
    ensures |Unescape(s)| >= |Denoted(s).value|
  {
    hide EscapeLength, EscapeValue;
    if s != "" {
      if s[0] == '\\' {
        EscapeIsOne(s);
        UnescapeIsLonger(s[EscapeLength(s)..]);
        LongEscape(s);
      } else {
        UnescapeIsLonger(s[1..]);
      }
    }
  }

  // A backslash and the letter u or U are dropped and kept, and the digits stay.
  lemma LongEscape(s: string)
    requires s != "" && s[0] == '\\' && EscapeLength(s) > 0
    ensures var n := EscapeLength(s);
            && |Unescape(s)| == n - 1 + |Unescape(s[n..])|
            && (n > 2 <==> s[1] in "uU")
            && (n == 2 ==> Unescape(s) == [Unescaped(s[1])] + Unescape(s[2..]))
  {
    hide IsHex;
    var n := EscapeLength(s);
    var t := s[2..];
    if n > 2 {
      assert forall i :: 0 <= i < n - 2 ==> t[i] == s[i + 2];
      HexIsPlain(t[..n - 2]);
      UnescapePlain(t[..n - 2], t[n - 2..]);
      assert t == t[..n - 2] + t[n - 2..] && t[n - 2..] == s[n..];
    }
  }

  // The parser takes a literal's body for what it stands for exactly when its escapes are
  // short: it keeps the letter of a backspace or form feed, and the letter and the digits
  // of a character written by its code.
  lemma {:induction false} UnescapeIff(s: string)
    requires Denoted(s).Some?
    ensures Unescape(s) == Denoted(s).value <==> HasShortEscapes(s)
  {
    hide EscapeLength, EscapeValue, Unescape, Denoted, HasShortEscapes;
    if s == "" {
      EmptyUnescapes(s);
      NothingDenoted();
      NoEscapes();
    } else if s[0] != '\\' {
      PlainHead(s);
      UnescapeIff(s[1..]);
      SameTail(s[0], Unescape(s[1..]), Denoted(s[1..]).value);
    } else {
      EscapedHead(s);
      var n := EscapeLength(s);
      LongEscape(s);
      UnescapeIsLonger(s[n..]);
      if n == 2 {
        UnescapeIff(s[2..]);
        ShortEscape(s);
        SameTail(Unescaped(s[1]), Unescape(s[2..]), Denoted(s[2..]).value);
        assert Unescape(s)[0] == Unescaped(s[1]) && Denoted(s).value[0] == EscapeValue(s[..2]);
      } else {
        assert |Unescape(s)| > |Denoted(s).value|;
      }
    }
  }

  lemma NoEscapes()
    ensures HasShortEscapes("")
  {
  }

  lemma PlainHead(s: string)
    requires s != "" && s[0] != '\\' && Denoted(s).Some?
    ensures Unescape(s) == [s[0]] + Unescape(s[1..]) && (HasShortEscapes(s) <==> HasShortEscapes(s[1..]))
    ensures Denoted(s[1..]).Some? && Denoted(s).value == [s[0]] + Denoted(s[1..]).value
  {
  }

  lemma EscapedHead(s: string)
    requires s != "" && s[0] == '\\' && Denoted(s).Some?
    ensures EscapeLength(s) > 1 && |s| > 1 && EscapeLength(s[..EscapeLength(s)]) == EscapeLength(s)
    ensures Denoted(s[EscapeLength(s)..]).Some?
    ensures Denoted(s).value == [EscapeValue(s[..EscapeLength(s)])] + Denoted(s[EscapeLength(s)..]).value
    ensures HasShortEscapes(s) <==> s[1] in "\\'\"nrt" && HasShortEscapes(s[2..])
  {
    hide EscapeLength, EscapeValue;
    EscapeIsOne(s);
  }

  lemma SameTail(c: char, a: string, b: string)
    ensures [c] + a == [c] + b <==> a == b
  {
    if [c] + a == [c] + b {
      assert ([c] + a)[1..] == a && ([c] + b)[1..] == b;
    }
  }

  lemma ShortEscape(s: string)
    requires s != "" && s[0] == '\\' && EscapeLength(s) == 2
    ensures |s| > 1 && EscapeLength(s[..2]) == 2 && (EscapeValue(s[..2]) == Unescaped(s[1]) <==> s[1] in "\\'\"nrt")
  {
  }

  // The value the parser gives the literal that the harness writes for s.
  function ReadBack(s: string): Option<string> {
    match LexCypher(CypherBody(s) + "'")
    case Some(r) => if r.rest == "" then Some(Unescape(r.value)) else None
    case None => None
  }

  lemma {:induction false} UnescapePlain(p: string, s: string)
    requires '\\' !in p
    ensures Unescape(p + s) == p + Unescape(s)
  {
    if p == "" {
      assert p + s == s;
    } else {
      assert (p + s)[1..] == p[1..] + s;
      UnescapePlain(p[1..], s);
      assert p == [p[0]] + p[1..];
    }
  }

  lemma EmptyBody()
    ensures CypherBody("") == ""
  {
  }

  lemma CypherBodyStep(s: string)
    requires s != ""
    ensures CypherBody(s) + "'" == Sub(s[0], '\'', "\\'") + (CypherBody(s[1..]) + "'")
  {
    ReplaceOne(s, '\'', "\\'");
  }

  // A character of a literal as the lexer takes it, escape sequence or plain.
  predicate IsToken(tok: string) {
    && tok != ""
    && tok[0] != '\''
    && if tok[0] == '\\' then EscapeLength(tok) == |tok| else |tok| == 1
  }

  lemma TokenLexes(tok: string, tail: string)
    requires IsToken(tok)
    ensures LexCypher(tok + tail) == match LexCypher(tail) case Some(r) => Some(Read(tok + r.value, r.rest)) case None => None
  {
    var text := tok + tail;
    assert text[|tok|..] == tail && text[..|tok|] == tok;
    assert text[0] == tok[0];
    if tok[0] == '\\' {
      assert text[1] == tok[1];
      assert forall i :: 0 <= i < |tok| ==> text[i] == tok[i];
      assert EscapeLength(text) == |tok|;
    }
  }

  lemma UnescapeHead(t: string)
    requires t != ""
    ensures Unescape(t) == if t[0] != '\\' then [t[0]] + Unescape(t[1..])
                           else if |t| == 1 then "\\"
                           else [Unescaped(t[1])] + Unescape(t[2..])
  {
  }

  lemma EscapeIsHex(tok: string)
    requires tok != "" && EscapeLength(tok) == |tok|
    ensures |tok| >= 2 && forall i :: 2 <= i < |tok| ==> IsHex(tok[i])
  {
  }

  lemma TokenUnescapes(tok: string, b: string)
    requires IsToken(tok)
    ensures Unescape(tok + b) == Unescape(tok) + Unescape(b)
    ensures |Unescape(tok)| == if tok[0] == '\\' then |tok| - 1 else 1
    ensures tok[0] != '\\' ==> Unescape(tok) == tok
    ensures tok == "\\'" ==> Unescape(tok) == "'"
  {
    hide Unescape, EscapeLength;
    UnescapeHead(tok);
    UnescapeHead(tok + b);
    EmptyUnescapes("");
    if tok[0] == '\\' {
      EscapeIsHex(tok);
      assert (tok + b)[1] == tok[1] && (tok + b)[2..] == tok[2..] + b;
      assert tok[2..] + "" == tok[2..];
      HexIsPlain(tok[2..]);
      UnescapePlain(tok[2..], b);
      UnescapePlain(tok[2..], "");
    } else {
      assert (tok + b)[1..] == b && tok[1..] == "";
    }
  }

  lemma HexIsPlain(p: string)
    ensures (forall i :: 0 <= i < |p| ==> IsHex(p[i])) ==> '\\' !in p
  {
  }

  // A token at the front of the body reads back by itself.
  lemma ReadBackToken(s: string, tok: string, s': string)
    requires IsToken(tok) && CypherBody(s) + "'" == tok + (CypherBody(s') + "'")
    ensures ReadBack(s) == if ReadBack(s').Some? then Some(Unescape(tok) + ReadBack(s').value) else None
  {
    hide LexCypher, Unescape, CypherBody, IsToken;
    var tail := CypherBody(s') + "'";
    TokenLexes(tok, tail);
    match LexCypher(tail) {
      case Some(r) => TokenUnescapes(tok, r.value);
      case None =>
    }
  }

  // One character other than a backslash reads back as itself.
  lemma ReadBackStep(s: string)
    requires s != "" && s[0] != '\\'
    ensures ReadBack(s) == if ReadBack(s[1..]).Some? then Some([s[0]] + ReadBack(s[1..]).value) else None
  {
    hide ReadBack, Unescape;
    CypherBodyStep(s);
    var tok := Sub(s[0], '\'', "\\'");
    ReadBackToken(s, tok, s[1..]);
    TokenUnescapes(tok, "");
  }

  lemma {:induction false} CypherReads(s: string)
    requires '\\' !in s
    ensures ReadBack(s) == Some(s)
  {
    if s != "" {
      CypherReads(s[1..]);
      ReadBackStep(s);
      assert s == [s[0]] + s[1..];
    }
  }

  lemma {:induction false} HexUnchanged(s: string, n: nat)
    requires n <= |CypherBody(s) + "'"|
    requires forall i :: 0 <= i < n ==> IsHex((CypherBody(s) + "'")[i])
    ensures n <= |s| && (CypherBody(s) + "'")[..n] == s[..n]
    ensures (CypherBody(s) + "'")[n..] == CypherBody(s[n..]) + "'"
  {
    hide CypherBody;
    EmptyBody();
    if n > 0 {
      var text := CypherBody(s) + "'";
      assert IsHex(text[0]);
      assert s != "";
      CypherBodyStep(s);
      assert s[0] != '\'';
      var tail := CypherBody(s[1..]) + "'";
      assert text == [s[0]] + tail && text[1..] == tail;
      assert forall i :: 0 <= i < n - 1 ==> tail[i] == text[i + 1];
      HexUnchanged(s[1..], n - 1);
      assert text[..n] == [s[0]] + tail[..n - 1] && s[..n] == [s[0]] + s[1..][..n - 1];
      assert text[n..] == tail[n - 1..] && s[n..] == s[1..][n - 1..];
    }
  }

  // A backslash before a quote makes the quote end the literal early.
  lemma QuoteEndsEarly(s: string)
    requires |s| >= 2 && s[0] == '\\' && s[1] == '\''
    ensures ReadBack(s).None?
  {
    hide CypherBody, EscapeLength;
    CypherBodyStep(s);
    CypherBodyStep(s[1..]);
    assert s[1..][1..] == s[2..];
    var tail := CypherBody(s[2..]) + "'";
    assert CypherBody(s) + "'" == "\\\\" + ("'" + tail);
    assert IsToken("\\\\") by { BackslashIsToken(); }
    TokenLexes("\\\\", "'" + tail);
    assert ("'" + tail)[1..] == tail;
  }

  lemma BackslashIsToken()
    ensures EscapeLength("\\\\") == 2
  {
  }

  lemma LoneBackslash()
    ensures ReadBack("\\").None?
  {
    CypherBodyStep("\\");
    var text := CypherBody("\\") + "'";
    assert text == "\\'" && text[2..] == "";
  }

  lemma TwoCharacters(s: string)
    requires |s| >= 2 && s[0] == '\\' && s[1] != '\''
    ensures CypherBody(s) + "'" == [s[0], s[1]] + (CypherBody(s[2..]) + "'")
  {
    hide CypherBody;
    CypherBodyStep(s);
    CypherBodyStep(s[1..]);
    assert s[1..][1..] == s[2..];
  }

  lemma EscapeOfPrefix(text: string)
    requires EscapeLength(text) > 0
    ensures var n := EscapeLength(text);
            && n >= 2 && EscapeLength(text[..n]) == n
            && (text[1] == '\\' ==> n == 2)
            && forall i :: 2 <= i < n ==> IsHex(text[i])
  {
  }

  // What the lexer takes for an escape sequence came from as many characters.
  lemma EscapeToken(s: string, n: nat)
    requires |s| >= 2 && s[0] == '\\' && s[1] != '\''
    requires n == EscapeLength(CypherBody(s) + "'") && n > 0
    ensures 1 < n <= |s| && CypherBody(s) + "'" == s[..n] + (CypherBody(s[n..]) + "'") && IsToken(s[..n])
  {
    hide EscapeLength, CypherBody, IsHex;
    var text, tail := CypherBody(s) + "'", CypherBody(s[2..]) + "'";
    TwoCharacters(s);
    EscapeOfPrefix(text);
    assert text[2..] == tail;
    forall i | 0 <= i < n - 2
      ensures IsHex(tail[i])
    {
      assert tail[i] == text[i + 2];
    }
    HexUnchanged(s[2..], n - 2);
    assert s == [s[0], s[1]] + s[2..];
    SamePrefix([s[0], s[1]], tail, s[2..], n - 2);
  }

  lemma SamePrefix(a: string, t: string, u: string, k: nat)
    requires k <= |t| && k <= |u| && t[..k] == u[..k]
    ensures var n := |a| + k;
            && (a + t)[..n] == (a + u)[..n]
            && a + t == (a + u)[..n] + t[k..]
            && (a + u)[n..] == u[k..]
  {
    assert t == t[..k] + t[k..];
  }

  // Read back, if at all, a string is not longer, and shorter if it had a backslash.
  lemma {:induction false} CypherShrinks(s: string)
    ensures ReadBack(s).Some? ==> |ReadBack(s).value| <= |s| && ('\\' in s ==> |ReadBack(s).value| < |s|)
    decreases |s|
  {
    hide LexCypher, Unescape, CypherBody, EscapeLength;
    if s != "" {
      assert s == [s[0]] + s[1..];
      if s[0] != '\\' {
        ReadBackStep(s);
        CypherShrinks(s[1..]);
      } else if |s| > 1 && s[1] == '\'' {
        QuoteEndsEarly(s);
      } else if |s| == 1 {
        assert s == "\\";
        LoneBackslash();
      } else {
        var n := EscapeLength(CypherBody(s) + "'");
        if ReadBack(s).Some? {
          NoEscapeNoRead(s);
          EscapeToken(s, n);
          ReadBackToken(s, s[..n], s[n..]);
          TokenUnescapes(s[..n], "");
          CypherShrinks(s[n..]);
        }
      }
    } else {
      EmptyReadsEmpty();
    }
  }

  lemma NoEscapeNoRead(s: string)
    requires s != "" && s[0] == '\\' && ReadBack(s).Some?
    ensures EscapeLength(CypherBody(s) + "'") > 0
  {
    CypherBodyStep(s);
  }

  lemma EmptyReadsEmpty()
    ensures ReadBack("") == Some("")
  {
  }

  // A string survives the harness and the parser exactly when it has no backslash.
  lemma CypherRoundTripIff(s: string)
    ensures ReadBack(s) == Some(s) <==> '\\' !in s
  {
    if '\\' in s {
      CypherShrinks(s);
    } else {
      CypherReads(s);
    }
  }
}
