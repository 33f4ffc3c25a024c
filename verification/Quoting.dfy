/** C-style quoting of byte strings, the reader that inverts it, and the shape of its output. */
module Quoting {
  import opened Words
  import opened OutBuffer
  import Format

  function EscapeByte(c: u8): string {
    if c == '\\' as int then "\\\\"
    else if c == '\"' as int then "\\\""
    else if c == '\n' as int then "\\n"
    else if c == '\r' as int then "\\r"
    else if c == '\t' as int then "\\t"
    else if 0x20 <= c < 0x7f then [c as char]
    else "\\x" + [Format.Digit(c / 16), Format.Digit(c % 16)]
  }

  function Escape(bytes: seq<u8>): string {
    if bytes == [] then "" else EscapeByte(bytes[0]) + Escape(bytes[1..])
  }

  function Quoted(bytes: seq<u8>, ellipsis: bool): string {
    "\"" + Escape(bytes) + "\"" + if ellipsis then "..." else ""
  }

  lemma {:induction false} EscapeSnoc(bytes: seq<u8>, c: u8)
    ensures Escape(bytes + [c]) == Escape(bytes) + EscapeByte(c)
  {
    hide EscapeByte;
    if bytes == [] {
      assert Escape([c]) == EscapeByte(c) + Escape([]);
    } else {
      EscapeSnoc(bytes[1..], c);
      assert (bytes + [c])[1..] == bytes[1..] + [c];
    }
  }

  method PrintEscaped(o: Out, c: u8)
    requires o.Valid()
    modifies o, o.buf
    ensures o.Valid() && o.text == old(o.text) + EscapeByte(c)
  {
    if c == '\\' as int {
      o.Printf("\\\\");
    } else if c == '\"' as int {
      o.Printf("\\\"");
    } else if c == '\n' as int {
      o.Printf("\\n");
    } else if c == '\r' as int {
      o.Printf("\\r");
    } else if c == '\t' as int {
      o.Printf("\\t");
    } else if c >= 0x20 && c < 0x7f {
      o.Printf([c as char]);
    } else {
      o.Printf("\\x" + [Format.Digit(c / 16), Format.Digit(c % 16)]);
    }
  }

  method PrintQuoted(o: Out, p: seq<u8>, ellipsis: bool)
    requires o.Valid()
    modifies o, o.buf
    ensures o.Valid() && o.text == old(o.text) + Quoted(p, ellipsis)
  {
    hide EscapeByte, Image;
    o.Printf("\"");
    ghost var start := o.text;
    for i := 0 to |p|
      invariant o.Valid() && o.text == start + Escape(p[..i])
    {
      PrintEscaped(o, p[i]);
      EscapeSnoc(p[..i], p[i]);
      assert p[..i + 1] == p[..i] + [p[i]];
    }
    assert p[..|p|] == p;
    o.Printf("\"");
    if ellipsis {
      o.Printf("...");
    }
  }

  // ----- reading the text back -----

  datatype Reading = Reading(bytes: seq<u8>, rest: string)

  // One byte and what follows it; None for a malformed escape.
  function ReadByte(s: string): Option<(u8, string)>
    requires s != []
  {
    if s[0] != '\\' then
      if s[0] < 0x7f as char then Some((s[0] as int, s[1..])) else None
    else if |s| < 2 then None
    else if s[1] == '\\' || s[1] == '\"' then Some((s[1] as int, s[2..]))
    else if s[1] == 'n' then Some(('\n' as int, s[2..]))
    else if s[1] == 'r' then Some(('\r' as int, s[2..]))
    else if s[1] == 't' then Some(('\t' as int, s[2..]))
    else if s[1] == 'x' && |s| >= 4 then
      match (Format.DigitValue(s[2]), Format.DigitValue(s[3]))
      case (Some(h), Some(l)) => if h < 16 && l < 16 then Some((h * 16 + l, s[4..])) else None
      case _ => None
    else None
  }

  // The bytes before the closing quote, and the text after it.
  function ReadEscaped(s: string): Option<Reading>
    decreases |s|
  {
    if s == [] then None
    else if s[0] == '\"' then Some(Reading([], s[1..]))
    else
      match ReadByte(s)
      case None => None
      case Some((c, rest)) =>
        match ReadEscaped(rest)
        case None => None
        case Some(r) => Some(Reading([c] + r.bytes, r.rest))
  }

  function ReadQuoted(s: string): Option<Reading> {
    if s != [] && s[0] == '\"' then ReadEscaped(s[1..]) else None
  }

  lemma ReadOfEscapeByte(c: u8, rest: string)
    ensures EscapeByte(c) != [] && EscapeByte(c)[0] != '\"'
    ensures ReadByte(EscapeByte(c) + rest) == Some((c, rest))
  {
    var s := EscapeByte(c) + rest;
    Format.DigitIsDigit(c / 16);
    Format.DigitIsDigit(c % 16);
    assert s[|EscapeByte(c)|..] == rest;
  }

  lemma {:induction false} ReadOfEscape(bytes: seq<u8>, rest: string)
    ensures ReadEscaped(Escape(bytes) + "\"" + rest) == Some(Reading(bytes, rest))
  {
    hide EscapeByte, ReadByte;
    if bytes == [] {
      assert ("\"" + rest)[1..] == rest;
      assert Escape(bytes) + "\"" + rest == "\"" + rest;
    } else {
      var tail := Escape(bytes[1..]) + "\"" + rest;
      ReadOfEscapeByte(bytes[0], tail);
      ReadOfEscape(bytes[1..], rest);
      var s := EscapeByte(bytes[0]) + tail;
      assert Escape(bytes) + "\"" + rest == s;
      assert s[0] == EscapeByte(bytes[0])[0];
      assert [bytes[0]] + bytes[1..] == bytes;
    }
  }

  // Quoting is invertible whatever text follows the closing quote.
  lemma ReadOfQuoted(bytes: seq<u8>, ellipsis: bool, rest: string)
    ensures ReadQuoted(Quoted(bytes, ellipsis) + rest)
         == Some(Reading(bytes, (if ellipsis then "..." else "") + rest))
  {
    var tail := (if ellipsis then "..." else "") + rest;
    var s := Quoted(bytes, ellipsis) + rest;
    assert s == "\"" + (Escape(bytes) + "\"" + tail);
    assert s[1..] == Escape(bytes) + "\"" + tail;
    ReadOfEscape(bytes, tail);
  }

  lemma QuotedIsInjective(a: seq<u8>, b: seq<u8>, e: bool, f: bool)
    requires Quoted(a, e) == Quoted(b, f)
    ensures a == b && e == f
  {
    ReadOfQuoted(a, e, "");
    ReadOfQuoted(b, f, "");
  }

  // ----- the shape of the text -----

  // Position of the first double quote that no backslash precedes as its escape.
  function ClosingQuote(s: string): nat
    decreases |s|
  {
    if s == [] || s[0] == '\"' then 0
    else if s[0] == '\\' && |s| >= 2 then 2 + ClosingQuote(s[2..])
    else 1 + ClosingQuote(s[1..])
  }

  lemma ClosingQuoteSkipsPlain(c: char, rest: string)
    requires c != '\"' && c != '\\'
    ensures ClosingQuote([c] + rest) == 1 + ClosingQuote(rest)
  {
    assert ([c] + rest)[1..] == rest;
  }

  lemma ClosingQuoteSkipsPair(c: char, rest: string)
    ensures ClosingQuote(['\\', c] + rest) == 2 + ClosingQuote(rest)
  {
    assert (['\\', c] + rest)[2..] == rest;
  }

  lemma ClosingQuoteSkips(c: u8, rest: string)
    ensures ClosingQuote(EscapeByte(c) + rest) == |EscapeByte(c)| + ClosingQuote(rest)
  {
    var e := EscapeByte(c);
    if |e| == 1 {
      ClosingQuoteSkipsPlain(e[0], rest);
    } else if |e| == 2 {
      ClosingQuoteSkipsPair(e[1], rest);
    } else {
      Format.DigitIsDigit(c / 16);
      Format.DigitIsDigit(c % 16);
      assert e + rest == [e[0], e[1]] + ([e[2]] + ([e[3]] + rest));
      ClosingQuoteSkipsPair(e[1], [e[2]] + ([e[3]] + rest));
      ClosingQuoteSkipsPlain(e[2], [e[3]] + rest);
      ClosingQuoteSkipsPlain(e[3], rest);
    }
  }

  lemma {:induction false} ClosingQuoteCloses(bytes: seq<u8>, rest: string)
    ensures ClosingQuote(Escape(bytes) + "\"" + rest) == |Escape(bytes)|
  {
    if bytes == [] {
      assert (Escape(bytes) + "\"" + rest)[0] == '\"';
    } else {
      var tail := Escape(bytes[1..]) + "\"" + rest;
      assert Escape(bytes) + "\"" + rest == EscapeByte(bytes[0]) + tail;
      ClosingQuoteSkips(bytes[0], tail);
      ClosingQuoteCloses(bytes[1..], rest);
    }
  }

  predicate Printable(s: string) {
    forall c :: c in s ==> ' ' <= c <= '~'
  }

  lemma EscapeByteShape(c: u8)
    ensures Printable(EscapeByte(c)) && 1 <= |EscapeByte(c)| <= 4
  {
    Format.DigitIsDigit(c / 16);
    Format.DigitIsDigit(c % 16);
  }

  lemma {:induction false} EscapeShape(bytes: seq<u8>)
    ensures Printable(Escape(bytes))
    ensures |bytes| <= |Escape(bytes)| <= 4 * |bytes|
  {
    if bytes != [] {
      EscapeByteShape(bytes[0]);
      EscapeShape(bytes[1..]);
    }
  }

  lemma QuotedShape(bytes: seq<u8>, ellipsis: bool)
    ensures Printable(Quoted(bytes, ellipsis))
    ensures
      var dots := if ellipsis then 3 else 0;
      |bytes| + 2 + dots <= |Quoted(bytes, ellipsis)| <= 4 * |bytes| + 2 + dots
  {
    EscapeShape(bytes);
  }

  // ----- no shorter printable text denotes the same bytes -----

  lemma ReadByteConsumes(s: string, c: u8, rest: string)
    requires s != "" && ReadByte(s) == Some((c, rest))
    ensures
      var n := if s[0] != '\\' then 1 else if s[1] == 'x' then 4 else 2;
      && (s[0] == '\\' ==> |s| >= 2) && n <= |s| && rest == s[n..]
  {
  }

  lemma HexEscape(s: string, c: u8)
    requires |s| == 4 && s[0] == '\\' && s[1] == 'x' && ReadByte(s) == Some((c, ""))
    ensures s == "\\x" + [Format.Digit(c / 16), Format.Digit(c % 16)]
  {
    Format.DigitOfValue(s[2]);
    Format.DigitOfValue(s[3]);
  }

  // What is read for one byte is no shorter than what is printed for it.
  lemma EscapeByteIsShortest(s: string, c: u8)
    requires s != "" && Printable(s) && s[0] != '\"' && ReadByte(s) == Some((c, ""))
    ensures |EscapeByte(c)| <= |s| && (|EscapeByte(c)| == |s| ==> s == EscapeByte(c))
  {
    ReadByteConsumes(s, c, "");
    if |s| == 4 {
      HexEscape(s, c);
    } else if |s| == 2 {
      assert s == [s[0], s[1]];
    } else {
      assert s[0] in s && s == [s[0]];
    }
  }

  lemma ReadByteAlone(s: string, c: u8, rest: string)
    requires s != "" && ReadByte(s) == Some((c, rest))
    ensures |rest| < |s| && ReadByte(s[..|s| - |rest|]) == Some((c, "")) && s == s[..|s| - |rest|] + rest
  {
    ReadByteConsumes(s, c, rest);
    var n := |s| - |rest|;
    assert s[..n][n..] == "" && forall k :: 0 <= k < n ==> s[..n][k] == s[k];
  }

  lemma ReadByteCosts(s: string, c: u8, rest: string)
    requires s != "" && Printable(s) && s[0] != '\"' && ReadByte(s) == Some((c, rest))
    ensures Printable(rest) && |rest| < |s| && |rest| + |EscapeByte(c)| <= |s|
    ensures |rest| + |EscapeByte(c)| == |s| ==> s == EscapeByte(c) + rest
  {
    ReadByteAlone(s, c, rest);
    var one := s[..|s| - |rest|];
    assert forall k :: k in one || k in rest ==> k in s;
    hide EscapeByte, ReadByte;
    EscapeByteIsShortest(one, c);
  }

  lemma {:induction false} EscapeIsShortest(s: string, bytes: seq<u8>)
    requires Printable(s) && ReadEscaped(s) == Some(Reading(bytes, ""))
    ensures |Escape(bytes)| + 1 <= |s|
    ensures |Escape(bytes)| + 1 == |s| ==> s == Escape(bytes) + "\""
    decreases |s|
  {
    hide EscapeByte, ReadByte, Printable;
    if s[0] == '\"' {
      assert s == [s[0]] + s[1..];
    } else {
      var (c, rest) := ReadByte(s).value;
      var r := ReadEscaped(rest).value;
      assert bytes[0] == c && bytes[1..] == r.bytes && bytes == [c] + r.bytes;
      ReadByteCosts(s, c, rest);
      EscapeIsShortest(rest, r.bytes);
      assert EscapeByte(c) + (Escape(r.bytes) + "\"") == Escape(bytes) + "\"";
    }
  }

  // Every printable text that reads as these bytes is at least as long, and the only one of that length
  // is the one printed: a byte is shown as itself when it can be, else by its letter, else by its two digits.
  lemma QuotedIsShortest(s: string, bytes: seq<u8>)
    requires Printable(s) && ReadQuoted(s) == Some(Reading(bytes, ""))
    ensures |Quoted(bytes, false)| <= |s|
    ensures |Quoted(bytes, false)| == |s| ==> s == Quoted(bytes, false)
  {
    assert forall c :: c in s[1..] ==> c in s;
    EscapeIsShortest(s[1..], bytes);
    assert s == "\"" + s[1..];
    assert "\"" + (Escape(bytes) + "\"") == Quoted(bytes, false);
  }

  predicate IsPlain(c: u8) {
    0x20 <= c < 0x7f && c != 0x22 && c != 0x5c
  }

  function AsChars(bytes: seq<u8>): (s: string)
    ensures |s| == |bytes|
  {
    seq(|bytes|, i requires 0 <= i < |bytes| => bytes[i] as char)
  }

  // Printable bytes other than the quote and the backslash appear as themselves.
  lemma {:induction false} PlainBytesAppear(bytes: seq<u8>)
    requires forall c :: c in bytes ==> IsPlain(c)
    ensures Escape(bytes) == AsChars(bytes)
    ensures Quoted(bytes, false) == "\"" + AsChars(bytes) + "\""
  {
    if bytes != [] {
      PlainBytesAppear(bytes[1..]);
      assert IsPlain(bytes[0]);
      assert AsChars(bytes) == [bytes[0] as char] + AsChars(bytes[1..]);
    }
    assert Quoted(bytes, false) == "\"" + Escape(bytes) + "\"" + "";
  }
}
