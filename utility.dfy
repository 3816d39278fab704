/**
 * PDFUtility: the stateless string helpers of the kit. Character classes
 * follow section 7.2.2 of ISO 32000-1 (Table 1 white space, Table 2
 * delimiters), names follow section 7.3.5, literal strings section 7.3.4
 * and numbers section 7.3.3.
 */
module Utility {
  import opened Wrappers
  import opened Primitives

  // ---------------------------------------------------------------------
  // Character classes
  // ---------------------------------------------------------------------

  /** Table 1 of ISO 32000-1: NUL, HORIZONTAL TAB, LINE FEED, FORM FEED,
      CARRIAGE RETURN and SPACE. */
  predicate IsWhiteSpace(c: char)
  {
    c == 0 as char || c == 9 as char || c == 10 as char ||
    c == 12 as char || c == 13 as char || c == 32 as char
  }

  /** An end-of-line marker ends a comment (section 7.2.3). */
  predicate IsEndOfLine(c: char)
  {
    c == 10 as char || c == 13 as char
  }

  /** Table 2 of ISO 32000-1: the ten delimiter characters. */
  predicate IsDelimiter(c: char)
  {
    c == '(' || c == ')' || c == '<' || c == '>' || c == '[' ||
    c == ']' || c == '{' || c == '}' || c == '/' || c == '%'
  }

  /** A regular character is neither white space nor a delimiter. */
  predicate IsRegular(c: char)
  {
    !IsWhiteSpace(c) && !IsDelimiter(c)
  }

  predicate IsAscii(s: string)
  {
    forall i :: 0 <= i < |s| ==> s[i] as int < 0x80
  }

  /** A concatenation is ASCII exactly when both parts are. */
  lemma AsciiConcat(a: string, b: string)
    ensures IsAscii(a + b) <==> IsAscii(a) && IsAscii(b)
  {
    if IsAscii(a + b) {
      forall i | 0 <= i < |a| ensures a[i] as int < 0x80 {
        assert (a + b)[i] == a[i];
      }
      forall i | 0 <= i < |b| ensures b[i] as int < 0x80 {
        assert (a + b)[|a| + i] == b[i];
      }
    }
    if IsAscii(a) && IsAscii(b) {
      forall i | 0 <= i < |a + b| ensures (a + b)[i] as int < 0x80 {
        if i >= |a| {
          assert (a + b)[i] == b[i - |a|];
        }
      }
    }
  }

  /** whiteSpaceCharacterSet: exactly the six characters of Table 1. */
  function WhiteSpaceCharacterSet(): (r: set<char>)
    ensures forall c :: c in r <==> IsWhiteSpace(c)
    ensures |r| == 6
  {
    {0 as char, 9 as char, 10 as char, 12 as char, 13 as char, 32 as char}
  }

  // ---------------------------------------------------------------------
  // stringReplacingWhiteSpaceWithSingleSpace
  // ---------------------------------------------------------------------

  /** The shape of a collapsed string: the only white space left is SP,
      no comment starts in it, and no two spaces are adjacent. */
  predicate Collapsed(r: string)
  {
    && (forall i :: 0 <= i < |r| ==> IsWhiteSpace(r[i]) ==> r[i] == ' ')
    && (forall i :: 0 <= i < |r| ==> r[i] != '%')
    && (forall i :: 0 <= i < |r| - 1 ==> !(r[i] == ' ' && r[i + 1] == ' '))
  }

  /**
   * Scans s, writing one SP for each maximal run of white space and
   * comments. inRun: a run is open and its SP is already written;
   * inComment: the scan is inside a comment ('%' up to the end of line).
   */
  function Collapse(s: string, inRun: bool, inComment: bool): (r: string)
    requires inComment ==> inRun
    ensures Collapsed(r)
    ensures inRun && |r| > 0 ==> r[0] != ' '
    decreases |s|
  {
    if s == [] then []
    else if inComment && !IsEndOfLine(s[0]) then Collapse(s[1..], true, true)
    else if s[0] == '%' || IsWhiteSpace(s[0]) then
      (if inRun then [] else [' ']) + Collapse(s[1..], true, s[0] == '%')
    else [s[0]] + Collapse(s[1..], false, false)
  }

  /** stringReplacingWhiteSpaceWithSingleSpace: every run of white space
      and comments becomes one SP (32). */
  function StringReplacingWhiteSpaceWithSingleSpace(s: string): (r: string)
    ensures Collapsed(r)
  {
    Collapse(s, false, false)
  }

  /** Reference definition: s with the text of every comment removed
      (from '%' up to, not including, the end-of-line marker). */
  function StripComments(s: string, inComment: bool): string
    decreases |s|
  {
    if s == [] then []
    else if inComment && !IsEndOfLine(s[0]) then StripComments(s[1..], true)
    else if !inComment && s[0] == '%' then StripComments(s[1..], true)
    else [s[0]] + StripComments(s[1..], false)
  }

  /** Reference definition: the characters of s that are not white space, in order. */
  function NonWhiteSpace(s: string): string
  {
    if s == [] then []
    else (if IsWhiteSpace(s[0]) then [] else [s[0]]) + NonWhiteSpace(s[1..])
  }

  lemma {:induction false} CollapseKeepsText(s: string, inRun: bool, inComment: bool)
    requires inComment ==> inRun
    ensures NonWhiteSpace(Collapse(s, inRun, inComment)) == NonWhiteSpace(StripComments(s, inComment))
    decreases |s|
  {
    if s == [] {
    } else if inComment && !IsEndOfLine(s[0]) {
      CollapseKeepsText(s[1..], true, true);
    } else if s[0] == '%' || IsWhiteSpace(s[0]) {
      var rest := Collapse(s[1..], true, s[0] == '%');
      CollapseKeepsText(s[1..], true, s[0] == '%');
      if inRun {
        assert Collapse(s, inRun, inComment) == rest;
      } else {
        assert Collapse(s, inRun, inComment) == [' '] + rest;
        assert ([' '] + rest)[1..] == rest;
      }
      if s[0] != '%' {
        var t := StripComments(s[1..], false);
        assert StripComments(s, inComment) == [s[0]] + t;
        assert ([s[0]] + t)[1..] == t;
      }
    } else {
      CollapseKeepsText(s[1..], false, false);
      var rest := Collapse(s[1..], false, false);
      assert ([s[0]] + rest)[1..] == rest;
      var t := StripComments(s[1..], false);
      assert ([s[0]] + t)[1..] == t;
    }
  }

  /** Comments do not survive and every other non-white-space character
      is kept, in its original order. */
  lemma StringReplacingKeepsText(s: string)
    ensures NonWhiteSpace(StringReplacingWhiteSpaceWithSingleSpace(s))
         == NonWhiteSpace(StripComments(s, false))
  {
    CollapseKeepsText(s, false, false);
  }

  lemma {:induction false} CollapseFixesCollapsed(r: string, inRun: bool)
    requires Collapsed(r)
    requires inRun && |r| > 0 ==> r[0] != ' '
    ensures Collapse(r, inRun, false) == r
    decreases |r|
  {
    if r != [] {
      assert Collapsed(r[1..]) by {
        forall i | 0 <= i < |r[1..]| - 1
          ensures !(r[1..][i] == ' ' && r[1..][i + 1] == ' ')
        {
          assert r[1..][i] == r[i + 1] && r[1..][i + 1] == r[i + 2];
        }
      }
      if r[0] == ' ' {
        assert |r| > 1 ==> r[1] != ' ';
        CollapseFixesCollapsed(r[1..], true);
      } else {
        CollapseFixesCollapsed(r[1..], false);
      }
      assert [r[0]] + r[1..] == r;
    }
  }

  /** Collapsing is idempotent. */
  lemma StringReplacingIsIdempotent(s: string)
    ensures StringReplacingWhiteSpaceWithSingleSpace(StringReplacingWhiteSpaceWithSingleSpace(s))
         == StringReplacingWhiteSpaceWithSingleSpace(s)
  {
    CollapseFixesCollapsed(StringReplacingWhiteSpaceWithSingleSpace(s), false);
  }

  /** Reference definition: s with each white-space character and each
      comment (from '%' up to the end-of-line marker) replaced by one SP. */
  function Spaced(s: string, inComment: bool): string
    decreases |s|
  {
    if s == [] then []
    else if inComment && !IsEndOfLine(s[0]) then Spaced(s[1..], true)
    else if s[0] == '%' then [' '] + Spaced(s[1..], true)
    else if IsWhiteSpace(s[0]) then [' '] + Spaced(s[1..], false)
    else [s[0]] + Spaced(s[1..], false)
  }

  /** Reference definition: t with every SP that follows an SP dropped. */
  function Squash(t: string, afterSpace: bool): string
    decreases |t|
  {
    if t == [] then []
    else if t[0] == ' ' then (if afterSpace then [] else [' ']) + Squash(t[1..], true)
    else [t[0]] + Squash(t[1..], false)
  }

  lemma {:induction false} CollapseIsSquashedSpacing(s: string, inRun: bool, inComment: bool)
    requires inComment ==> inRun
    ensures Collapse(s, inRun, inComment) == Squash(Spaced(s, inComment), inRun)
    decreases |s|
  {
    if s == [] {
    } else if inComment && !IsEndOfLine(s[0]) {
      CollapseIsSquashedSpacing(s[1..], true, true);
    } else if s[0] == '%' || IsWhiteSpace(s[0]) {
      var next := s[0] == '%';
      CollapseIsSquashedSpacing(s[1..], true, next);
      var t := Spaced(s[1..], next);
      assert Spaced(s, inComment) == [' '] + t;
      assert ([' '] + t)[1..] == t;
    } else {
      CollapseIsSquashedSpacing(s[1..], false, false);
      var t := Spaced(s[1..], false);
      assert Spaced(s, inComment) == [s[0]] + t;
      assert ([s[0]] + t)[1..] == t;
    }
  }

  /** Each white-space character and each comment becomes one SP, and then
      each sequence of SPs becomes a single SP: the result is exactly that. */
  lemma StringReplacingIsSpacedThenSquashed(s: string)
    ensures StringReplacingWhiteSpaceWithSingleSpace(s) == Squash(Spaced(s, false), false)
  {
    CollapseIsSquashedSpacing(s, false, false);
  }

  // ---------------------------------------------------------------------
  // Bytes: UTF-8, hexadecimal and octal digits
  // ---------------------------------------------------------------------

  function ToByte(n: int): (b: byte)
    requires 0 <= n < 256
    ensures b as int == n
  {
    n as byte
  }

  /** A UTF-8 continuation byte carrying the low six bits of n. */
  function Continuation(n: nat): (b: byte)
    ensures 0x80 <= b as int < 0xC0
  {
    ToByte(0x80 + n % 0x40)
  }

  /** The UTF-8 bytes of one character: the bytes a name or string
      character stands for once it is written to the file. */
  function Utf8(c: char): (bs: seq<byte>)
    ensures 1 <= |bs| <= 4
    ensures c as int < 0x80 ==> bs == [ToByte(c as int)]
    ensures c as int >= 0x80 ==> forall i :: 0 <= i < |bs| ==> bs[i] as int >= 0x80
  {
    var n := c as int;
    if n < 0x80 then [ToByte(n)]
    else if n < 0x800 then
      assert n / 0x40 < 0x20;
      [ToByte(0xC0 + n / 0x40), Continuation(n)]
    else if n < 0x10000 then
      assert n / 0x1000 < 0x10;
      [ToByte(0xE0 + n / 0x1000), Continuation(n / 0x40), Continuation(n)]
    else
      assert n / 0x40000 < 5;
      [ToByte(0xF0 + n / 0x40000), Continuation(n / 0x1000), Continuation(n / 0x40), Continuation(n)]
  }

  function Utf8String(s: string): seq<byte>
  {
    if s == [] then [] else Utf8(s[0]) + Utf8String(s[1..])
  }

  /** Prefixes a decoded byte sequence; a failed decoding stays failed. */
  function Prepend(bs: seq<byte>, o: Option<seq<byte>>): Option<seq<byte>>
  {
    if o.Some? then Some(bs + o.value) else None
  }

  function HexValue(c: char): (r: Option<nat>)
    ensures r.Some? ==> r.value < 16
  {
    if '0' <= c <= '9' then Some(c as int - '0' as int)
    else if 'A' <= c <= 'F' then Some(c as int - 'A' as int + 10)
    else if 'a' <= c <= 'f' then Some(c as int - 'a' as int + 10)
    else None
  }

  function HexDigit(n: nat): (c: char)
    requires n < 16
    ensures HexValue(c) == Some(n)
    ensures IsRegular(c) && c as int < 0x80
  {
    if n < 10 then ('0' as int + n) as char else ('A' as int + n - 10) as char
  }

  function OctalValue(c: char): (r: Option<nat>)
    ensures r.Some? ==> r.value < 8
  {
    if '0' <= c <= '7' then Some(c as int - '0' as int) else None
  }

  function OctalDigit(n: nat): (c: char)
    requires n < 8
    ensures OctalValue(c) == Some(n)
    ensures '0' <= c <= '7'
  {
    ('0' as int + n) as char
  }

  // ---------------------------------------------------------------------
  // pdfEncodedString: names (section 7.3.5)
  // ---------------------------------------------------------------------

  /** Characters written as #XX: everything outside '!'..'~' (white space
      among them), the delimiters, and '#' itself. */
  predicate NeedsEscape(c: char)
  {
    c as int < 0x21 || c as int > 0x7E || IsDelimiter(c) || c == '#'
  }

  /** Each byte as '#' followed by two hexadecimal digits. */
  function HashEscapes(bs: seq<byte>): (r: string)
    ensures |r| == 3 * |bs|
    ensures forall i :: 0 <= i < |r| ==> IsRegular(r[i]) && r[i] as int < 0x80
  {
    if bs == [] then []
    else ['#', HexDigit(bs[0] as int / 16), HexDigit(bs[0] as int % 16)] + HashEscapes(bs[1..])
  }

  function EncodeNameChar(c: char): (r: string)
    ensures forall i :: 0 <= i < |r| ==> IsRegular(r[i]) && r[i] as int < 0x80
  {
    if NeedsEscape(c) then HashEscapes(Utf8(c)) else [c]
  }

  /** pdfEncodedString: the text of a name with every character that may
      not stand for itself written as #XX escapes of its UTF-8 bytes. */
  function PdfEncodedString(s: string): (r: string)
    ensures forall i :: 0 <= i < |r| ==> IsRegular(r[i]) && r[i] as int < 0x80
  {
    if s == [] then [] else EncodeNameChar(s[0]) + PdfEncodedString(s[1..])
  }

  /** How a reader turns the characters after '/' back into the name's bytes. */
  function DecodeName(t: string): Option<seq<byte>>
    decreases |t|
  {
    if t == [] then Some([])
    else if t[0] == '#' then
      if |t| >= 3 && HexValue(t[1]).Some? && HexValue(t[2]).Some? then
        Prepend([ToByte(HexValue(t[1]).value * 16 + HexValue(t[2]).value)], DecodeName(t[3..]))
      else None
    else if IsRegular(t[0]) && t[0] as int < 0x80 then
      Prepend([ToByte(t[0] as int)], DecodeName(t[1..]))
    else None
  }

  lemma PrependTwice(a: seq<byte>, b: seq<byte>, o: Option<seq<byte>>)
    ensures Prepend(a, Prepend(b, o)) == Prepend(a + b, o)
  {
    if o.Some? {
      assert a + (b + o.value) == (a + b) + o.value;
    }
  }

  lemma DecodeHashEscape(b: byte, tail: string)
    ensures DecodeName(['#', HexDigit(b as int / 16), HexDigit(b as int % 16)] + tail)
         == Prepend([b], DecodeName(tail))
  {
    var t := ['#', HexDigit(b as int / 16), HexDigit(b as int % 16)] + tail;
    assert t[3..] == tail;
    assert ToByte(b as int / 16 * 16 + b as int % 16) == b;
  }

  lemma {:induction false} DecodeHashEscapes(bs: seq<byte>, rest: string)
    ensures DecodeName(HashEscapes(bs) + rest) == Prepend(bs, DecodeName(rest))
  {
    if bs == [] {
      assert HashEscapes(bs) + rest == rest;
      var d := DecodeName(rest);
      if d.Some? {
        assert bs + d.value == d.value;
      }
    } else {
      var b := bs[0];
      var tail := HashEscapes(bs[1..]) + rest;
      assert HashEscapes(bs) + rest == ['#', HexDigit(b as int / 16), HexDigit(b as int % 16)] + tail;
      DecodeHashEscape(b, tail);
      DecodeHashEscapes(bs[1..], rest);
      PrependTwice([b], bs[1..], DecodeName(rest));
      assert [b] + bs[1..] == bs;
    }
  }

  /** Reading back an encoded name yields exactly the UTF-8 bytes of the original. */
  lemma {:induction false} NameRoundTrip(s: string)
    ensures DecodeName(PdfEncodedString(s)) == Some(Utf8String(s))
  {
    if s != [] {
      var rest := PdfEncodedString(s[1..]);
      NameRoundTrip(s[1..]);
      if NeedsEscape(s[0]) {
        DecodeHashEscapes(Utf8(s[0]), rest);
      } else {
        assert ([s[0]] + rest)[1..] == rest;
      }
    }
  }

  // ---------------------------------------------------------------------
  // Literal strings (section 7.3.4)
  // ---------------------------------------------------------------------

  /** Each byte as a backslash and three octal digits. */
  function OctalEscapes(bs: seq<byte>): (r: string)
    ensures |r| == 4 * |bs|
    ensures IsAscii(r)
  {
    if bs == [] then []
    else
      OctalEscape(bs[0]) + OctalEscapes(bs[1..])
  }

  function EscapeLiteralChar(c: char): (r: string)
    ensures IsAscii(r)
  {
    if c == '(' || c == ')' || c == '\\' then ['\\', c]
    else if c == 13 as char then ['\\', 'r']
    else if c as int < 0x80 then [c]
    else OctalEscapes(Utf8(c))
  }

  /** The body of a literal string: parentheses and backslash escaped,
      CR as \r, non-ASCII characters as \ddd escapes of their UTF-8 bytes. */
  function EscapeLiteral(s: string): (r: string)
    ensures IsAscii(r)
  {
    if s == [] then [] else EscapeLiteralChar(s[0]) + EscapeLiteral(s[1..])
  }

  /** The byte a backslash escape at the start of t stands for (Table 3
      of ISO 32000-1, octal escapes with exactly three digits), with the
      number of characters the escape takes. */
  function EscapedByte(t: string): (r: Option<(byte, nat)>)
    requires |t| >= 1 && t[0] == '\\'
    ensures r.Some? ==> 2 <= r.value.1 <= |t|
  {
    if |t| < 2 then None
    else if t[1] == '(' || t[1] == ')' || t[1] == '\\' then Some((ToByte(t[1] as int), 2))
    else if t[1] == 'n' then Some((10, 2))
    else if t[1] == 'r' then Some((13, 2))
    else if t[1] == 't' then Some((9, 2))
    else if t[1] == 'b' then Some((8, 2))
    else if t[1] == 'f' then Some((12, 2))
    else if |t| >= 4 && OctalValue(t[1]).Some? && OctalValue(t[2]).Some? && OctalValue(t[3]).Some? then
      var v := OctalValue(t[1]).value * 64 + OctalValue(t[2]).value * 8 + OctalValue(t[3]).value;
      if v < 256 then Some((ToByte(v), 4)) else None
    else None
  }

  /** How a reader turns the body of a literal string into bytes: the
      escapes of EscapedByte, and a bare CR or CR LF read as LF. */
  function DecodeLiteral(t: string): Option<seq<byte>>
    decreases |t|
  {
    if t == [] then Some([])
    else if t[0] == '\\' then
      match EscapedByte(t)
      case Some((b, n)) => Prepend([b], DecodeLiteral(t[n..]))
      case None => None
    else if t[0] == 13 as char then
      Prepend([10], DecodeLiteral(if |t| >= 2 && t[1] == 10 as char then t[2..] else t[1..]))
    else if t[0] as int < 0x80 then Prepend([ToByte(t[0] as int)], DecodeLiteral(t[1..]))
    else None
  }

  /** The four characters OctalEscapes writes for one byte. */
  function OctalEscape(b: byte): (r: string)
    ensures |r| == 4 && r[0] == '\\'
  {
    var n := b as int;
    ['\\', OctalDigit(n / 64), OctalDigit(n / 8 % 8), OctalDigit(n % 8)]
  }

  /** Three octal digits after a backslash read as the byte they spell. */
  lemma EscapedOctalDigits(t: string, d1: nat, d2: nat, d3: nat)
    requires d1 < 4 && d2 < 8 && d3 < 8
    requires |t| >= 4 && t[0] == '\\'
    requires t[1] == OctalDigit(d1) && t[2] == OctalDigit(d2) && t[3] == OctalDigit(d3)
    ensures EscapedByte(t) == Some((ToByte(d1 * 64 + d2 * 8 + d3), 4))
  {
    assert '0' <= t[1] <= '7';
  }

  lemma OctalEscapeReadsBack(b: byte, tail: string)
    ensures EscapedByte(OctalEscape(b) + tail) == Some((b, 4))
  {
    var n := b as int;
    var e := OctalEscape(b);
    var t := e + tail;
    var d1, d2, d3 := n / 64, n / 8 % 8, n % 8;
    OctalSplit(n);
    assert e[1] == OctalDigit(d1) && e[2] == OctalDigit(d2) && e[3] == OctalDigit(d3);
    assert t[1] == e[1] && t[2] == e[2] && t[3] == e[3];
    EscapedOctalDigits(t, d1, d2, d3);
    assert d1 * 64 + d2 * 8 + d3 == n;
  }

  lemma DecodeOctalEscape(b: byte, tail: string)
    ensures DecodeLiteral(OctalEscape(b) + tail) == Prepend([b], DecodeLiteral(tail))
  {
    var t := OctalEscape(b) + tail;
    OctalEscapeReadsBack(b, tail);
    assert t[4..] == tail;
  }

  lemma OctalSplit(n: nat)
    requires n < 256
    ensures n / 64 < 4
    ensures n / 64 * 64 + n / 8 % 8 * 8 + n % 8 == n
  {
  }

  lemma {:induction false} DecodeOctalEscapes(bs: seq<byte>, rest: string)
    ensures DecodeLiteral(OctalEscapes(bs) + rest) == Prepend(bs, DecodeLiteral(rest))
  {
    if bs == [] {
      assert OctalEscapes(bs) + rest == rest;
      var d := DecodeLiteral(rest);
      if d.Some? {
        assert bs + d.value == d.value;
      }
    } else {
      var b := bs[0];
      var tail := OctalEscapes(bs[1..]) + rest;
      assert OctalEscapes(bs) + rest == OctalEscape(b) + tail;
      DecodeOctalEscape(b, tail);
      DecodeOctalEscapes(bs[1..], rest);
      PrependTwice([b], bs[1..], DecodeLiteral(rest));
      assert [b] + bs[1..] == bs;
    }
  }

  /** Reading back an escaped literal string yields exactly the UTF-8 bytes of the original. */
  lemma {:induction false} LiteralRoundTrip(s: string)
    ensures DecodeLiteral(EscapeLiteral(s)) == Some(Utf8String(s))
  {
    if s != [] {
      var c := s[0];
      var rest := EscapeLiteral(s[1..]);
      LiteralRoundTrip(s[1..]);
      if c == '(' || c == ')' || c == '\\' || c == 13 as char {
        assert (EscapeLiteralChar(c) + rest)[2..] == rest;
      } else if c as int < 0x80 {
        assert ([c] + rest)[1..] == rest;
      } else {
        DecodeOctalEscapes(Utf8(c), rest);
      }
    }
  }

  // ---------------------------------------------------------------------
  // Numbers (section 7.3.3)
  // ---------------------------------------------------------------------

  predicate IsDigit(c: char)
  {
    '0' <= c <= '9'
  }

  predicate AllDigits(s: string)
  {
    forall i :: 0 <= i < |s| ==> IsDigit(s[i])
  }

  function DigitChar(d: nat): (c: char)
    requires d < 10
    ensures IsDigit(c)
  {
    ('0' as int + d) as char
  }

  /** The decimal digits of n, with no leading zero. */
  function NatDigits(n: nat): (r: string)
    ensures |r| >= 1 && AllDigits(r)
    ensures r[0] == '0' ==> n == 0
    decreases n
  {
    if n < 10 then [DigitChar(n)] else NatDigits(n / 10) + [DigitChar(n % 10)]
  }

  /** How a reader turns a string of digits into its value. */
  function ParseDigits(s: string): nat
    requires AllDigits(s)
  {
    if s == [] then 0 else 10 * ParseDigits(s[..|s| - 1]) + (s[|s| - 1] as int - '0' as int)
  }

  lemma {:induction false} NatDigitsRoundTrip(n: nat)
    ensures ParseDigits(NatDigits(n)) == n
    decreases n
  {
    if n >= 10 {
      var r := NatDigits(n);
      assert r[..|r| - 1] == NatDigits(n / 10);
      NatDigitsRoundTrip(n / 10);
    }
  }

  /** The decimal form of an integer: an optional '-' and digits. */
  function IntegerText(i: int): (r: string)
    ensures IsAscii(r) && |r| > 0
  {
    if i < 0 then "-" + NatDigits(-i) else NatDigits(i)
  }

  function ParseInteger(s: string): Option<int>
  {
    if |s| >= 2 && s[0] == '-' && AllDigits(s[1..]) then Some(0 - ParseDigits(s[1..]))
    else if |s| >= 1 && AllDigits(s) then Some(ParseDigits(s))
    else None
  }

  /** An integer reads back as itself. */
  lemma IntegerRoundTrip(i: int)
    ensures ParseInteger(IntegerText(i)) == Some(i)
  {
    if i < 0 {
      NatDigitsRoundTrip(-i);
      assert IntegerText(i)[1..] == NatDigits(-i);
    } else {
      NatDigitsRoundTrip(i);
    }
  }

  /** A real written as units / 10^places: the digits of |units|, padded
      with leading zeros, with a decimal point before the last places digits
      (after all of them when places is 0, as section 7.3.3 of ISO 32000-1
      needs a period in every real). */
  function RealText(units: int, places: nat): (r: string)
    ensures IsAscii(r)
    ensures '.' in r
    ensures ParseInteger(r) == None
  {
    var magnitude := if units < 0 then -units else units;
    var digits := NatDigits(magnitude);
    var padded := if |digits| > places then digits else seq(places + 1 - |digits|, _ => '0') + digits;
    var cut := |padded| - places;
    var sign := if units < 0 then "-" else "";
    var r := sign + padded[..cut] + "." + padded[cut..];
    assert r[|sign| + cut] == '.';
    assert !IsDigit(r[|sign| + cut]);
    r
  }

  // ---------------------------------------------------------------------
  // pdfObjectRepresentationFrom:Type:
  // ---------------------------------------------------------------------

  /** The Foundation object handed to pdfObjectRepresentationFrom:Type:. */
  datatype FoundationObject = NSStringObject(s: string) | NSNumberObject(n: int)

  /** A name is written '/' and its encoded text, an integer in decimal;
      any other pairing of object and kind has no representation here. */
  function PdfObjectRepresentationFrom(obj: FoundationObject, kind: Kind): (r: Option<string>)
    ensures (kind == Name && obj.NSStringObject?) || (kind == Integer && obj.NSNumberObject?) <==> r.Some?
    ensures kind == Name && obj.NSStringObject? ==>
      && |r.value| >= 1 && r.value[0] == '/'
      && DecodeName(r.value[1..]) == Some(Utf8String(obj.s))
    ensures kind == Integer && obj.NSNumberObject? ==> ParseInteger(r.value) == Some(obj.n)
  {
    match obj
    case NSStringObject(s) =>
      if kind == Name then
        NameRoundTrip(s);
        var text := "/" + PdfEncodedString(s);
        assert text[1..] == PdfEncodedString(s);
        Some(text)
      else None
    case NSNumberObject(n) =>
      if kind == Integer then
        IntegerRoundTrip(n);
        Some(IntegerText(n))
      else None
  }
}
