/** Percent-encoding of text (RFC 3986 section 2.1) over UTF-8 bytes (RFC 3629 section 3), as the
  * percent_encoding crate does it: encode every byte that is not an ASCII letter or digit, decode leniently.
  */
module Percent {
  import opened Prelude

  type Byte = b: int | 0 <= b < 256

  // ---- UTF-8 ---------------------------------------------------------------------------------

  function EncodeChar(c: char): (r: seq<Byte>)
    ensures 1 <= |r| <= 4
    ensures c as int < 128 ==> r == [c as int]
  {
    var n := c as int;
    if n < 0x80 then [n]
    else if n < 0x800 then [0xC0 + n / 64, 0x80 + n % 64]
    else if n < 0x1_0000 then [0xE0 + n / 4096, 0x80 + n / 64 % 64, 0x80 + n % 64]
    else [0xF0 + n / 262144, 0x80 + n / 4096 % 64, 0x80 + n / 64 % 64, 0x80 + n % 64]
  }

  function Utf8(s: string): seq<Byte> {
    if s == "" then [] else EncodeChar(s[0]) + Utf8(s[1..])
  }

  const REPLACEMENT := '\U{FFFD}'

  /** One decoded character and the number of bytes it stands for. */
  datatype Chunk = Chunk(ch: char, len: nat)

  /** The byte at i, or zero past the end. */
  function At(bs: seq<Byte>, i: nat): Byte {
    if i < |bs| then bs[i] else 0
  }

  predicate IsTail(b: Byte) { 0x80 <= b < 0xC0 }

  /** Excludes overlong forms and surrogates. */
  predicate SecondOfThree(first: Byte, b: Byte) {
    if first == 0xE0 then 0xA0 <= b < 0xC0
    else if first == 0xED then 0x80 <= b < 0xA0
    else IsTail(b)
  }

  /** Excludes overlong forms and values above 10FFFF. */
  predicate SecondOfFour(first: Byte, b: Byte) {
    if first == 0xF0 then 0x90 <= b < 0xC0
    else if first == 0xF4 then 0x80 <= b < 0x90
    else IsTail(b)
  }

  /** The next character; a broken sequence becomes one replacement character for its longest valid start. */
  function First(bs: seq<Byte>): (r: Chunk)
    requires bs != []
    ensures 1 <= r.len <= |bs|
  {
    var b0, b1, b2, b3 := bs[0], At(bs, 1), At(bs, 2), At(bs, 3);
    if b0 < 0x80 then Chunk(b0 as char, 1)
    else if 0xC2 <= b0 < 0xE0 then
      if !IsTail(b1) then Chunk(REPLACEMENT, 1)
      else Chunk(((b0 - 0xC0) * 64 + (b1 - 0x80)) as char, 2)
    else if 0xE0 <= b0 < 0xF0 then
      if !SecondOfThree(b0, b1) then Chunk(REPLACEMENT, 1)
      else if !IsTail(b2) then Chunk(REPLACEMENT, 2)
      else Chunk(((b0 - 0xE0) * 4096 + (b1 - 0x80) * 64 + (b2 - 0x80)) as char, 3)
    else if 0xF0 <= b0 < 0xF5 then
      if !SecondOfFour(b0, b1) then Chunk(REPLACEMENT, 1)
      else if !IsTail(b2) then Chunk(REPLACEMENT, 2)
      else if !IsTail(b3) then Chunk(REPLACEMENT, 3)
      else Chunk(((b0 - 0xF0) * 262144 + (b1 - 0x80) * 4096 + (b2 - 0x80) * 64 + (b3 - 0x80)) as char, 4)
    else Chunk(REPLACEMENT, 1)
  }

  function LossyUtf8(bs: seq<Byte>): string {
    if bs == [] then "" else
      var r := First(bs);
      [r.ch] + LossyUtf8(bs[r.len..])
  }

  /** The six-bit groups of a character, and the bounds that rule out the excluded second bytes. */
  lemma SixBitGroups(n: int)
    requires 0 <= n < 0x11_0000
    ensures n == n / 64 * 64 + n % 64
    ensures n == n / 4096 * 4096 + n / 64 % 64 * 64 + n % 64
    ensures n == n / 262144 * 262144 + n / 4096 % 64 * 4096 + n / 64 % 64 * 64 + n % 64
  {
    assert n / 64 == n / 4096 * 64 + n / 64 % 64;
    assert n / 4096 == n / 262144 * 64 + n / 4096 % 64;
  }

  lemma FirstOfThree(c: char, bs: seq<Byte>)
    requires 0x800 <= c as int < 0x1_0000 && EncodeChar(c) <= bs
    ensures First(bs) == Chunk(c, 3)
  {
    var n := c as int;
    SixBitGroups(n);
    var e := EncodeChar(c);
    assert At(bs, 0) == e[0] && At(bs, 1) == e[1] && At(bs, 2) == e[2];
    assert SecondOfThree(e[0], e[1]) && IsTail(e[2]);
  }

  lemma FirstOfFour(c: char, bs: seq<Byte>)
    requires 0x1_0000 <= c as int && EncodeChar(c) <= bs
    ensures First(bs) == Chunk(c, 4)
  {
    var n := c as int;
    SixBitGroups(n);
    var e := EncodeChar(c);
    assert At(bs, 0) == e[0] && At(bs, 1) == e[1] && At(bs, 2) == e[2] && At(bs, 3) == e[3];
    assert SecondOfFour(e[0], e[1]) && IsTail(e[2]) && IsTail(e[3]);
  }

  lemma FirstOfEncoded(c: char, bs: seq<Byte>)
    requires EncodeChar(c) <= bs
    ensures First(bs) == Chunk(c, |EncodeChar(c)|)
  {
    var n := c as int;
    var e := EncodeChar(c);
    assert bs[0] == e[0];
    if n < 0x80 {
    } else if n < 0x800 {
      assert At(bs, 1) == e[1];
    } else if n < 0x1_0000 {
      FirstOfThree(c, bs);
    } else {
      FirstOfFour(c, bs);
    }
  }

  /** These bytes begin the UTF-8 form of some character, or are all of it. */
  ghost predicate Starts(bs: seq<Byte>) {
    exists c: char :: bs <= EncodeChar(c)
  }

  /** No character's UTF-8 form begins the bytes. */
  ghost predicate Broken(bs: seq<Byte>) {
    forall c: char :: !(EncodeChar(c) <= bs)
  }

  lemma EncodedBytes(c: char)
    ensures
      var e := EncodeChar(c);
      && (|e| == 1 ==> e[0] < 0x80)
      && (|e| == 2 ==> 0xC2 <= e[0] < 0xE0 && IsTail(e[1]))
      && (|e| == 3 ==> 0xE0 <= e[0] < 0xF0 && SecondOfThree(e[0], e[1]) && IsTail(e[2]))
      && (|e| == 4 ==> 0xF0 <= e[0] < 0xF5 && SecondOfFour(e[0], e[1]) && IsTail(e[2]) && IsTail(e[3]))
  {
    var n := c as int;
    SixBitGroups(n);
  }

  lemma TwoBytes(b0: Byte, b1: Byte) returns (c: char)
    requires 0xC2 <= b0 < 0xE0 && IsTail(b1)
    ensures EncodeChar(c) == [b0, b1]
  {
    c := ((b0 - 0xC0) * 64 + (b1 - 0x80)) as char;
  }

  lemma ThreeGroups(a: nat, b: nat, c: nat)
    requires b < 64 && c < 64
    ensures
      var n := a * 4096 + b * 64 + c;
      n / 4096 == a && n / 64 % 64 == b && n % 64 == c
  {
    var n := a * 4096 + b * 64 + c;
    assert n / 64 == a * 64 + b;
  }

  lemma ThreeBytes(b0: Byte, b1: Byte, b2: Byte) returns (c: char)
    requires 0xE0 <= b0 < 0xF0 && SecondOfThree(b0, b1) && IsTail(b2)
    ensures EncodeChar(c) == [b0, b1, b2]
  {
    ThreeGroups(b0 - 0xE0, b1 - 0x80, b2 - 0x80);
    var n := (b0 - 0xE0) * 4096 + (b1 - 0x80) * 64 + (b2 - 0x80);
    c := n as char;
  }

  lemma FourGroups(a: nat, b: nat, c: nat, d: nat)
    requires b < 64 && c < 64 && d < 64
    ensures
      var n := a * 262144 + b * 4096 + c * 64 + d;
      n / 262144 == a && n / 4096 % 64 == b && n / 64 % 64 == c && n % 64 == d
  {
    var n := a * 262144 + b * 4096 + c * 64 + d;
    assert n / 64 == a * 4096 + b * 64 + c;
    assert n / 4096 == a * 64 + b;
  }

  lemma FourBytes(b0: Byte, b1: Byte, b2: Byte, b3: Byte) returns (c: char)
    requires 0xF0 <= b0 < 0xF5 && SecondOfFour(b0, b1) && IsTail(b2) && IsTail(b3)
    ensures EncodeChar(c) == [b0, b1, b2, b3]
  {
    FourGroups(b0 - 0xF0, b1 - 0x80, b2 - 0x80, b3 - 0x80);
    var n := (b0 - 0xF0) * 262144 + (b1 - 0x80) * 4096 + (b2 - 0x80) * 64 + (b3 - 0x80);
    c := n as char;
  }

  /** How many of the first bytes fit together: what a single replacement character stands for. */
  ghost predicate LongestStart(bs: seq<Byte>, n: nat)
    requires n <= |bs|
  {
    n >= 1 && (n == 1 || Starts(bs[..n])) && (n < |bs| ==> !Starts(bs[..n + 1]))
  }

  lemma NoLongerStart(bs: seq<Byte>, c: char)
    requires bs != [] && First(bs).ch == REPLACEMENT && !(EncodeChar(REPLACEMENT) <= bs)
    ensures !(EncodeChar(c) <= bs)
    ensures First(bs).len < |bs| ==> !(bs[..First(bs).len + 1] <= EncodeChar(c))
  {
    EncodedBytes(c);
    var e, n := EncodeChar(c), First(bs).len;
    if e <= bs {
      FirstOfEncoded(c, bs);
    }
    if n < |bs| && bs[..n + 1] <= e {
      assert forall i | 0 <= i <= n :: At(bs, i) == e[i];
    }
  }

  lemma FirstStarts(bs: seq<Byte>)
    requires bs != []
    ensures First(bs).len == 1 || Starts(bs[..First(bs).len])
  {
    var b0, b1, b2, b3, n := bs[0], At(bs, 1), At(bs, 2), At(bs, 3), First(bs).len;
    if n > 1 {
      var c;
      if b0 < 0xE0 {
        c := TwoBytes(b0, b1);
      } else if b0 < 0xF0 {
        c := ThreeBytes(b0, b1, if n == 3 then b2 else 0x80);
      } else {
        c := FourBytes(b0, b1, if n >= 3 then b2 else 0x80, if n == 4 then b3 else 0x80);
      }
      assert bs[..n] <= EncodeChar(c);
    }
  }

  lemma WholeChar(bs: seq<Byte>) returns (c: char)
    requires bs != [] && (First(bs).ch != REPLACEMENT || EncodeChar(REPLACEMENT) <= bs)
    ensures EncodeChar(c) <= bs && First(bs) == Chunk(c, |EncodeChar(c)|)
  {
    var b0, b1, b2, b3 := bs[0], At(bs, 1), At(bs, 2), At(bs, 3);
    if EncodeChar(REPLACEMENT) <= bs {
      c := REPLACEMENT;
    } else if b0 < 0x80 {
      c := b0 as char;
      assert EncodeChar(c) == bs[..1];
    } else if b0 < 0xE0 {
      c := TwoBytes(b0, b1);
      assert EncodeChar(c) == bs[..2];
    } else if b0 < 0xF0 {
      c := ThreeBytes(b0, b1, b2);
      assert EncodeChar(c) == bs[..3];
    } else {
      c := FourBytes(b0, b1, b2, b3);
      assert EncodeChar(c) == bs[..4];
    }
    FirstOfEncoded(c, bs);
  }

  /** Lossy decoding of any bytes: a character whose UTF-8 form begins them, or one replacement character for the
    * longest start of such a form, and for a single byte if there is none. */
  lemma FirstExactly(bs: seq<Byte>)
    requires bs != []
    ensures
      var r := First(bs);
      || (EncodeChar(r.ch) <= bs && r.len == |EncodeChar(r.ch)|)
      || (Broken(bs) && r.ch == '\U{FFFD}' && LongestStart(bs, r.len))
  {
    if First(bs).ch != REPLACEMENT || EncodeChar(REPLACEMENT) <= bs {
      var c := WholeChar(bs);
    } else {
      FirstStarts(bs);
      forall c: char
        ensures !(EncodeChar(c) <= bs)
        ensures First(bs).len < |bs| ==> !(bs[..First(bs).len + 1] <= EncodeChar(c))
      {
        NoLongerStart(bs, c);
      }
    }
  }

  lemma {:induction false} LossyUtf8OfUtf8(s: string)
    ensures LossyUtf8(Utf8(s)) == s
  {
    if s != "" {
      FirstOfEncoded(s[0], Utf8(s));
      LossyUtf8OfUtf8(s[1..]);
      assert Utf8(s)[|EncodeChar(s[0])|..] == Utf8(s[1..]);
    }
  }

  // ---- Percent-encoding ----------------------------------------------------------------------

  predicate IsAlphanumeric(b: Byte) {
    '0' as int <= b <= '9' as int || 'A' as int <= b <= 'Z' as int || 'a' as int <= b <= 'z' as int
  }

  function HexDigit(d: nat): (c: char)
    requires d < 16
    ensures c != '/' && c as int < 128
  {
    if d < 10 then '0' + d as char else 'A' + (d - 10) as char
  }

  /** The value of a hexadecimal digit of either case, or -1. */
  function HexValue(b: Byte): (v: int)
    ensures -1 <= v < 16
  {
    if '0' as int <= b <= '9' as int then b - '0' as int
    else if 'A' as int <= b <= 'F' as int then b - 'A' as int + 10
    else if 'a' as int <= b <= 'f' as int then b - 'a' as int + 10
    else -1
  }

  function EncodeByte(b: Byte): string {
    if IsAlphanumeric(b) then [b as char] else ['%', HexDigit(b / 16), HexDigit(b % 16)]
  }

  function EncodeBytes(bs: seq<Byte>): string {
    if bs == [] then "" else EncodeByte(bs[0]) + EncodeBytes(bs[1..])
  }

  function Enc(s: string): string { EncodeBytes(Utf8(s)) }

  /** A percent sign not followed by two hexadecimal digits stands for itself. */
  function DecodeBytes(bs: seq<Byte>): seq<Byte> {
    if bs == [] then []
    else if bs[0] == '%' as int && |bs| >= 3 && HexValue(bs[1]) >= 0 && HexValue(bs[2]) >= 0 then
      [HexValue(bs[1]) * 16 + HexValue(bs[2])] + DecodeBytes(bs[3..])
    else [bs[0]] + DecodeBytes(bs[1..])
  }

  function Decode(s: string): string { LossyUtf8(DecodeBytes(Utf8(s))) }

  lemma Utf8Cons(c: char, rest: string)
    ensures Utf8([c] + rest) == EncodeChar(c) + Utf8(rest)
  {
    assert ([c] + rest)[1..] == rest;
  }

  lemma {:induction false} Utf8Append(a: string, b: string)
    ensures Utf8(a + b) == Utf8(a) + Utf8(b)
  {
    if a == "" {
      assert a + b == b;
    } else {
      assert a + b == [a[0]] + (a[1..] + b);
      Utf8Cons(a[0], a[1..] + b);
      Utf8Append(a[1..], b);
      Associative(EncodeChar(a[0]), Utf8(a[1..]), Utf8(b));
    }
  }

  lemma HexRoundTrip(d: nat)
    requires d < 16
    ensures HexValue(HexDigit(d) as int) == d
  {
  }

  lemma DecodeEncodedByte(b: Byte, rest: seq<Byte>)
    ensures DecodeBytes(Utf8(EncodeByte(b)) + rest) == [b] + DecodeBytes(rest)
  {
    var bs := Utf8(EncodeByte(b)) + rest;
    if IsAlphanumeric(b) {
      assert EncodeByte(b)[1..] == "";
      assert bs[0] == b && bs[1..] == rest;
    } else {
      var h, l := HexDigit(b / 16), HexDigit(b % 16);
      assert EncodeByte(b)[1..] == [h, l] && [h, l][1..] == [l] && [l][1..] == "";
      assert Utf8([h, l]) == [h as int] + Utf8([l]) && Utf8([l]) == [l as int];
      assert Utf8(EncodeByte(b)) == ['%' as int, h as int, l as int];
      HexRoundTrip(b / 16);
      HexRoundTrip(b % 16);
      assert bs[3..] == rest;
    }
  }

  lemma {:induction false} DecodeEncodedBytes(bs: seq<Byte>)
    ensures DecodeBytes(Utf8(EncodeBytes(bs))) == bs
  {
    if bs != [] {
      Utf8Append(EncodeByte(bs[0]), EncodeBytes(bs[1..]));
      DecodeEncodedByte(bs[0], Utf8(EncodeBytes(bs[1..])));
      DecodeEncodedBytes(bs[1..]);
    }
  }

  /** Decoding recovers every string from its encoded form. */
  lemma DecodeEnc(s: string)
    ensures Decode(Enc(s)) == s
  {
    DecodeEncodedBytes(Utf8(s));
    LossyUtf8OfUtf8(s);
  }

  /** Only ASCII letters, digits and percent signs: never a slash. */
  predicate IsEncodedChar(c: char) {
    c == '%' || (c as int < 128 && IsAlphanumeric(c as int))
  }

  lemma {:induction false} OnlyEncodedChars(bs: seq<Byte>)
    ensures forall i | 0 <= i < |EncodeBytes(bs)| :: IsEncodedChar(EncodeBytes(bs)[i])
    ensures EncodeBytes(bs) == "" <==> bs == []
  {
    if bs != [] {
      OnlyEncodedChars(bs[1..]);
    }
  }

  lemma EncIsASegment(s: string)
    ensures '/' !in Enc(s) && (Enc(s) == "" <==> s == "")
  {
    OnlyEncodedChars(Utf8(s));
  }

  /** ASCII letters and digits stay as they are. */
  lemma {:induction false} EncPlain(s: string)
    requires forall i | 0 <= i < |s| :: s[i] as int < 128 && IsAlphanumeric(s[i] as int)
    ensures Enc(s) == s
  {
    if s != "" {
      EncPlain(s[1..]);
      assert Utf8(s)[1..] == Utf8(s[1..]);
    }
  }

  // ---- What decoding does to any text ----------------------------------------------------------

  predicate IsHex(b: Byte) {
    '0' as int <= b <= '9' as int || 'A' as int <= b <= 'F' as int || 'a' as int <= b <= 'f' as int
  }

  predicate IsEscape(bs: seq<Byte>, i: nat)
    requires i < |bs|
  {
    bs[i] == '%' as int && i + 2 < |bs| && IsHex(bs[i + 1]) && IsHex(bs[i + 2])
  }

  ghost predicate NoEscapes(bs: seq<Byte>) {
    forall i: nat | i < |bs| :: !IsEscape(bs, i)
  }

  lemma NoEscapesCons(bs: seq<Byte>)
    requires bs != []
    ensures NoEscapes(bs) <==> !IsEscape(bs, 0) && NoEscapes(bs[1..])
  {
    forall i: nat | i < |bs| - 1 ensures IsEscape(bs[1..], i) <==> IsEscape(bs, i + 1) {
    }
    if !IsEscape(bs, 0) && NoEscapes(bs[1..]) {
      forall i: nat | i < |bs| ensures !IsEscape(bs, i) {
        assert i > 0 ==> !IsEscape(bs[1..], i - 1);
      }
    }
  }

  lemma {:induction false} DecodeShrinks(bs: seq<Byte>)
    ensures |DecodeBytes(bs)| <= |bs|
  {
    if bs != [] {
      DecodeShrinks(bs[1..]);
      if |bs| >= 3 {
        DecodeShrinks(bs[3..]);
      }
    }
  }

  /** A percent sign that two hexadecimal digits do not follow stands for itself, like any other byte: decoding
    * leaves bytes alone if and only if there is no escape in them. */
  lemma {:induction false} DecodesToItself(bs: seq<Byte>)
    ensures DecodeBytes(bs) == bs <==> NoEscapes(bs)
  {
    if bs != [] {
      NoEscapesCons(bs);
      if IsEscape(bs, 0) {
        DecodeShrinks(bs[3..]);
      } else {
        DecodesToItself(bs[1..]);
        assert DecodeBytes(bs) == [bs[0]] + DecodeBytes(bs[1..]);
        assert bs == [bs[0]] + bs[1..];
        assert DecodeBytes(bs)[1..] == DecodeBytes(bs[1..]);
      }
    }
  }

  /** Decoding leaves text without escapes alone. */
  lemma DecodePlain(s: string)
    requires NoEscapes(Utf8(s))
    ensures Decode(s) == s
  {
    DecodesToItself(Utf8(s));
    LossyUtf8OfUtf8(s);
  }

  /** How a byte is written: as itself or as an escape, and then in which case each digit is. */
  datatype Form = Itself | Escaped(upperHigh: bool, upperLow: bool)

  function HexOf(d: nat, upper: bool): Byte
    requires d < 16
  {
    if d < 10 then '0' as int + d else (if upper then 'A' else 'a') as int + (d - 10)
  }

  function Written(b: Byte, form: Form): seq<Byte> {
    match form
    case Itself => [b]
    case Escaped(h, l) => ['%' as int, HexOf(b / 16, h), HexOf(b % 16, l)]
  }

  function Spelled(bs: seq<Byte>, forms: seq<Form>): seq<Byte>
    requires |forms| == |bs|
  {
    if bs == [] then [] else Written(bs[0], forms[0]) + Spelled(bs[1..], forms[1..])
  }

  lemma DecodeWritten(b: Byte, form: Form, rest: seq<Byte>)
    requires form.Itself? ==> b != '%' as int
    ensures DecodeBytes(Written(b, form) + rest) == [b] + DecodeBytes(rest)
  {
    var bs := Written(b, form) + rest;
    if form.Itself? {
      assert bs[1..] == rest;
    } else {
      assert bs[3..] == rest;
    }
  }

  lemma {:induction false} DecodeSpelledBytes(bs: seq<Byte>, forms: seq<Form>)
    requires |forms| == |bs|
    requires forall i | 0 <= i < |bs| :: forms[i].Itself? ==> bs[i] != '%' as int
    ensures DecodeBytes(Spelled(bs, forms)) == bs
  {
    if bs != [] {
      DecodeWritten(bs[0], forms[0], Spelled(bs[1..], forms[1..]));
      DecodeSpelledBytes(bs[1..], forms[1..]);
    }
  }

  /** However a client writes a string, escaping what it likes but percent signs always and with digits of either
    * case, it is decoded to that string. */
  lemma DecodeSpelled(s: string, forms: seq<Form>, text: string)
    requires |forms| == |Utf8(s)|
    requires forall i | 0 <= i < |forms| :: forms[i].Itself? ==> Utf8(s)[i] != '%' as int
    requires Utf8(text) == Spelled(Utf8(s), forms)
    ensures Decode(text) == s
  {
    DecodeSpelledBytes(Utf8(s), forms);
    LossyUtf8OfUtf8(s);
  }
}
