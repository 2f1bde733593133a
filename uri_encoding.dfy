/** `encodeURIComponent` as section 19.2.6.5 of ECMA-262 defines it, over
    Unicode code points, and the decoding that undoes it: percent-decoding
    (section 2.1 of RFC 3986) followed by UTF-8 decoding (RFC 3629). */
module UriEncoding {
  import opened Wrappers

  type Byte = b: int | 0 <= b < 256

  /** The characters `encodeURIComponent` leaves as they are: ASCII
      letters and digits and `-_.!~*'()`. */
  predicate IsUnreserved(c: char) {
    'A' <= c <= 'Z' || 'a' <= c <= 'z' || '0' <= c <= '9' ||
    c == '-' || c == '_' || c == '.' || c == '!' || c == '~' || c == '*' ||
    c == '\'' || c == '(' || c == ')'
  }

  /** The UTF-8 encoding of one code point. */
  function Utf8(c: char): (bytes: seq<Byte>)
    ensures 1 <= |bytes| <= 4
    ensures |bytes| == 1 <==> c as int < 0x80
    ensures |bytes| == 1 ==> bytes[0] == c as int
  {
    var cp := c as int;
    if cp < 0x80 then [cp]
    else if cp < 0x800 then [0xC0 + cp / 64, 0x80 + cp % 64]
    else if cp < 0x10000 then [0xE0 + cp / 4096, 0x80 + (cp / 64) % 64, 0x80 + cp % 64]
    else [0xF0 + cp / 262144, 0x80 + (cp / 4096) % 64, 0x80 + (cp / 64) % 64, 0x80 + cp % 64]
  }

  /** The UTF-8 encoding of a string, code point after code point. */
  function Utf8Encode(s: string): seq<Byte> {
    if s == [] then [] else Utf8(s[0]) + Utf8Encode(s[1..])
  }

  /** An upper-case hexadecimal digit. */
  function HexDigit(d: nat): (c: char)
    requires d < 16
    ensures IsHexDigit(c) && HexValue(c) == d
    ensures '0' <= c <= '9' || 'A' <= c <= 'F'
  {
    if d < 10 then ('0' as int + d) as char else ('A' as int + d - 10) as char
  }

  predicate IsHexDigit(c: char) {
    '0' <= c <= '9' || 'A' <= c <= 'F' || 'a' <= c <= 'f'
  }

  function HexValue(c: char): (d: nat)
    requires IsHexDigit(c)
    ensures d < 16
  {
    if c <= '9' then c as int - '0' as int
    else if c <= 'F' then c as int - 'A' as int + 10
    else c as int - 'a' as int + 10
  }

  /** Every byte as `%XY` with upper-case hexadecimal digits. */
  function PercentEncode(bytes: seq<Byte>): (r: string)
    ensures |r| == 3 * |bytes|
    ensures forall i :: 0 <= i < |r| ==> r[i] == '%' || '0' <= r[i] <= '9' || 'A' <= r[i] <= 'F'
  {
    if bytes == [] then []
    else ['%', HexDigit(bytes[0] / 16), HexDigit(bytes[0] % 16)] + PercentEncode(bytes[1..])
  }

  /** One code point: kept when unreserved, otherwise its UTF-8 bytes
      percent-encoded. */
  function EncodeChar(c: char): (r: string)
    ensures IsUnreserved(c) ==> r == [c]
    ensures !IsUnreserved(c) ==> r == PercentEncode(Utf8(c))
  {
    if IsUnreserved(c) then [c] else PercentEncode(Utf8(c))
  }

  /** `encodeURIComponent(s)`. A JavaScript string with a lone surrogate
      throws a `URIError`; a `string` here is a sequence of code points, so
      that case does not arise. */
  function EncodeURIComponent(s: string): (r: string)
    ensures forall i :: 0 <= i < |r| ==> IsUnreserved(r[i]) || r[i] == '%' || IsHexDigit(r[i])
  {
    if s == [] then []
    else
      var head := EncodeChar(s[0]);
      var tail := EncodeURIComponent(s[1..]);
      assert forall i :: 0 <= i < |head| ==> IsUnreserved(head[i]) || head[i] == '%' || IsHexDigit(head[i]);
      head + tail
  }

  function Prepend<T>(xs: seq<T>, r: Option<seq<T>>): Option<seq<T>> {
    match r
    case Some(ys) => Some(xs + ys)
    case None => None
  }

  lemma PrependPrepend<T>(xs: seq<T>, ys: seq<T>, r: Option<seq<T>>)
    ensures Prepend(xs, Prepend(ys, r)) == Prepend(xs + ys, r)
  {
    if r.Some? {
      assert xs + ys + r.value == xs + (ys + r.value);
    }
  }

  /** Percent-decoding: `%XY` stands for the byte `XY`, any other ASCII
      character for its own code; anything else is malformed. */
  function PercentDecode(t: string): Option<seq<Byte>> {
    if t == [] then Some([])
    else if t[0] == '%' then
      if |t| >= 3 && IsHexDigit(t[1]) && IsHexDigit(t[2]) then
        Prepend([HexValue(t[1]) * 16 + HexValue(t[2])], PercentDecode(t[3..]))
      else None
    else if t[0] as int < 0x80 then Prepend([t[0] as int], PercentDecode(t[1..]))
    else None
  }

  predicate IsContinuation(b: Byte) { 0x80 <= b < 0xC0 }

  /** UTF-8 decoding that refuses truncated sequences, overlong forms,
      surrogates and code points past U+10FFFF. */
  function Utf8Decode(b: seq<Byte>): Option<string>
    decreases |b|
  {
    if b == [] then Some([])
    else if b[0] < 0x80 then Prepend([b[0] as char], Utf8Decode(b[1..]))
    else if 0xC0 <= b[0] < 0xE0 && |b| >= 2 && IsContinuation(b[1]) then
      var cp := (b[0] as int - 0xC0) * 64 + (b[1] as int - 0x80);
      if cp >= 0x80 then Prepend([cp as char], Utf8Decode(b[2..])) else None
    else if 0xE0 <= b[0] < 0xF0 && |b| >= 3 && IsContinuation(b[1]) && IsContinuation(b[2]) then
      var cp := (b[0] as int - 0xE0) * 4096 + (b[1] as int - 0x80) * 64 + (b[2] as int - 0x80);
      if cp >= 0x800 && !(0xD800 <= cp < 0xE000) then Prepend([cp as char], Utf8Decode(b[3..])) else None
    else if 0xF0 <= b[0] < 0xF8 && |b| >= 4 && IsContinuation(b[1]) && IsContinuation(b[2]) && IsContinuation(b[3]) then
      var cp := (b[0] as int - 0xF0) * 262144 + (b[1] as int - 0x80) * 4096 + (b[2] as int - 0x80) * 64 + (b[3] as int - 0x80);
      if 0x10000 <= cp < 0x110000 then Prepend([cp as char], Utf8Decode(b[4..])) else None
    else None
  }

  /** One `%XY` triple decodes to its byte. */
  lemma PercentDecodeByte(b: Byte, tail: string)
    ensures PercentDecode(['%', HexDigit(b / 16), HexDigit(b % 16)] + tail) == Prepend([b], PercentDecode(tail))
  {
    var hi, lo := b / 16, b % 16;
    var t := ['%', HexDigit(hi), HexDigit(lo)] + tail;
    assert t[0] == '%' && t[1] == HexDigit(hi) && t[2] == HexDigit(lo);
    assert t[3..] == tail;
    assert HexValue(t[1]) * 16 + HexValue(t[2]) == hi * 16 + lo == b;
  }

  lemma {:induction false} PercentDecodeEncoded(bytes: seq<Byte>, rest: string)
    ensures PercentDecode(PercentEncode(bytes) + rest) == Prepend(bytes, PercentDecode(rest))
  {
    if bytes == [] {
      assert PercentEncode(bytes) + rest == rest;
      match PercentDecode(rest) {
        case Some(ys) => assert bytes + ys == ys;
        case None =>
      }
    } else {
      var b := bytes[0];
      var tail := PercentEncode(bytes[1..]) + rest;
      var t := ['%', HexDigit(b / 16), HexDigit(b % 16)] + tail;
      assert PercentEncode(bytes) + rest == t;
      PercentDecodeByte(b, tail);
      PercentDecodeEncoded(bytes[1..], rest);
      PrependPrepend([b], bytes[1..], PercentDecode(rest));
      assert [b] + bytes[1..] == bytes;
    }
  }

  /** Decoding one encoded code point gives its UTF-8 bytes. */
  lemma PercentDecodeChar(c: char, rest: string)
    ensures PercentDecode(EncodeChar(c) + rest) == Prepend(Utf8(c), PercentDecode(rest))
  {
    if IsUnreserved(c) {
      assert ([c] + rest)[1..] == rest;
    } else {
      PercentDecodeEncoded(Utf8(c), rest);
    }
  }

  /** Percent-decoding `encodeURIComponent(s)` gives the UTF-8 bytes of `s`. */
  lemma {:induction false} PercentDecodeURIComponent(s: string)
    ensures PercentDecode(EncodeURIComponent(s)) == Some(Utf8Encode(s))
  {
    if s != [] {
      PercentDecodeURIComponent(s[1..]);
      PercentDecodeChar(s[0], EncodeURIComponent(s[1..]));
    }
  }

  lemma Utf8DecodeOne(c: char, rest: seq<Byte>)
    requires c as int < 0x80
    ensures Utf8Decode(Utf8(c) + rest) == Prepend([c], Utf8Decode(rest))
  {
    assert (Utf8(c) + rest)[1..] == rest;
  }

  lemma Utf8DecodeTwo(c: char, rest: seq<Byte>)
    requires 0x80 <= c as int < 0x800
    ensures Utf8Decode(Utf8(c) + rest) == Prepend([c], Utf8Decode(rest))
  {
    var cp := c as int;
    var b := Utf8(c) + rest;
    assert b[0] == 0xC0 + cp / 64 && b[1] == 0x80 + cp % 64;
    assert b[2..] == rest;
    assert (b[0] as int - 0xC0) * 64 + (b[1] as int - 0x80) == cp;
  }

  lemma Utf8DecodeThree(c: char, rest: seq<Byte>)
    requires 0x800 <= c as int < 0x10000
    ensures Utf8Decode(Utf8(c) + rest) == Prepend([c], Utf8Decode(rest))
  {
    var cp := c as int;
    var b := Utf8(c) + rest;
    assert b[0] == 0xE0 + cp / 4096 && b[1] == 0x80 + (cp / 64) % 64 && b[2] == 0x80 + cp % 64;
    assert b[3..] == rest;
    assert cp / 64 == (cp / 4096) * 64 + (cp / 64) % 64;
    assert (b[0] as int - 0xE0) * 4096 + (b[1] as int - 0x80) * 64 + (b[2] as int - 0x80) == cp;
  }

  /** A code point as four base-64 digits, the top one unbounded. */
  lemma Base64Digits(cp: nat)
    ensures cp == (cp / 262144) * 262144 + ((cp / 4096) % 64) * 4096 + ((cp / 64) % 64) * 64 + cp % 64
  {
    var a := cp / 64;
    var b := a / 64;
    assert cp == a * 64 + cp % 64;
    assert a == b * 64 + a % 64;
    assert b == (b / 64) * 64 + b % 64;
    assert cp / 4096 == b;
    assert cp / 262144 == b / 64;
  }

  lemma Utf8DecodeFour(c: char, rest: seq<Byte>)
    requires 0x10000 <= c as int
    ensures Utf8Decode(Utf8(c) + rest) == Prepend([c], Utf8Decode(rest))
  {
    var cp := c as int;
    var q0, q1, q2, q3 := cp / 262144, (cp / 4096) % 64, (cp / 64) % 64, cp % 64;
    Base64Digits(cp);
    var b := Utf8(c) + rest;
    assert b[0] == 0xF0 + q0 && b[1] == 0x80 + q1;
    assert b[2] == 0x80 + q2 && b[3] == 0x80 + q3;
    assert b[4..] == rest;
    assert (b[0] as int - 0xF0) * 262144 + (b[1] as int - 0x80) * 4096 + (b[2] as int - 0x80) * 64 + (b[3] as int - 0x80) == cp;
  }


  /** Decoding the UTF-8 bytes of one code point gives it back, and
      decoding goes on right after them. */
  lemma Utf8DecodeChar(c: char, rest: seq<Byte>)
    ensures Utf8Decode(Utf8(c) + rest) == Prepend([c], Utf8Decode(rest))
  {
    if c as int < 0x80 {
      Utf8DecodeOne(c, rest);
    } else if c as int < 0x800 {
      Utf8DecodeTwo(c, rest);
    } else if c as int < 0x10000 {
      Utf8DecodeThree(c, rest);
    } else {
      Utf8DecodeFour(c, rest);
    }
  }

  /** UTF-8 decoding undoes UTF-8 encoding. */
  lemma {:induction false} Utf8RoundTrip(s: string)
    ensures Utf8Decode(Utf8Encode(s)) == Some(s)
  {
    if s == [] {
    } else {
      Utf8RoundTrip(s[1..]);
      Utf8DecodeChar(s[0], Utf8Encode(s[1..]));
      assert [s[0]] + s[1..] == s;
    }
  }

  /** Decoding `encodeURIComponent(s)` gives back `s`. */
  lemma DecodeURIComponent(s: string)
    ensures PercentDecode(EncodeURIComponent(s)).Some?
    ensures Utf8Decode(PercentDecode(EncodeURIComponent(s)).value) == Some(s)
  {
    PercentDecodeURIComponent(s);
    Utf8RoundTrip(s);
  }
}
