/** `buildContentDispositionHeader` (src/http/buildContentDispositionHeader.ts):
    a `Content-Disposition` header as sections 4.1 and 4.3 of RFC 6266
    describe it, with a quoted `filename` for old clients and a
    `filename*` ext-value (section 3.2.1 of RFC 8187) for the exact name. */
module ContentDisposition {
  import opened Wrappers
  import opened JsText
  import opened UriEncoding

  /** The characters `sanitizeFilename` replaces: `"`, `\`, CR, LF and `;`. */
  predicate IsUnsafe(c: char) {
    c == '"' || c == '\\' || c == '\r' || c == '\n' || c == ';'
  }

  /** `sanitizeFilename(name)`: every unsafe character becomes `_`. */
  function SanitizeFilename(name: string): (r: string)
    ensures |r| == |name|
    ensures forall i :: 0 <= i < |r| ==> !IsUnsafe(r[i])
    ensures forall i :: 0 <= i < |r| ==> r[i] == name[i] || (IsUnsafe(name[i]) && r[i] == '_')
  {
    if name == [] then []
    else [if IsUnsafe(name[0]) then '_' else name[0]] + SanitizeFilename(name[1..])
  }

  /** `encodeURIComponent(filename).replace(/'/g, '%27')` */
  function EncodeFilename(filename: string): (r: string)
    ensures forall i :: 0 <= i < |r| ==>
      (IsUnreserved(r[i]) && r[i] != '\'') || r[i] == '%' || IsHexDigit(r[i])
  {
    var encoded := EncodeURIComponent(filename);
    var r := ReplaceAll(encoded, '\'', "%27");
    ReplaceAllKeeps(encoded);
    r
  }

  lemma {:induction false} ReplaceAllKeeps(s: string)
    requires forall i :: 0 <= i < |s| ==> IsUnreserved(s[i]) || s[i] == '%' || IsHexDigit(s[i])
    ensures forall i :: 0 <= i < |ReplaceAll(s, '\'', "%27")| ==>
      var c := ReplaceAll(s, '\'', "%27")[i];
      (IsUnreserved(c) && c != '\'') || c == '%' || IsHexDigit(c)
  {
    if s != [] {
      ReplaceAllKeeps(s[1..]);
    }
  }

  /** `inline` when `options.inline` is true, `attachment` otherwise,
      including when the option is absent. */
  function DispositionType(inline: Option<bool>): (r: string)
    ensures r == (if inline == Some(true) then "inline" else "attachment")
    ensures ';' !in r
  {
    if inline.Some? && inline.value then "inline" else "attachment"
  }

  /** `buildContentDispositionHeader(filename, { inline })`. The header
      reads back as its three parts: the type is everything before the
      first `;`, and the quoted file name cannot end early because it holds
      no `"` (section 4.1 of RFC 6266). */
  function BuildContentDispositionHeader(filename: string, inline: Option<bool>): (r: string)
    ensures ReadHeader(r) ==
      Some((DispositionType(inline), SanitizeFilename(filename), EncodeFilename(filename)))
  {
    var kind := DispositionType(inline);
    var legacy := SanitizeFilename(filename);
    var encoded := EncodeFilename(filename);
    assert '"' !in legacy by {
      forall i | 0 <= i < |legacy| ensures legacy[i] != '"' { }
    }
    ReadHeaderOf(kind, legacy, encoded);
    kind + "; filename=\"" + legacy + "\"; filename*=UTF-8''" + encoded
  }

  /** No carriage return or line feed, so the text cannot end a header
      line early. */
  predicate NoLineBreak(s: string) {
    forall i :: 0 <= i < |s| ==> s[i] != '\r' && s[i] != '\n'
  }

  lemma NoLineBreakConcat(a: string, b: string)
    requires NoLineBreak(a) && NoLineBreak(b)
    ensures NoLineBreak(a + b)
  {
  }

  /** The fixed parts of the header hold no line break. */
  lemma {:induction false} HeaderPartsNoLineBreak(kind: string, legacy: string, encoded: string)
    requires NoLineBreak(kind) && NoLineBreak(legacy) && NoLineBreak(encoded)
    ensures NoLineBreak(kind + "; filename=\"" + legacy + "\"; filename*=UTF-8''" + encoded)
  {
    var p1 := "; filename=\"";
    var p2 := "\"; filename*=UTF-8''";
    assert NoLineBreak(p1);
    assert NoLineBreak(p2);
    NoLineBreakConcat(kind, p1);
    NoLineBreakConcat(kind + p1, legacy);
    NoLineBreakConcat(kind + p1 + legacy, p2);
    NoLineBreakConcat(kind + p1 + legacy + p2, encoded);
  }

  lemma KindNoLineBreak(inline: Option<bool>)
    ensures NoLineBreak(DispositionType(inline))
  {
  }

  lemma LegacyNoLineBreak(filename: string)
    ensures NoLineBreak(SanitizeFilename(filename))
  {
  }

  lemma EncodedNoLineBreak(filename: string)
    ensures NoLineBreak(EncodeFilename(filename))
  {
    var encoded := EncodeFilename(filename);
    forall i | 0 <= i < |encoded|
      ensures encoded[i] != '\r' && encoded[i] != '\n'
    {
    }
  }

  /** No line break of the file name reaches the header. */
  lemma {:induction false} HeaderNoLineBreak(filename: string, inline: Option<bool>)
    ensures NoLineBreak(BuildContentDispositionHeader(filename, inline))
  {
    KindNoLineBreak(inline);
    LegacyNoLineBreak(filename);
    EncodedNoLineBreak(filename);
    HeaderPartsNoLineBreak(DispositionType(inline), SanitizeFilename(filename), EncodeFilename(filename));
  }

  /** The text before the first `c`, and the rest from that `c` on. */
  function SplitAtChar(s: string, c: char): (r: (string, string))
    ensures r.0 + r.1 == s && c !in r.0
    ensures r.1 == [] || r.1[0] == c
  {
    if s == [] || s[0] == c then ([], s)
    else
      var p := SplitAtChar(s[1..], c);
      assert [s[0]] + p.0 + p.1 == s;
      ([s[0]] + p.0, p.1)
  }

  predicate StartsWith(s: string, prefix: string) {
    |prefix| <= |s| && s[..|prefix|] == prefix
  }

  /** Reads a header of the shape built above back into its type, its
      quoted file name and its ext-value, or `None`. */
  function ReadHeader(h: string): Option<(string, string, string)> {
    var (kind, afterKind) := SplitAtChar(h, ';');
    if !StartsWith(afterKind, "; filename=\"") then None
    else
      var (legacy, afterLegacy) := SplitAtChar(afterKind[12..], '"');
      if !StartsWith(afterLegacy, "\"; filename*=UTF-8''") then None
      else Some((kind, legacy, afterLegacy[20..]))
  }

  lemma SplitAtCharOf(a: string, c: char, b: string)
    requires c !in a && (b == [] || b[0] == c)
    ensures SplitAtChar(a + b, c) == (a, b)
  {
    if a != [] {
      assert a[0] in a;
      assert (a + b)[1..] == a[1..] + b;
      SplitAtCharOf(a[1..], c, b);
      assert [a[0]] + a[1..] == a;
    } else {
      assert a + b == b;
    }
  }

  lemma Halves(x: string, y: string)
    ensures (x + y)[..|x|] == x && (x + y)[|x|..] == y
  {
  }

  lemma ReadHeaderOf(kind: string, legacy: string, encoded: string)
    requires ';' !in kind && '"' !in legacy
    ensures ReadHeader(kind + "; filename=\"" + legacy + "\"; filename*=UTF-8''" + encoded) ==
      Some((kind, legacy, encoded))
  {
    var p1 := "; filename=\"";
    var p2 := "\"; filename*=UTF-8''";
    assert |p1| == 12 && |p2| == 20 && p1[0] == ';' && p2[0] == '"';
    var afterLegacy := p2 + encoded;
    var rest := legacy + afterLegacy;
    var afterKind := p1 + rest;
    assert kind + p1 + legacy + p2 + encoded == kind + afterKind;
    SplitAtCharOf(kind, ';', afterKind);
    Halves(p1, rest);
    SplitAtCharOf(legacy, '"', afterLegacy);
    Halves(p2, encoded);
  }

  /** `filename*` with `'` escaped as `%27`, one code point at a time. */
  function EncodeExtChar(c: char): (r: string)
    ensures c == '\'' ==> r == "%27"
    ensures c != '\'' ==> r == EncodeChar(c)
  {
    if c == '\'' then PercentEncode(Utf8(c)) else EncodeChar(c)
  }

  lemma {:induction false} EncodeFilenameCons(filename: string)
    requires filename != []
    ensures EncodeFilename(filename) == EncodeExtChar(filename[0]) + EncodeFilename(filename[1..])
  {
    var c := filename[0];
    var head := EncodeChar(c);
    ReplaceAllConcat(head, EncodeURIComponent(filename[1..]), '\'', "%27");
    if c == '\'' {
      assert head == ['\''];
      assert ReplaceAll(head, '\'', "%27") == "%27" + ReplaceAll([], '\'', "%27");
    } else {
      assert forall i :: 0 <= i < |head| ==> head[i] != '\'';
      assert '\'' !in head;
    }
  }

  lemma {:induction false} PercentDecodeFilename(filename: string)
    ensures PercentDecode(EncodeFilename(filename)) == Some(Utf8Encode(filename))
  {
    if filename != [] {
      var c := filename[0];
      EncodeFilenameCons(filename);
      PercentDecodeFilename(filename[1..]);
      if c == '\'' {
        PercentDecodeEncoded(Utf8(c), EncodeFilename(filename[1..]));
      } else {
        PercentDecodeChar(c, EncodeFilename(filename[1..]));
      }
    }
  }

  /** Percent-decoding the ext-value and reading the bytes as UTF-8 gives
      back the original file name (section 3.2.1 of RFC 8187). */
  lemma DecodeFilename(filename: string)
    ensures PercentDecode(EncodeFilename(filename)).Some?
    ensures Utf8Decode(PercentDecode(EncodeFilename(filename)).value) == Some(filename)
  {
    PercentDecodeFilename(filename);
    Utf8RoundTrip(filename);
  }

  /** A character outside ASCII appears as the upper-case `%XY` escapes of
      its UTF-8 bytes. */
  lemma NonAsciiEscaped(c: char)
    requires c as int >= 0x80
    ensures EncodeExtChar(c) == PercentEncode(Utf8(c)) && |EncodeExtChar(c)| == 3 * |Utf8(c)|
  {
  }
}
