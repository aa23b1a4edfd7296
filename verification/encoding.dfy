/** Output encoders: percent-encoding of URL path segments (section 2 of
    RFC 3986), HTML text escaping, and the href built for a relative path. */
module Encoding {
  import opened Bytes
  import opened Paths

  /** The unreserved set of section 2.3 of RFC 3986. */
  predicate IsUnreserved(c: Byte)
  {
    ('a' <= c <= 'z') || ('A' <= c <= 'Z') || ('0' <= c <= '9')
    || c == '-' || c == '_' || c == '.' || c == '~'
  }

  const HexDigits: ByteString := "0123456789ABCDEF"

  predicate IsUpperHex(c: Byte)
  {
    ('0' <= c <= '9') || ('A' <= c <= 'F')
  }

  function HexValue(c: Byte): nat
  {
    if '0' <= c <= '9' then c as int - '0' as int
    else if 'A' <= c <= 'F' then c as int - 'A' as int + 10
    else if 'a' <= c <= 'f' then c as int - 'a' as int + 10
    else 0
  }

  predicate IsHex(c: Byte)
  {
    ('0' <= c <= '9') || ('A' <= c <= 'F') || ('a' <= c <= 'f')
  }

  /** What urlEncode writes for one byte. */
  function EncodeByte(c: Byte): ByteString
  {
    if IsUnreserved(c) then [c]
    else if c == ' ' then "%20"
    else ['%', HexDigits[c as int / 16], HexDigits[c as int % 16]]
  }

  /** The percent-encoding of a byte string, byte by byte. */
  function PercentEncoded(text: ByteString): ByteString
  {
    if text == [] then [] else EncodeByte(text[0]) + PercentEncoded(text[1..])
  }

  /** Percent-decoding: "%" and two hex digits stand for one byte, every
      other byte for itself. */
  function PercentDecode(s: ByteString): ByteString
  {
    if s == [] then []
    else if |s| >= 3 && s[0] == '%' && IsHex(s[1]) && IsHex(s[2]) then
      [(HexValue(s[1]) * 16 + HexValue(s[2])) as char] + PercentDecode(s[3..])
    else [s[0]] + PercentDecode(s[1..])
  }

  /** One byte becomes itself when it is unreserved, otherwise '%' and two
      upper-case hex digits of its value (section 2.1 of RFC 3986). */
  lemma EncodeByteShape(c: Byte)
    ensures IsUnreserved(c) ==> EncodeByte(c) == [c]
    ensures !IsUnreserved(c) ==>
              |EncodeByte(c)| == 3 && EncodeByte(c)[0] == '%'
              && IsUpperHex(EncodeByte(c)[1]) && IsUpperHex(EncodeByte(c)[2])
              && HexValue(EncodeByte(c)[1]) * 16 + HexValue(EncodeByte(c)[2]) == c as int
  {
    if !IsUnreserved(c) && c != ' ' {
      HexDigitValue(c as int / 16);
      HexDigitValue(c as int % 16);
    }
  }

  /** The digit written for a value below 16 is an upper-case hex digit of that value. */
  lemma HexDigitValue(d: nat)
    requires d < 16
    ensures IsUpperHex(HexDigits[d]) && HexValue(HexDigits[d]) == d
  {
  }

  lemma {:induction false} EncodedSnoc(text: ByteString, c: Byte)
    ensures PercentEncoded(text + [c]) == PercentEncoded(text) + EncodeByte(c)
    decreases |text|
  {
    if text == [] {
      assert [] + [c] == [c];
    } else {
      assert (text + [c])[1..] == text[1..] + [c];
      EncodedSnoc(text[1..], c);
    }
  }

  /** Each byte yields 1 or 3 output bytes, and the output holds only
      unreserved bytes, '%' and upper-case hex digits; never a '/'. */
  lemma {:induction false} EncodedAlphabet(text: ByteString)
    ensures |text| <= |PercentEncoded(text)| <= 3 * |text|
    ensures forall i :: 0 <= i < |PercentEncoded(text)| ==>
              var c := PercentEncoded(text)[i];
              IsUnreserved(c) || c == '%' || IsUpperHex(c)
  {
    if text != [] {
      EncodedAlphabet(text[1..]);
      EncodeByteShape(text[0]);
      var e := EncodeByte(text[0]);
      var rest := PercentEncoded(text[1..]);
      assert PercentEncoded(text) == e + rest;
      forall i | 0 <= i < |e + rest|
        ensures IsUnreserved((e + rest)[i]) || (e + rest)[i] == '%' || IsUpperHex((e + rest)[i])
      {
        if i >= |e| {
          assert (e + rest)[i] == rest[i - |e|];
        }
      }
    }
  }

  lemma NoSeparatorInEncoding(text: ByteString)
    ensures '/' !in PercentEncoded(text)
  {
    EncodedAlphabet(text);
  }

  /** Decoding undoes the encoding of a leading byte. */
  lemma DecodeEncodedByte(c: Byte, rest: ByteString)
    ensures PercentDecode(EncodeByte(c) + rest) == [c] + PercentDecode(rest)
  {
    EncodeByteShape(c);
    var e := EncodeByte(c);
    if IsUnreserved(c) {
      assert (e + rest)[1..] == rest;
    } else {
      assert (e + rest)[3..] == rest;
    }
  }

  lemma DecodeEncodedCons(text: ByteString, rest: ByteString)
    requires text != []
    ensures PercentDecode(PercentEncoded(text) + rest)
            == [text[0]] + PercentDecode(PercentEncoded(text[1..]) + rest)
  {
    var tail := PercentEncoded(text[1..]) + rest;
    assert PercentEncoded(text) + rest == EncodeByte(text[0]) + tail;
    DecodeEncodedByte(text[0], tail);
  }

  /** Percent-decoding the output of urlEncode followed by any text gives the
      input back, followed by the decoding of that text. */
  lemma {:induction false} DecodeEncodedPrefix(text: ByteString, rest: ByteString)
    ensures PercentDecode(PercentEncoded(text) + rest) == text + PercentDecode(rest)
    decreases |text|
  {
    if text == [] {
      assert PercentEncoded(text) + rest == rest;
    } else {
      DecodeEncodedCons(text, rest);
      DecodeEncodedPrefix(text[1..], rest);
      ConsAppend(text, PercentDecode(rest));
    }
  }

  /** Round trip: percent-decoding the output of urlEncode gives the input. */
  lemma DecodeEncoded(text: ByteString)
    ensures PercentDecode(PercentEncoded(text)) == text
  {
    DecodeEncodedPrefix(text, []);
    assert PercentEncoded(text) + [] == PercentEncoded(text);
  }

  /** What one pass of urlEncode's loop appends for a byte. */
  method EncodeOne(ch: Byte) returns (piece: ByteString)
    ensures piece == EncodeByte(ch)
  {
    if IsUnreserved(ch) {
      piece := [ch];
    } else if ch == ' ' {
      piece := "%20";
    } else {
      HighNibble(ch);
      piece := ['%', HexDigits[(ch as int / 16) % 16], HexDigits[ch as int % 16]];
    }
  }

  /** (ch >> 4) & 0x0F of a byte is its high nibble: the mask drops nothing. */
  lemma HighNibble(c: Byte)
    ensures c as int / 16 < 16 && (c as int / 16) % 16 == c as int / 16
  {
  }

  lemma EncodeStep(text: ByteString, i: nat, encoded: ByteString)
    requires i < |text| && encoded == PercentEncoded(text[..i])
    ensures encoded + EncodeByte(text[i]) == PercentEncoded(text[..i + 1])
  {
    EncodedSnoc(text[..i], text[i]);
    assert text[..i + 1] == text[..i] + [text[i]];
  }

  /** urlEncode: unreserved bytes are copied, every other byte becomes "%XX". */
  method UrlEncode(text: ByteString) returns (encoded: ByteString)
    ensures encoded == PercentEncoded(text)
  {
    encoded := [];
    for i := 0 to |text|
      invariant encoded == PercentEncoded(text[..i])
    {
      var piece := EncodeOne(text[i]);
      EncodeStep(text, i, encoded);
      encoded := encoded + piece;
    }
    assert text[..|text|] == text;
  }

  /** The bytes escapeForHtml rewrites. */
  predicate IsHtmlSpecial(c: Byte)
  {
    c == '&' || c == '<' || c == '>' || c == '"' || c == '\''
  }

  /** What escapeForHtml writes for one byte. */
  function EscapeByte(c: Byte): ByteString
  {
    if c == '&' then "&amp;"
    else if c == '<' then "&lt;"
    else if c == '>' then "&gt;"
    else if c == '"' then "&quot;"
    else if c == '\'' then "&#39;"
    else [c]
  }

  function HtmlEscaped(text: ByteString): ByteString
  {
    if text == [] then [] else EscapeByte(text[0]) + HtmlEscaped(text[1..])
  }

  /** `t` begins with one of the five character references escapeForHtml writes. */
  predicate StartsEntity(t: ByteString)
  {
    "&amp;" <= t || "&lt;" <= t || "&gt;" <= t || "&quot;" <= t || "&#39;" <= t
  }

  /** Inverse of the escaping: each of the five references stands for its byte. */
  function HtmlUnescape(s: ByteString): ByteString
    decreases |s|
  {
    if s == [] then []
    else if "&amp;" <= s then "&" + HtmlUnescape(s[5..])
    else if "&lt;" <= s then "<" + HtmlUnescape(s[4..])
    else if "&gt;" <= s then ">" + HtmlUnescape(s[4..])
    else if "&quot;" <= s then "\"" + HtmlUnescape(s[6..])
    else if "&#39;" <= s then "'" + HtmlUnescape(s[5..])
    else [s[0]] + HtmlUnescape(s[1..])
  }

  /** Text that can be dropped into HTML: no '<', '>', '"' or '\'' and every
      '&' begins a character reference. */
  ghost predicate HtmlSafe(s: ByteString)
  {
    && (forall i :: 0 <= i < |s| ==> s[i] != '<' && s[i] != '>' && s[i] != '"' && s[i] != '\'')
    && (forall i :: 0 <= i < |s| && s[i] == '&' ==> StartsEntity(s[i..]))
  }

  lemma HtmlSafeConcat(e: ByteString, rest: ByteString)
    requires HtmlSafe(e) && HtmlSafe(rest)
    ensures HtmlSafe(e + rest)
  {
    var s := e + rest;
    forall i | 0 <= i < |s| && s[i] == '&' ensures StartsEntity(s[i..]) {
      if i < |e| {
        assert e[i..] <= s[i..];
      } else {
        assert s[i..] == rest[i - |e|..];
      }
    }
    forall i | 0 <= i < |s| ensures s[i] != '<' && s[i] != '>' && s[i] != '"' && s[i] != '\'' {
      if i >= |e| {
        assert s[i] == rest[i - |e|];
      }
    }
  }

  /** A character reference is safe: its only '&' is the first byte. */
  lemma EntitySafe(e: ByteString)
    requires e == "&amp;" || e == "&lt;" || e == "&gt;" || e == "&quot;" || e == "&#39;"
    ensures HtmlSafe(e)
  {
    assert StartsEntity(e[0..]) by {
      assert e[0..] == e;
    }
    assert forall i :: 0 < i < |e| ==> e[i] != '&';
  }

  lemma EscapeByteSafe(c: Byte)
    ensures HtmlSafe(EscapeByte(c))
  {
    if IsHtmlSpecial(c) {
      EntitySafe(EscapeByte(c));
    }
  }

  /** escapeForHtml output is safe: no '<', '>', '"' or '\'' survives, and
      every '&' begins "&amp;", "&lt;", "&gt;", "&quot;" or "&#39;". */
  lemma {:induction false} EscapedIsSafe(text: ByteString)
    ensures HtmlSafe(HtmlEscaped(text))
    decreases |text|
  {
    if text != [] {
      EscapedIsSafe(text[1..]);
      EscapeByteSafe(text[0]);
      HtmlSafeConcat(EscapeByte(text[0]), HtmlEscaped(text[1..]));
    }
  }

  /** Unescaping the text escapeForHtml writes for one byte, followed by any
      text, gives the byte back first. */
  lemma UnescapeEscapedByte(c: Byte, rest: ByteString)
    ensures HtmlUnescape(EscapeByte(c) + rest) == [c] + HtmlUnescape(rest)
  {
    if IsHtmlSpecial(c) {
      UnescapeEntity(c, rest);
    } else {
      var s := [c] + rest;
      assert EscapeByte(c) == [c];
      assert s[0] == c && s[1..] == rest;
    }
  }

  /** Each of the five entities is matched by its own test of the unescaping. */
  lemma UnescapeEntity(c: Byte, rest: ByteString)
    requires IsHtmlSpecial(c)
    ensures HtmlUnescape(EscapeByte(c) + rest) == [c] + HtmlUnescape(rest)
  {
    var e := EscapeByte(c);
    var s := e + rest;
    PrefixThen(e, rest);
    assert s[1] == e[1];
    var n := |e|;
    assert s[n..] == rest;
    if c == '&' {
      assert HtmlUnescape(s) == "&" + HtmlUnescape(s[5..]);
    } else if c == '<' {
      assert HtmlUnescape(s) == "<" + HtmlUnescape(s[4..]);
    } else if c == '>' {
      assert HtmlUnescape(s) == ">" + HtmlUnescape(s[4..]);
    } else if c == '"' {
      assert HtmlUnescape(s) == "\"" + HtmlUnescape(s[6..]);
    } else {
      assert HtmlUnescape(s) == "'" + HtmlUnescape(s[5..]);
    }
  }

  /** Round trip: unescaping the output of escapeForHtml gives the input, so
      every byte other than the five specials is copied unchanged and in order. */
  lemma {:induction false} UnescapeEscaped(text: ByteString)
    ensures HtmlUnescape(HtmlEscaped(text)) == text
    decreases |text|
  {
    if text != [] {
      UnescapeEscaped(text[1..]);
      UnescapeEscapedByte(text[0], HtmlEscaped(text[1..]));
      ConsAppend(text, []);
    }
  }

  /** Text without special bytes is left exactly as it is. */
  lemma {:induction false} EscapePlain(text: ByteString)
    requires forall i :: 0 <= i < |text| ==> !IsHtmlSpecial(text[i])
    ensures HtmlEscaped(text) == text
    decreases |text|
  {
    if text != [] {
      EscapePlain(text[1..]);
      assert [text[0]] + text[1..] == text;
    }
  }

  lemma {:induction false} EscapedSnoc(text: ByteString, c: Byte)
    ensures HtmlEscaped(text + [c]) == HtmlEscaped(text) + EscapeByte(c)
    decreases |text|
  {
    if text == [] {
      assert [] + [c] == [c];
    } else {
      assert (text + [c])[1..] == text[1..] + [c];
      EscapedSnoc(text[1..], c);
    }
  }

  /** What one pass of escapeForHtml's loop appends for a byte. */
  method EscapeOne(ch: Byte) returns (piece: ByteString)
    ensures piece == EscapeByte(ch)
  {
    if ch == '&' {
      piece := "&amp;";
    } else if ch == '<' {
      piece := "&lt;";
    } else if ch == '>' {
      piece := "&gt;";
    } else if ch == '"' {
      piece := "&quot;";
    } else if ch == '\'' {
      piece := "&#39;";
    } else {
      piece := [ch];
    }
  }

  /** escapeForHtml. */
  method EscapeForHtml(text: ByteString) returns (escaped: ByteString)
    ensures escaped == HtmlEscaped(text)
  {
    escaped := [];
    for i := 0 to |text|
      invariant escaped == HtmlEscaped(text[..i])
    {
      var piece := EscapeOne(text[i]);
      EscapeStep(text, i, escaped);
      escaped := escaped + piece;
    }
    assert text[..|text|] == text;
  }

  lemma EscapeStep(text: ByteString, i: nat, escaped: ByteString)
    requires i < |text| && escaped == HtmlEscaped(text[..i])
    ensures escaped + EscapeByte(text[i]) == HtmlEscaped(text[..i + 1])
  {
    EscapedSnoc(text[..i], text[i]);
    assert text[..i + 1] == text[..i] + [text[i]];
  }

  function EncodeAll(segs: seq<ByteString>): seq<ByteString>
  {
    if segs == [] then [] else [PercentEncoded(segs[0])] + EncodeAll(segs[1..])
  }

  lemma {:induction false} EncodeAllAt(segs: seq<ByteString>)
    ensures |EncodeAll(segs)| == |segs|
    ensures forall i :: 0 <= i < |segs| ==> EncodeAll(segs)[i] == PercentEncoded(segs[i])
    decreases |segs|
  {
    if segs != [] {
      EncodeAllAt(segs[1..]);
    }
  }

  /** The href of a relative path: "/" followed by the url-encoded non-empty
      elements joined with '/'; just "/" when there are none. */
  function Href(relativePath: ByteString): ByteString
  {
    if relativePath == [] then "/"
    else
      var names := NonEmpty(Iterate(relativePath));
      if names == [] then "/" else "/" + Join(EncodeAll(names))
  }

  /** No two separators in a row. */
  ghost predicate NoDoubleSlash(s: ByteString)
  {
    forall i :: 0 <= i < |s| - 1 ==> !(s[i] == '/' && s[i + 1] == '/')
  }

  lemma {:induction false} JoinNoDoubleSlash(pieces: seq<ByteString>)
    requires forall i :: 0 <= i < |pieces| ==> pieces[i] != [] && '/' !in pieces[i]
    ensures NoDoubleSlash(Join(pieces))
    ensures pieces != [] ==> Join(pieces) != [] && Join(pieces)[0] != '/' && Last(Join(pieces)) != '/'
    decreases |pieces|
  {
    if |pieces| > 1 {
      JoinNoDoubleSlash(pieces[1..]);
      var a, b := pieces[0], Join(pieces[1..]);
      var s := a + "/" + b;
      assert a[0] != '/' && Last(a) != '/' by {
        assert a[0] in a && Last(a) in a;
      }
      forall i | 0 <= i < |s| - 1 ensures !(s[i] == '/' && s[i + 1] == '/') {
        if i < |a| - 1 {
          assert s[i + 1] == a[i + 1] && a[i + 1] in a;
        } else if i == |a| - 1 {
          assert s[i] == Last(a);
        } else if i == |a| {
          assert s[i + 1] == b[0];
        } else {
          assert s[i] == b[i - |a| - 1] && s[i + 1] == b[i - |a|];
        }
      }
    } else if |pieces| == 1 {
      assert pieces[0][0] in pieces[0] && Last(pieces[0]) in pieces[0];
    }
  }

  /** The href starts with '/', never holds "//", and is "/" exactly when the
      path has no non-empty element. */
  lemma HrefShape(relativePath: ByteString)
    ensures var r := Href(relativePath);
            && |r| >= 1 && r[0] == '/'
            && NoDoubleSlash(r)
            && (r == "/" <==> relativePath == [] || NonEmpty(Iterate(relativePath)) == [])
  {
    var r := Href(relativePath);
    if relativePath != [] && NonEmpty(Iterate(relativePath)) != [] {
      var names := NonEmpty(Iterate(relativePath));
      var enc := EncodeAll(names);
      EncodeAllAt(names);
      forall i | 0 <= i < |enc| ensures enc[i] != [] && '/' !in enc[i] {
        EncodedAlphabet(names[i]);
        NoSeparatorInEncoding(names[i]);
      }
      JoinNoDoubleSlash(enc);
      var j := Join(enc);
      assert r == "/" + j;
      forall i | 0 <= i < |r| - 1 ensures !(r[i] == '/' && r[i + 1] == '/') {
        if i > 0 {
          assert r[i] == j[i - 1] && r[i + 1] == j[i];
        }
      }
    }
  }

  /** Percent-decoding the joined encodings gives the joined segments. */
  lemma {:induction false} DecodeJoined(segs: seq<ByteString>)
    ensures PercentDecode(Join(EncodeAll(segs))) == Join(segs)
    decreases |segs|
  {
    if |segs| == 1 {
      DecodeEncoded(segs[0]);
    } else if |segs| > 1 {
      var rest := Join(EncodeAll(segs[1..]));
      assert EncodeAll(segs)[1..] == EncodeAll(segs[1..]);
      assert Join(EncodeAll(segs)) == PercentEncoded(segs[0]) + ("/" + rest);
      DecodeJoined(segs[1..]);
      DecodeAfterSeparator(segs[0], rest);
    }
  }

  /** Decoding an encoded segment, a separator and more text decodes each part. */
  lemma DecodeAfterSeparator(first: ByteString, rest: ByteString)
    ensures PercentDecode(PercentEncoded(first) + ("/" + rest)) == first + "/" + PercentDecode(rest)
  {
    var tail := "/" + rest;
    DecodeEncodedPrefix(first, tail);
    DecodePlainByte('/', rest);
    assert PercentDecode(tail) == "/" + PercentDecode(rest);
    assert first + PercentDecode(tail) == first + "/" + PercentDecode(rest);
  }

  /** A byte other than '%' decodes to itself. */
  lemma DecodePlainByte(c: Byte, rest: ByteString)
    requires c != '%'
    ensures PercentDecode([c] + rest) == [c] + PercentDecode(rest)
  {
    assert ([c] + rest)[1..] == rest;
  }

  /** A browser that follows the href and percent-decodes it gets back the
      non-empty elements of the path, joined with '/'. */
  lemma HrefDecodes(relativePath: ByteString)
    requires NonEmpty(Iterate(relativePath)) != []
    ensures PercentDecode(Href(relativePath)[1..]) == Join(NonEmpty(Iterate(relativePath)))
  {
    var names := NonEmpty(Iterate(relativePath));
    assert Href(relativePath) == "/" + Join(EncodeAll(names));
    assert Href(relativePath)[1..] == Join(EncodeAll(names));
    DecodeJoined(names);
  }

  lemma {:induction false} NonEmptySnoc(pieces: seq<ByteString>, x: ByteString)
    ensures NonEmpty(pieces + [x]) == NonEmpty(pieces) + (if x == [] then [] else [x])
    decreases |pieces|
  {
    if pieces == [] {
      assert [] + [x] == [x];
    } else {
      assert (pieces + [x])[1..] == pieces[1..] + [x];
      NonEmptySnoc(pieces[1..], x);
    }
  }

  lemma NonEmptyPrefixStep(pieces: seq<ByteString>, i: nat)
    requires i < |pieces|
    ensures NonEmpty(pieces[..i + 1]) == NonEmpty(pieces[..i]) + (if pieces[i] == [] then [] else [pieces[i]])
  {
    NonEmptySnoc(pieces[..i], pieces[i]);
    assert pieces[..i + 1] == pieces[..i] + [pieces[i]];
  }

  /** Appending one non-empty segment to a joined encoding. */
  lemma JoinEncodedSnoc(done: seq<ByteString>, segment: ByteString)
    ensures Join(EncodeAll(done + [segment])) ==
            if done == [] then PercentEncoded(segment)
            else Join(EncodeAll(done)) + "/" + PercentEncoded(segment)
  {
    EncodeAllAt(done + [segment]);
    EncodeAllAt(done);
    assert EncodeAll(done + [segment]) == EncodeAll(done) + [PercentEncoded(segment)];
    if done != [] {
      JoinSnoc(EncodeAll(done), PercentEncoded(segment));
    }
  }

  /** One step of the href loop: appending the separator (unless this is
      the first segment) and the encoded segment extends the href of the
      segments seen so far to the href of one more segment. */
  lemma HrefStep(href: ByteString, done: seq<ByteString>, segment: ByteString)
    requires href == "/" + Join(EncodeAll(done))
    ensures (if done == [] then href else href + "/") + PercentEncoded(segment)
            == "/" + Join(EncodeAll(done + [segment]))
  {
    JoinEncodedSnoc(done, segment);
    SlashedSnoc(href, Join(EncodeAll(done)), PercentEncoded(segment),
                Join(EncodeAll(done + [segment])), done == []);
  }

  /** The string step of HrefStep, apart from any encoding. */
  lemma SlashedSnoc(href: ByteString, j: ByteString, p: ByteString, joined: ByteString, first: bool)
    requires href == "/" + j
    requires first ==> j == [] && joined == p
    requires !first ==> joined == j + "/" + p
    ensures (if first then href else href + "/") + p == "/" + joined
  {
    if !first {
      assert ("/" + j) + "/" + p == "/" + (j + "/" + p);
    } else {
      assert "/" + j + p == "/" + p;
    }
  }

  /** buildHrefForPath: walks the elements of the path, skipping empty ones,
      and appends each url-encoded element after a '/' separator. */
  method BuildHrefForPath(relativePath: ByteString) returns (href: ByteString)
    ensures href == Href(relativePath)
  {
    if relativePath == [] {
      return "/";
    }
    var elements := Iterate(relativePath);
    href := "/";
    var firstSegment := true;
    ghost var done: seq<ByteString> := [];
    for i := 0 to |elements|
      invariant done == NonEmpty(elements[..i])
      invariant firstSegment <==> done == []
      invariant href == "/" + Join(EncodeAll(done))
    {
      var segment := elements[i];
      NonEmptyPrefixStep(elements, i);
      if segment == [] {
        continue;
      }
      HrefStep(href, done, segment);
      if !firstSegment {
        href := href + "/";
      }
      var encoded := UrlEncode(segment);
      href := href + encoded;
      firstSegment := false;
      done := done + [segment];
    }
    assert elements[..|elements|] == elements;
  }
}
