/** The Content-Disposition header of a file download: a quoted filename
    parameter with '"' and '\' replaced by '_', followed by an extended
    filename* parameter in UTF-8 with the name percent-encoded (section 4.3
    of RFC 6266, section 3.2 of RFC 8187). */
module Disposition {
  import opened Bytes
  import opened Strings
  import opened Encoding

  const DispositionStart: ByteString := "attachment; filename=\""
  const ExtendedStart: ByteString := "\"; filename*=UTF-8''"

  /** The bytes that cannot appear inside the quoted filename. */
  const QuoteOrBackslash: set<Byte> := {'"', '\\'}

  /** The header value for a download of `filename`. */
  function ContentDisposition(filename: ByteString): ByteString
  {
    DispositionStart + Underscored(filename, QuoteOrBackslash) + ExtendedStart + PercentEncoded(filename)
  }

  /** buildContentDispositionHeader: a copy of the name is underscored in
      place, the name itself is url-encoded, and the pieces are concatenated. */
  method BuildContentDispositionHeader(filename: ByteString) returns (header: ByteString)
    ensures header == ContentDisposition(filename)
  {
    var quoted := UnderscoredCopy(filename, QuoteOrBackslash);
    var encoded := UrlEncode(filename);
    header := DispositionStart + quoted + ExtendedStart + encoded;
  }

  /** The two parameters a recipient reads from the header. */
  datatype Parameters = Parameters(quoted: ByteString, extended: ByteString)

  /** A recipient's reading of the header: the quoted name runs up to the
      first '"', which must open the extended parameter; the extended value
      is percent-decoded. */
  function ParseDisposition(header: ByteString): Option<Parameters>
  {
    if !(DispositionStart <= header) then None
    else
      var rest := header[|DispositionStart|..];
      var k := FirstIndexOf(rest, '"');
      var tail := rest[k..];
      if ExtendedStart <= tail then
        Some(Parameters(rest[..k], PercentDecode(tail[|ExtendedStart|..])))
      else None
  }

  lemma FirstIndexAfter(q: ByteString, tail: ByteString, c: Byte)
    requires c !in q && |tail| > 0 && tail[0] == c
    ensures FirstIndexOf(q + tail, c) == |q|
  {
    assert (q + tail)[|q|] == c;
  }

  /** A header assembled from a quoted part without '"' and an extended
      value reads back as those two parts. */
  lemma ParseParts(q: ByteString, e: ByteString)
    requires '"' !in q
    ensures ParseDisposition(DispositionStart + q + ExtendedStart + e)
            == Some(Parameters(q, PercentDecode(e)))
  {
    var tail := ExtendedStart + e;
    var rest := q + tail;
    assert DispositionStart + q + ExtendedStart + e == DispositionStart + rest;
    PrefixThen(DispositionStart, rest);
    ExtendedStartsWithQuote(e);
    FirstIndexAfter(q, tail, '"');
    PrefixThen(q, tail);
    PrefixThen(ExtendedStart, e);
  }

  lemma ExtendedStartsWithQuote(e: ByteString)
    ensures |ExtendedStart + e| > 0 && (ExtendedStart + e)[0] == '"'
  {
  }

  /** The header reads back unambiguously: the quoted parameter is the name
      with '"' and '\' replaced by '_', and the extended parameter decodes to
      the name itself. */
  lemma DispositionRoundTrip(filename: ByteString)
    ensures ParseDisposition(ContentDisposition(filename))
            == Some(Parameters(Underscored(filename, QuoteOrBackslash), filename))
  {
    QuotedName(filename);
    ParseParts(Underscored(filename, QuoteOrBackslash), PercentEncoded(filename));
    DecodeEncoded(filename);
  }

  /** The quoted parameter has the length of the name, holds no '"' or '\',
      and is the name itself when the name holds neither. */
  lemma QuotedName(filename: ByteString)
    ensures var q := Underscored(filename, QuoteOrBackslash);
            && |q| == |filename|
            && '"' !in q && '\\' !in q
            && ('"' !in filename && '\\' !in filename ==> q == filename)
  {
    if '"' !in filename && '\\' !in filename {
      UnderscoredUnchanged(filename, QuoteOrBackslash);
    }
  }
}
