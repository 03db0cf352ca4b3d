/** Original-quality delivery of a video on the media route: the Range
    header is read without validation, an open-ended range is clamped to
    a 10 MiB chunk, and the reply is 206 with Content-Range (or 200 for the
    whole file). The header fields follow the partial-content rules of
    section 14.4 of RFC 9110 (Content-Range) when the range is satisfiable.
    The handler checks nothing itself: fs.createReadStream's own argument
    check throws for bounds it cannot read, before any head is written. A
    checked variant of the branch, answering 416 instead, stands beside the
    one the code has. */
module RangeServing {
  import opened JsRuntime

  /** The chunk an open-ended range is clamped to: 10 MiB. */
  const ChunkSize: int := 10 * 1024 * 1024

  const AcceptRanges: string := "bytes"
  const CacheControl: string := "public, max-age=3600"

  /** The first and last byte the handler computes; NaN stays NaN. */
  datatype Bounds = Bounds(start: Number, end: Number)

  /** `range.replace(/bytes=/, "").split("-")`, then parseInt of the two
      pieces; an absent or empty second piece becomes
      Math.min(start + CHUNK_SIZE - 1, fileSize - 1). */
  function ParseRange(range: string, fileSize: nat): (b: Bounds)
    ensures b.start.Some? ==> b.start.value >= 0
  {
    var parts := RangePieces(range);
    var start := ParseInt(parts[0], Decimal);
    var end :=
      if |parts| > 1 && parts[1] != [] then ParseInt(parts[1], Decimal)
      else match start
           case None => None
           case Some(s) => Some(Min(s + ChunkSize - 1, fileSize - 1));
    Bounds(start, end)
  }

  function RangePieces(range: string): (parts: seq<string>)
    ensures |parts| >= 1 && forall k :: 0 <= k < |parts| ==> '-' !in parts[k]
  {
    Split(ReplaceFirst(range, "bytes=", ""), '-')
  }

  /** `(end - start) + 1`, NaN when either bound is. */
  function ChunkLength(b: Bounds): Number
  {
    if b.start.Some? && b.end.Some? then Some(b.end.value - b.start.value + 1) else None
  }

  /** The Content-Range template `bytes ${start}-${end}/${fileSize}`. */
  function ContentRangeValue(b: Bounds, fileSize: nat): string
  {
    "bytes " + NumberToString(b.start) + "-" + NumberToString(b.end) + "/" + NatToString(fileSize)
  }

  /** The header object handed to res.writeHead, with its status. */
  datatype Head = Head(status: int, contentRange: Option<string>, acceptRanges: string,
                       contentLength: Number, contentType: string, cacheControl: string)

  /** The head of the reply and the bytes piped after it: the whole file
      (None) or the span from start to end inclusive. */
  datatype OriginalReply = OriginalReply(head: Head, span: Option<Bounds>)

  /** The 206 reply for the bounds the handler computed: Content-Range,
      Content-Length and the span read from the file, with no check that the
      bounds lie inside the file or in order. */
  function PartialReply(b: Bounds, fileSize: nat, contentType: string): (r: OriginalReply)
    ensures r.head.status == 206 && r.span == Some(b)
    ensures r.head.acceptRanges == AcceptRanges && r.head.contentType == contentType
  {
    OriginalReply(Head(206, Some(ContentRangeValue(b, fileSize)), AcceptRanges, ChunkLength(b),
                       contentType, CacheControl),
                  Some(b))
  }

  /** The check fs.createReadStream makes of `{ start, end }` before it
      returns: both bounds integers (NaN is not), start at least 0 and no
      greater than end. Otherwise it throws ERR_OUT_OF_RANGE. An end past
      the last byte passes: the stream just stops at the end of the file. */
  predicate StreamableBounds(b: Bounds)
    // bounds the stream accepts always announce at least one byte
    ensures StreamableBounds(b) ==> ChunkLength(b).Some? && ChunkLength(b).value >= 1
  {
    b.start.Some? && b.end.Some? && 0 <= b.start.value <= b.end.value
  }

  /** What the branch does: write a head and pipe the bytes, or throw from
      createReadStream, which runs before res.writeHead(206). The handler is
      async, so the throw rejects its promise and no reply is written. */
  datatype OriginalOutcome = Sent(reply: OriginalReply) | ReadStreamThrows

  /** The 200 reply announcing the whole file. */
  function WholeFile(fileSize: nat, contentType: string): (r: OriginalReply)
    ensures r.head.status == 200 && r.span.None? && r.head.contentRange.None?
    ensures r.head.contentLength == Some(fileSize)
  {
    OriginalReply(Head(200, None, AcceptRanges, Some(fileSize), contentType, CacheControl), None)
  }

  /** The original-quality branch of the media route, for a Range header
      `range` ("" when absent) and a file of `fileSize` bytes. */
  function ServeOriginal(range: string, fileSize: nat, contentType: string): (r: OriginalOutcome)
    ensures r.Sent? && r.reply.head.status == 200 <==> range == []
    // a range is answered 206 exactly when the read stream accepts its bounds
    ensures r.Sent? && r.reply.head.status == 206 <==>
              range != [] && StreamableBounds(ParseRange(range, fileSize))
    ensures r.ReadStreamThrows? <==> range != [] && !StreamableBounds(ParseRange(range, fileSize))
    ensures r.Sent? ==>
              r.reply.head.acceptRanges == AcceptRanges && r.reply.head.contentType == contentType &&
              r.reply.head.cacheControl == CacheControl
    ensures range == [] ==> r == Sent(WholeFile(fileSize, contentType))
    // a 206 pipes the parsed span and announces its length, at least one byte
    ensures r.Sent? && range != [] ==>
              r.reply.span == Some(ParseRange(range, fileSize)) &&
              r.reply.head.contentLength.Some? && r.reply.head.contentLength.value >= 1 &&
              r.reply.head.contentLength == ChunkLength(ParseRange(range, fileSize))
  {
    if range == [] then Sent(WholeFile(fileSize, contentType))
    else
      var b := ParseRange(range, fileSize);
      if StreamableBounds(b) then Sent(PartialReply(b, fileSize, contentType)) else ReadStreamThrows
  }

  // ----- what a client reads back -----

  /** A non-empty run of decimal digits followed by `sep`: its value and
      what follows the separator. */
  function ReadField(s: string, sep: char): Option<(nat, string)>
  {
    var n := DigitRun(s, 10);
    if n == 0 || n == |s| || s[n] != sep then None
    else Some((DigitsValue(s[..n], 10), s[n + 1..]))
  }

  /** A string that is all decimal digits, and its value. */
  function ReadLastField(s: string): Option<nat>
  {
    if s == [] || DigitRun(s, 10) != |s| then None
    else Some(DigitsValue(s, 10))
  }

  /** A reader of the Content-Range value "bytes first-last/length" with
      non-negative decimal fields, independent of how the server builds it. */
  function ParseContentRange(v: string): Option<(nat, nat, nat)>
  {
    if |v| < 6 || v[..6] != "bytes " then None
    else
      match ReadField(v[6..], '-')
      case None => None
      case Some((first, r2)) =>
        match ReadField(r2, '/')
        case None => None
        case Some((last, r3)) =>
          match ReadLastField(r3)
          case None => None
          case Some(length) => Some((first, last, length))
  }

  lemma ReadFieldOfNumeral(n: nat, sep: char, rest: string)
    requires !IsDecimalDigit(sep)
    ensures ReadField(NatToString(n) + [sep] + rest, sep) == Some((n, rest))
  {
    var d := NatToString(n);
    var s := d + [sep] + rest;
    assert s == d + ([sep] + rest);
    DigitRunOfPrefix(d, [sep] + rest, 10);
    assert s[..|d|] == d;
    assert s[|d| + 1..] == rest;
    NatToStringValue(n);
  }

  lemma ReadLastFieldOfNumeral(n: nat)
    ensures ReadLastField(NatToString(n)) == Some(n)
  {
    var d := NatToString(n);
    DigitRunOfPrefix(d, "", 10);
    assert d + "" == d;
    NatToStringValue(n);
  }

  /** A client parsing the Content-Range the handler writes for numeric
      bounds gets back exactly the first byte, the last byte and the size. */
  lemma ContentRangeRoundTrip(start: nat, end: nat, fileSize: nat)
    ensures ParseContentRange(ContentRangeValue(Bounds(Some(start), Some(end)), fileSize))
            == Some((start, end, fileSize))
  {
    var ds, de, dn := NatToString(start), NatToString(end), NatToString(fileSize);
    var v := ContentRangeValue(Bounds(Some(start), Some(end)), fileSize);
    assert v == "bytes " + (ds + "-" + (de + "/" + dn));
    assert v[6..] == ds + "-" + (de + "/" + dn);
    ReadFieldOfNumeral(start, '-', de + "/" + dn);
    ReadFieldOfNumeral(end, '/', dn);
    ReadLastFieldOfNumeral(fileSize);
  }

  // ----- the Range headers a client sends -----

  lemma StripBytesPrefix(x: string)
    ensures ReplaceFirst("bytes=" + x, "bytes=", "") == x
  {
    var s := "bytes=" + x;
    assert s[..6] == "bytes=";
    assert MatchesAt(s, "bytes=", 0);
    assert s[6..] == x;
  }

  lemma PiecesOfRange(ds: string, de: string)
    requires '-' !in ds && '-' !in de
    ensures RangePieces("bytes=" + ds + "-" + de) == [ds, de]
  {
    assert "bytes=" + ds + "-" + de == "bytes=" + (ds + "-" + de);
    StripBytesPrefix(ds + "-" + de);
    SplitAtFirst(ds, de, '-');
    SplitWithoutSeparator(de, '-');
  }

  /** `bytes=<start>-<end>` is read back as written. */
  lemma ParseExplicitRange(start: nat, end: nat, fileSize: nat)
    ensures ParseRange("bytes=" + NatToString(start) + "-" + NatToString(end), fileSize)
            == Bounds(Some(start), Some(end))
  {
    PiecesOfRange(NatToString(start), NatToString(end));
    ParseIntRoundTrip(start, Decimal);
    ParseIntRoundTrip(end, Decimal);
  }

  /** `bytes=<start>-` gets the end Math.min(start + 10 MiB - 1, fileSize - 1). */
  lemma ParseOpenRange(start: nat, fileSize: nat)
    ensures ParseRange("bytes=" + NatToString(start) + "-", fileSize)
            == Bounds(Some(start), Some(Min(start + ChunkSize - 1, fileSize - 1)))
  {
    var ds := NatToString(start);
    var range := "bytes=" + ds + "-";
    assert "bytes=" + ds + "-" + "" == range;
    PiecesOfRange(ds, "");
    ParseIntRoundTrip(start, Decimal);
    OpenRangeOfPieces(range, fileSize, start);
  }

  lemma OpenRangeOfPieces(range: string, fileSize: nat, start: nat)
    requires |RangePieces(range)| == 2 && RangePieces(range)[1] == []
    requires ParseInt(RangePieces(range)[0], Decimal) == Some(start)
    ensures ParseRange(range, fileSize) == Bounds(Some(start), Some(Min(start + ChunkSize - 1, fileSize - 1)))
  {
    var parts := RangePieces(range);
    assert !(|parts| > 1 && parts[1] != []);
  }

  /** For numeric bounds the head says what a partial response must:
      Content-Length is end - start + 1 and Content-Range carries the two
      bounds and the file size, which a client reads back unchanged. */
  lemma NumericPartialReply(start: int, end: int, fileSize: nat, contentType: string)
    ensures var r := PartialReply(Bounds(Some(start), Some(end)), fileSize, contentType);
            r.head.contentLength == Some(end - start + 1) &&
            r.head.contentRange == Some("bytes " + IntToString(start) + "-" + IntToString(end)
                                        + "/" + NatToString(fileSize))
    ensures start >= 0 && end >= 0 ==>
            ParseContentRange(PartialReply(Bounds(Some(start), Some(end)), fileSize, contentType)
                                .head.contentRange.value) == Some((start, end, fileSize))
  {
    if start >= 0 && end >= 0 {
      ContentRangeRoundTrip(start, end, fileSize);
    }
  }

  /** `bytes=<start>-<end>` in order gets the partial reply for exactly
      those bounds, even past the end of the file; reversed bounds make the
      read stream throw. */
  lemma ExplicitRangeReply(start: nat, end: nat, fileSize: nat, contentType: string)
    ensures var r := ServeOriginal("bytes=" + NatToString(start) + "-" + NatToString(end), fileSize, contentType);
            (start <= end ==> r == Sent(PartialReply(Bounds(Some(start), Some(end)), fileSize, contentType))) &&
            (end < start ==> r == ReadStreamThrows)
  {
    ParseExplicitRange(start, end, fileSize);
  }

  /** `bytes=<start>-` with a start inside the file gets the partial reply
      ending at Math.min(start + 10 MiB - 1, fileSize - 1); a start at or
      past the end of the file puts the clamped end before the start, and
      the read stream throws. */
  lemma OpenRangeReply(start: nat, fileSize: nat, contentType: string)
    ensures var r := ServeOriginal("bytes=" + NatToString(start) + "-", fileSize, contentType);
            (start < fileSize ==>
               r == Sent(PartialReply(Bounds(Some(start), Some(Min(start + ChunkSize - 1, fileSize - 1))),
                                      fileSize, contentType))) &&
            (fileSize <= start ==> r == ReadStreamThrows)
  {
    ParseOpenRange(start, fileSize);
  }

  /** For a start inside the file, the clamped end lies inside the file
      and the reply carries min(10 MiB, fileSize - start) bytes: at least
      one, at most a chunk, a satisfiable range in the sense of section
      14.1.2 of RFC 9110. */
  lemma OpenRangeChunk(start: nat, fileSize: nat, contentType: string)
    requires start < fileSize
    ensures var end := Min(start + ChunkSize - 1, fileSize - 1);
            start <= end < fileSize &&
            PartialReply(Bounds(Some(start), Some(end)), fileSize, contentType).head.contentLength
              == Some(Min(ChunkSize, fileSize - start)) &&
            1 <= Min(ChunkSize, fileSize - start) <= ChunkSize
  {
    var end := Min(start + ChunkSize - 1, fileSize - 1);
    PartialLength(Bounds(Some(start), Some(end)), fileSize, contentType);
    ClampedLength(start, fileSize);
  }

  lemma PartialLength(b: Bounds, fileSize: nat, contentType: string)
    ensures PartialReply(b, fileSize, contentType).head.contentLength == ChunkLength(b)
  {
  }

  lemma ClampedLength(start: int, fileSize: int)
    ensures Min(start + ChunkSize - 1, fileSize - 1) - start + 1 == Min(ChunkSize, fileSize - start)
  {
  }

  lemma FirstChunkBounds(fileSize: nat, contentType: string)
    ensures fileSize >= 1 ==>
              ServeOriginal("bytes=0-", fileSize, contentType)
              == Sent(PartialReply(Bounds(Some(0), Some(Min(ChunkSize - 1, fileSize - 1))), fileSize, contentType))
    ensures fileSize == 0 ==> ServeOriginal("bytes=0-", fileSize, contentType) == ReadStreamThrows
  {
    assert NatToString(0) == "0";
    assert "bytes=" + NatToString(0) + "-" == "bytes=0-";
    OpenRangeReply(0, fileSize, contentType);
  }

  /** `bytes=0-` on a file of N >= 1 bytes serves min(N, 10 MiB) bytes; on
      an empty file the clamped end is -1 and the read stream throws. */
  lemma FirstChunk(fileSize: nat, contentType: string)
    ensures var r := ServeOriginal("bytes=0-", fileSize, contentType);
            (fileSize >= 1 ==> r.Sent? && r.reply.head.contentLength == Some(Min(fileSize, ChunkSize))) &&
            (fileSize == 0 ==> r == ReadStreamThrows)
  {
    var b := Bounds(Some(0), Some(Min(ChunkSize - 1, fileSize - 1)));
    FirstChunkLength(fileSize);
    PartialLength(b, fileSize, contentType);
    FirstChunkBounds(fileSize, contentType);
  }

  lemma FirstChunkLength(fileSize: int)
    ensures ChunkLength(Bounds(Some(0), Some(Min(ChunkSize - 1, fileSize - 1)))) == Some(Min(fileSize, ChunkSize))
  {
    ClampedLength(0, fileSize);
  }

  /** `bytes=100-199` serves exactly 100 bytes. */
  lemma HundredBytes(fileSize: nat, contentType: string)
    ensures ServeOriginal("bytes=100-199", fileSize, contentType).Sent?
    ensures ServeOriginal("bytes=100-199", fileSize, contentType).reply.head.contentLength == Some(100)
  {
    assert NatToString(10) == "10";
    assert NatToString(100) == "100";
    assert NatToString(19) == "19";
    assert NatToString(199) == "199";
    assert "bytes=" + NatToString(100) + "-" + NatToString(199) == "bytes=100-199";
    ExplicitRangeReply(100, 199, fileSize, contentType);
    NumericPartialReply(100, 199, fileSize, contentType);
  }

  // ----- the branch as it is evidently meant to behave -----

  /** The 416 reply for a range the file cannot satisfy: a Content-Range
      with an asterisk in place of the span and then the size (section 14.4
      of RFC 9110), and no body. */
  function NotSatisfiable(fileSize: nat, contentType: string): (r: OriginalReply)
    ensures r.head.status == 416 && r.span.None? && r.head.contentLength == Some(0)
    ensures r.head.contentRange == Some("bytes */" + NatToString(fileSize))
  {
    OriginalReply(Head(416, Some("bytes */" + NatToString(fileSize)), AcceptRanges, Some(0),
                       contentType, CacheControl),
                  None)
  }

  /** The branch with its bounds checked: a range whose bounds are not
      numbers in order, or whose start lies past the end of the file, is
      answered 416 Range Not Satisfiable (section 15.5.17 of RFC 9110), and
      an end past the file is cut to its last byte (section 14.1.2). It
      never throws. */
  function SatisfiableOriginal(range: string, fileSize: nat, contentType: string): (r: OriginalReply)
    ensures r.head.status == 200 || r.head.status == 206 || r.head.status == 416
    ensures range == [] <==> r.head.status == 200
    ensures range == [] ==> r == WholeFile(fileSize, contentType)
    // every 206 lies inside the file, announces its true length, and its
    // Content-Range reads back as the span
    ensures r.head.status == 206 ==>
      r.span.Some? && StreamableBounds(r.span.value) && r.span.value.end.value < fileSize &&
      r.head.contentLength == Some(r.span.value.end.value - r.span.value.start.value + 1) &&
      r.head.contentRange.Some? &&
      ParseContentRange(r.head.contentRange.value)
        == Some((r.span.value.start.value, r.span.value.end.value, fileSize))
    // the span starts where the request does and ends at its end, cut to the last byte
    ensures r.head.status == 206 ==>
      range != [] && StreamableBounds(ParseRange(range, fileSize)) &&
      r.span == Some(Bounds(ParseRange(range, fileSize).start,
                            Some(Min(ParseRange(range, fileSize).end.value, fileSize - 1))))
    ensures r.head.status == 416 <==>
      range != [] &&
      !(StreamableBounds(ParseRange(range, fileSize)) && ParseRange(range, fileSize).start.value < fileSize)
  {
    if range == [] then WholeFile(fileSize, contentType)
    else
      var b := ParseRange(range, fileSize);
      if StreamableBounds(b) && b.start.value < fileSize then CheckedPartial(b, fileSize, contentType)
      else NotSatisfiable(fileSize, contentType)
  }

  /** The 206 reply for bounds the file can satisfy: from the requested
      start to the requested end cut to the last byte. */
  function CheckedPartial(b: Bounds, fileSize: nat, contentType: string): (r: OriginalReply)
    requires StreamableBounds(b) && b.start.value < fileSize
    ensures r.head.status == 206
    ensures r.span == Some(Bounds(b.start, Some(Min(b.end.value, fileSize - 1))))
    ensures r.head.contentLength == Some(Min(b.end.value, fileSize - 1) - b.start.value + 1)
    ensures r.head.contentRange.Some? &&
            ParseContentRange(r.head.contentRange.value)
              == Some((b.start.value, Min(b.end.value, fileSize - 1), fileSize))
  {
    var first, last := b.start.value, Min(b.end.value, fileSize - 1);
    NumericPartialReply(first, last, fileSize, contentType);
    PartialReply(Bounds(Some(first), Some(last)), fileSize, contentType)
  }

  /** The checked branch answers 416 wherever the handler throws, and sends
      the handler's own reply wherever that reply stays inside the file. */
  lemma SatisfiableAgreesInsideFile(range: string, fileSize: nat, contentType: string)
    ensures ServeOriginal(range, fileSize, contentType).ReadStreamThrows? ==>
              SatisfiableOriginal(range, fileSize, contentType).head.status == 416
    ensures range != [] && ServeOriginal(range, fileSize, contentType).Sent? &&
            ParseRange(range, fileSize).end.value < fileSize ==>
              ServeOriginal(range, fileSize, contentType) == Sent(SatisfiableOriginal(range, fileSize, contentType))
  {
  }

  /** An unparsable range leaves both bounds NaN: createReadStream throws
      and the handler writes no reply at all. */
  lemma UnparsableRangeThrows(fileSize: nat, contentType: string)
    ensures ServeOriginal("bytes=x-", fileSize, contentType) == ReadStreamThrows
  {
    UnparsableBounds(fileSize);
  }

  /** A reversed range, `bytes=200-100`, makes the read stream throw. */
  lemma ReversedRangeThrows(fileSize: nat, contentType: string)
    ensures ServeOriginal("bytes=200-100", fileSize, contentType) == ReadStreamThrows
  {
    assert NatToString(20) == "20";
    assert NatToString(200) == "200";
    assert NatToString(10) == "10";
    assert NatToString(100) == "100";
    assert "bytes=" + NatToString(200) + "-" + NatToString(100) == "bytes=200-100";
    ExplicitRangeReply(200, 100, fileSize, contentType);
  }

  lemma UnparsableBounds(fileSize: nat)
    ensures ParseRange("bytes=x-", fileSize) == Bounds(None, None)
  {
    PiecesOfRange("x", "");
    assert "bytes=" + "x" + "-" + "" == "bytes=x-";
    NotANumber();
  }

  lemma NotANumber()
    ensures ParseInt("x", Decimal) == None
  {
    NoLeadingSpace();
    NoDigits();
    assert "x"[0] != '-' && "x"[0] != '+';
  }

  lemma NoLeadingSpace()
    ensures TrimStart("x") == "x"
  {
    assert !IsJsWhiteSpace('x');
  }

  lemma NoDigits()
    ensures ParseDigits("x", Decimal) == None
  {
    assert DigitValue('x', 10).None?;
    assert DigitRun("x", 10) == 0;
  }
}
