/** GET /media/:filename: a video is transcoded or streamed in its
    original quality, a HEIC image is converted to JPEG, and any other file
    is sent as it is. */
module MediaRoute {
  import opened JsRuntime
  import opened MediaTypes
  import opened RangeServing
  import opened Transcoding

  /** `req.query.quality || 'auto'`, for a query value given as a string
      ("" when the parameter is absent). */
  function EffectiveQuality(quality: string): (q: string)
    ensures q != []
    ensures quality != [] ==> q == quality
  {
    if quality == [] then "auto" else quality
  }

  /** The qualities that keep the original file: "auto" and "4k". */
  predicate KeepsOriginal(quality: string)
  {
    quality == "auto" || quality == "4k"
  }

  datatype MediaResponse =
    | NotFound                          // 404 "File not found"
    | Transcoded(reply: TranscodeReply) // streamTranscodedVideo
    | Original(original: OriginalOutcome) // 200 or 206 with the file's bytes, or a throw
    | ConvertedImage(data: Bytes)       // 200, Content-Type image/jpeg
    | ConversionError                   // 500 "Error converting image"
    | SentFile(path: string)            // res.sendFile(filePath)
  {
    /** Whether the handler writes a reply: all but a range that made the
        read stream throw, which rejects the handler's promise instead. */
    predicate Answered()
    {
      !(Original? && original.ReadStreamThrows?)
    }

    /** The status of the response (the one of the head written first for
        a transcoded stream); a sent file is answered 200 by sendFile. */
    function Status(): int
      requires Answered()
    {
      match this
      case NotFound => 404
      case Transcoded(t) => t.Status()
      case Original(o) => o.reply.head.status
      case ConvertedImage(_) => 200
      case ConversionError => 500
      case SentFile(_) => 200
    }
  }

  /** The response of the media route for `filename` (inside the media
      folder at `filePath`), the query's quality, the Range header ("" when
      absent), the file and the image libraries. */
  function MediaDecision(filename: string, filePath: string, quality: string, range: string,
                         source: SourceFile, codecs: Codecs): (r: MediaResponse)
    ensures source.Missing? <==> r == NotFound
    // only a video reaches the transcoder, and only for a quality other than auto and 4k
    ensures r.Transcoded? <==>
      source.Present? && ExtensionOf(filename) in VideoExtensions && !KeepsOriginal(EffectiveQuality(quality))
    ensures r.Original? <==>
      source.Present? && ExtensionOf(filename) in VideoExtensions && KeepsOriginal(EffectiveQuality(quality))
    ensures r.ConvertedImage? || r.ConversionError? <==>
      source.Present? && ExtensionOf(filename) == HeicExtension
    // everything else, unsupported extensions included, is sent unchanged
    ensures r.SentFile? <==>
      source.Present? && ExtensionOf(filename) !in VideoExtensions && ExtensionOf(filename) != HeicExtension
    ensures r.SentFile? ==> r.path == filePath
  {
    var ext := ExtensionOf(filename);
    var q := EffectiveQuality(quality);
    if source.Missing? then NotFound
    else if ext in VideoExtensions then
      if !KeepsOriginal(q) then Transcoded(TranscodeStart(filePath, q))
      else Original(ServeOriginal(range, source.size, ContentType(ext)))
    else if ext == HeicExtension then
      match HeicAsJpeg(source.contents, codecs)
      case None => ConversionError
      case Some(data) => ConvertedImage(data)
    else SentFile(filePath)
  }

  /** heic-convert at quality 0.9, then sharp's JPEG at quality 90; None
      when reading the file or either library throws. */
  function HeicAsJpeg(contents: Option<Bytes>, codecs: Codecs): (r: Option<Bytes>)
    // an image comes out exactly when reading and both conversions succeed
    ensures r.Some? <==>
      contents.Some? && codecs.heicToJpeg(contents.value, 90).Some? &&
      codecs.optimizeJpeg(codecs.heicToJpeg(contents.value, 90).value).Some?
    ensures r.Some? ==> r == codecs.optimizeJpeg(codecs.heicToJpeg(contents.value, 90).value)
  {
    match contents
    case None => None
    case Some(data) =>
      match codecs.heicToJpeg(data, 90)
      case None => None
      case Some(jpeg) => codecs.optimizeJpeg(jpeg)
  }

  /** Without a quality parameter a video is never transcoded: it is
      streamed whole (200), by range (206) when the read stream accepts the
      parsed bounds, and otherwise not answered at all. */
  lemma DefaultQualityNeverTranscodes(filename: string, filePath: string, range: string,
                                      source: SourceFile, codecs: Codecs)
    ensures !MediaDecision(filename, filePath, "", range, source, codecs).Transcoded?
    ensures var r := MediaDecision(filename, filePath, "", range, source, codecs);
            r.Original? ==>
              (r.Answered() && r.Status() == 200 <==> range == []) &&
              (r.Answered() && r.Status() == 206 <==>
                 range != [] && StreamableBounds(ParseRange(range, source.size))) &&
              (!r.Answered() <==> range != [] && !StreamableBounds(ParseRange(range, source.size)))
  {
  }

  /** A video asked for in a quality other than auto and 4k is answered 400
      unless the name is 720p, 1080p or a member of Object.prototype; those
      get the 200 head of a stream. */
  lemma TranscodedStatus(filename: string, filePath: string, quality: string, range: string,
                         source: SourceFile, codecs: Codecs)
    requires MediaDecision(filename, filePath, quality, range, source, codecs).Transcoded?
    ensures var r := MediaDecision(filename, filePath, quality, range, source, codecs);
            r.Answered() &&
            (r.Status() == 400 <==> quality != "720p" && quality != "1080p" && quality !in ObjectPrototypeKeys) &&
            (r.Status() == 200 <==> quality == "720p" || quality == "1080p" || quality in ObjectPrototypeKeys)
  {
  }

  lemma OriginalBranch(filename: string, filePath: string, quality: string, range: string,
                       source: SourceFile, codecs: Codecs)
    requires MediaDecision(filename, filePath, quality, range, source, codecs).Original?
    ensures source.Present? && KindOf(ExtensionOf(filename)) == Video
    ensures MediaDecision(filename, filePath, quality, range, source, codecs)
            == Original(ServeOriginal(range, source.size, ContentType(ExtensionOf(filename))))
  {
  }

  /** An original-quality video that is sent is labelled with a video
      MIME type. */
  lemma OriginalVideoType(filename: string, filePath: string, quality: string, range: string,
                          source: SourceFile, codecs: Codecs)
    requires MediaDecision(filename, filePath, quality, range, source, codecs).Original?
    requires MediaDecision(filename, filePath, quality, range, source, codecs).original.Sent?
    ensures "video/" <= MediaDecision(filename, filePath, quality, range, source, codecs)
                          .original.reply.head.contentType
  {
    OriginalBranch(filename, filePath, quality, range, source, codecs);
    var ext := ExtensionOf(filename);
    ContentTypeFollowsKind(ext);
    assert "video/" <= ContentType(ext);
  }

  /** Without a Range header the whole file is announced, with its size. */
  lemma OriginalWholeFile(filename: string, filePath: string, quality: string,
                          source: SourceFile, codecs: Codecs)
    requires MediaDecision(filename, filePath, quality, "", source, codecs).Original?
    ensures var o := MediaDecision(filename, filePath, quality, "", source, codecs).original;
            o.Sent? && o.reply.head.contentLength == Some(source.size) && o.reply.head.status == 200
  {
    OriginalBranch(filename, filePath, quality, "", source, codecs);
  }

  /** The converted image is what the libraries make of the file's bytes. */
  lemma ConvertedImageIsLibraryOutput(filename: string, filePath: string, quality: string,
                                      range: string, source: SourceFile, codecs: Codecs)
    requires MediaDecision(filename, filePath, quality, range, source, codecs).ConvertedImage?
    ensures var r := MediaDecision(filename, filePath, quality, range, source, codecs);
            source.Present? && source.contents.Some? &&
            codecs.heicToJpeg(source.contents.value, 90).Some? &&
            codecs.optimizeJpeg(codecs.heicToJpeg(source.contents.value, 90).value) == Some(r.data)
  {
  }

  /** The only 500 the handler writes is a failed HEIC conversion. */
  lemma ServerErrorOnlyFromConversion(filename: string, filePath: string, quality: string,
                                      range: string, source: SourceFile, codecs: Codecs)
    ensures var r := MediaDecision(filename, filePath, quality, range, source, codecs);
            r.Answered() ==> (r.Status() == 500 <==> r == ConversionError)
  {
    var r := MediaDecision(filename, filePath, quality, range, source, codecs);
    if r.Original? && r.Answered() {
      assert r.Status() == 200 || r.Status() == 206;
    }
  }

  /** The handler leaves a request unanswered exactly when it is for an
      existing video in its original quality with a Range header whose
      parsed bounds the read stream refuses. */
  lemma UnansweredOnlyFromRange(filename: string, filePath: string, quality: string,
                                range: string, source: SourceFile, codecs: Codecs)
    ensures var r := MediaDecision(filename, filePath, quality, range, source, codecs);
            !r.Answered() <==>
              source.Present? && ExtensionOf(filename) in VideoExtensions &&
              KeepsOriginal(EffectiveQuality(quality)) && range != [] &&
              !StreamableBounds(ParseRange(range, source.size))
  {
  }

  /** Extensions are compared after lower-casing: "clip.MP4" is a video. */
  lemma UpperCaseExtensionIsVideo()
    ensures ExtensionOf("clip.MP4") == ".mp4"
    ensures ExtensionOf("clip.MP4") in VideoExtensions
  {
    UpperCaseExtName();
    LowerMp4();
  }

  lemma UpperCaseExtName()
    ensures ExtName("clip.MP4") == ".MP4"
  {
    var stem, ext := "clip", ".MP4";
    assert forall i :: 1 <= i < |ext| ==> ext[i] != '.' && ext[i] != '/';
    assert stem + ext == "clip.MP4";
    ExtNameOfSuffix(stem, ext);
  }

  lemma LowerMp4()
    ensures ToLowerAscii(".MP4") == ".mp4"
  {
  }
}
