/** GET /thumbnail/:filename: the cache-file name derived from the
    requested filename, the cascade that decides the response, and the
    thumbnail directory that the route fills lazily. */
module Thumbnails {
  import opened JsRuntime
  import opened MediaTypes

  // ----- the cache-file name -----

  /** The characters the regular expression [^a-zA-Z0-9.-] leaves alone. */
  predicate IsSafeChar(c: char) {
    ('a' <= c <= 'z') || ('A' <= c <= 'Z') || ('0' <= c <= '9') || c == '.' || c == '-'
  }

  /** The characters a sanitised name can contain. */
  predicate IsKeyChar(c: char) { IsSafeChar(c) || c == '_' }

  function SafeChar(c: char): char { if IsSafeChar(c) then c else '_' }

  /** filename.replace(/[^a-zA-Z0-9.-]/g, '_'). */
  function Sanitize(name: string): (r: string)
    ensures |r| == |name|
    ensures forall i :: 0 <= i < |name| && IsSafeChar(name[i]) ==> r[i] == name[i]
    ensures forall i :: 0 <= i < |name| && !IsSafeChar(name[i]) ==> r[i] == '_'
    ensures forall i :: 0 <= i < |r| ==> IsKeyChar(r[i])
  {
    seq(|name|, i requires 0 <= i < |name| => SafeChar(name[i]))
  }

  /** The name of the cached thumbnail of `filename`: the sanitised name
      followed by ".jpg". It never contains a path separator, so it always
      names a file directly inside the thumbnail directory. */
  function ThumbnailKey(filename: string): (key: string)
    ensures |key| == |filename| + 4
    ensures EndsWith(key, ".jpg")
    ensures forall i :: 0 <= i < |key| ==> IsKeyChar(key[i])
    ensures '/' !in key
  {
    Sanitize(filename) + ".jpg"
  }

  /** Sanitising is idempotent. */
  lemma SanitizeIdempotent(name: string)
    ensures Sanitize(Sanitize(name)) == Sanitize(name)
  {
    var once := Sanitize(name);
    assert forall i :: 0 <= i < |once| ==> SafeChar(once[i]) == once[i];
  }

  /** A name is left unchanged exactly when it is already made of safe
      characters and underscores. */
  lemma SanitizeFixedPoints(name: string)
    ensures Sanitize(name) == name <==> forall i :: 0 <= i < |name| ==> IsKeyChar(name[i])
  {
    if forall i :: 0 <= i < |name| ==> IsKeyChar(name[i]) {
      assert forall i :: 0 <= i < |name| ==> Sanitize(name)[i] == name[i];
    }
  }

  /** The mapping is not injective: two different files can share one
      cached thumbnail. */
  lemma KeysCanCollide()
    ensures ThumbnailKey("a b.png") == ThumbnailKey("a_b.png")
  {
    assert Sanitize("a b.png") == "a_b.png";
    assert Sanitize("a_b.png") == "a_b.png";
  }

  // ----- the response cascade -----

  const PlaceholderLocation: string := "/video-placeholder.svg"

  datatype ThumbnailResponse =
    | CachedThumbnail(data: Bytes)   // res.sendFile of the cached file
    | FileNotFound                   // 404 "File not found"
    | VideoPlaceholder               // res.redirect to PlaceholderLocation
    | UnsupportedType                // 400 "Unsupported file type"
    | NewThumbnail(data: Bytes)      // 200, Content-Type image/jpeg
    | ThumbnailError                 // 500 "Error generating thumbnail"
  {
    function Status(): int {
      match this
      case CachedThumbnail(_) => 200
      case FileNotFound => 404
      case VideoPlaceholder => 302
      case UnsupportedType => 400
      case NewThumbnail(_) => 200
      case ThumbnailError => 500
    }
  }

  /** The image bytes handed to sharp: the file itself for a raster image,
      heic-convert's JPEG at quality 0.8 for a HEIC file; None when reading
      or converting throws. */
  function SourceImage(kind: Kind, contents: Option<Bytes>, codecs: Codecs): Option<Bytes>
  {
    match contents
    case None => None
    case Some(data) => if kind == Heic then codecs.heicToJpeg(data, 80) else Some(data)
  }

  /** Resizing, then writing the cache file; the response is sent only
      after the write succeeded. */
  function Render(image: Option<Bytes>, codecs: Codecs, writeOk: bool): ThumbnailResponse
  {
    match image
    case None => ThumbnailError
    case Some(data) =>
      match codecs.coverThumbnail(data)
      case None => ThumbnailError
      case Some(thumb) => if writeOk then NewThumbnail(thumb) else ThumbnailError
  }

  /** The response of the thumbnail route for `filename`, given the
      thumbnail directory `cache`, the source file, the image libraries and
      whether fs.writeFileSync succeeds. */
  function ThumbnailDecision(filename: string, cache: map<string, Bytes>, source: SourceFile,
                             codecs: Codecs, writeOk: bool): (r: ThumbnailResponse)
    // a cached thumbnail is returned without looking at the source file
    ensures ThumbnailKey(filename) in cache ==> r == CachedThumbnail(cache[ThumbnailKey(filename)])
    ensures ThumbnailKey(filename) !in cache && source.Missing? ==> r == FileNotFound
    ensures ThumbnailKey(filename) !in cache && source.Present? ==>
      (r == VideoPlaceholder <==> KindOf(ExtensionOf(filename)) == Video) &&
      (r == UnsupportedType <==> KindOf(ExtensionOf(filename)) == Unsupported)
    // a new thumbnail only comes from an uncached, existing HEIC or raster image
    ensures r.NewThumbnail? ==>
      ThumbnailKey(filename) !in cache && source.Present? && source.contents.Some? && writeOk &&
      KindOf(ExtensionOf(filename)) in {Heic, Raster}
    // an existing, uncached file is never answered 404 nor from the cache
    ensures ThumbnailKey(filename) !in cache && source.Present? ==> r != FileNotFound && !r.CachedThumbnail?
    // an uncached HEIC or raster image gets a new thumbnail exactly when reading,
    // converting, resizing and writing all succeed, and a 500 otherwise
    ensures ThumbnailKey(filename) !in cache && source.Present? &&
            KindOf(ExtensionOf(filename)) in {Heic, Raster} ==>
      (r.NewThumbnail? || r == ThumbnailError) &&
      (r.NewThumbnail? <==>
         source.contents.Some? &&
         SourceImage(KindOf(ExtensionOf(filename)), source.contents, codecs).Some? &&
         codecs.coverThumbnail(SourceImage(KindOf(ExtensionOf(filename)), source.contents, codecs).value).Some? &&
         writeOk)
    ensures r == ThumbnailError ==>
      ThumbnailKey(filename) !in cache && source.Present? && KindOf(ExtensionOf(filename)) in {Heic, Raster}
  {
    var key := ThumbnailKey(filename);
    if key in cache then CachedThumbnail(cache[key])
    else if source.Missing? then FileNotFound
    else
      var kind := KindOf(ExtensionOf(filename));
      match kind
      case Video => VideoPlaceholder
      case Unsupported => UnsupportedType
      case _ => Render(SourceImage(kind, source.contents, codecs), codecs, writeOk)
  }

  /** A new thumbnail is what sharp makes of the file's bytes, after
      heic-convert for a HEIC file. */
  lemma NewThumbnailIsLibraryOutput(filename: string, cache: map<string, Bytes>, source: SourceFile,
                                    codecs: Codecs, writeOk: bool)
    requires ThumbnailDecision(filename, cache, source, codecs, writeOk).NewThumbnail?
    ensures var r := ThumbnailDecision(filename, cache, source, codecs, writeOk);
            var data := source.contents.value;
            (KindOf(ExtensionOf(filename)) == Raster ==> Some(r.data) == codecs.coverThumbnail(data)) &&
            (KindOf(ExtensionOf(filename)) == Heic ==>
               codecs.heicToJpeg(data, 80).Some? &&
               Some(r.data) == codecs.coverThumbnail(codecs.heicToJpeg(data, 80).value))
  {
  }

  /** The thumbnail directory after the request: the new thumbnail is
      stored under its key, and nothing is written on any other path. */
  function CacheAfter(cache: map<string, Bytes>, filename: string, r: ThumbnailResponse): map<string, Bytes>
  {
    if r.NewThumbnail? then cache[ThumbnailKey(filename) := r.data] else cache
  }

  /** A request changes at most the entry under its own key, and only on
      the path that generates a new thumbnail. */
  lemma OnlyOwnEntryWritten(filename: string, cache: map<string, Bytes>, source: SourceFile,
                            codecs: Codecs, writeOk: bool)
    ensures var r := ThumbnailDecision(filename, cache, source, codecs, writeOk);
            var after := CacheAfter(cache, filename, r);
            (after != cache ==> r.NewThumbnail?) &&
            after.Keys <= cache.Keys + {ThumbnailKey(filename)} &&
            forall k :: k in cache && k != ThumbnailKey(filename) ==> k in after && after[k] == cache[k]
  {
  }

  /** Once a request has answered 200, every later request for the same
      file is answered from the cache with the same bytes, whatever the
      source file and the libraries do by then. */
  lemma RepeatedRequestIsServedFromCache(filename: string, cache: map<string, Bytes>,
                                         source: SourceFile, codecs: Codecs, writeOk: bool,
                                         laterSource: SourceFile, laterCodecs: Codecs, laterWriteOk: bool)
    requires ThumbnailDecision(filename, cache, source, codecs, writeOk).Status() == 200
    ensures var r := ThumbnailDecision(filename, cache, source, codecs, writeOk);
            var after := CacheAfter(cache, filename, r);
            after == cache || r.NewThumbnail?
    ensures var r := ThumbnailDecision(filename, cache, source, codecs, writeOk);
            var after := CacheAfter(cache, filename, r);
            ThumbnailDecision(filename, after, laterSource, laterCodecs, laterWriteOk)
              == CachedThumbnail(r.data)
  {
    var r := ThumbnailDecision(filename, cache, source, codecs, writeOk);
    assert r.CachedThumbnail? || r.NewThumbnail?;
  }

  /** Two files whose names sanitise alike share one thumbnail: after the
      first is generated, the second is answered with its bytes. */
  lemma CollidingNamesShareThumbnail(cache: map<string, Bytes>, source: SourceFile,
                                     codecs: Codecs, otherSource: SourceFile)
    requires ThumbnailDecision("a b.png", cache, source, codecs, true).NewThumbnail?
    ensures var r := ThumbnailDecision("a b.png", cache, source, codecs, true);
            ThumbnailDecision("a_b.png", CacheAfter(cache, "a b.png", r), otherSource, codecs, true)
              == CachedThumbnail(r.data)
  {
    KeysCanCollide();
  }

  /** The thumbnail directory, which the route reads and writes. */
  class ThumbnailCache {
    var files: map<string, Bytes>

    constructor (existing: map<string, Bytes>)
      ensures files == existing
    {
      files := existing;
    }

    /** One request to the thumbnail route. */
    method Serve(filename: string, source: SourceFile, codecs: Codecs, writeOk: bool)
      returns (r: ThumbnailResponse)
      modifies this
      ensures r == ThumbnailDecision(filename, old(files), source, codecs, writeOk)
      ensures files == CacheAfter(old(files), filename, r)
    {
      var key := ThumbnailKey(filename);
      if key in files {
        return CachedThumbnail(files[key]);
      }
      if source.Missing? {
        return FileNotFound;
      }
      var kind := KindOf(ExtensionOf(filename));
      var image: Option<Bytes>;
      if kind == Heic {
        image := if source.contents.None? then None else codecs.heicToJpeg(source.contents.value, 80);
      } else if kind == Raster {
        image := source.contents;
      } else if kind == Video {
        return VideoPlaceholder;
      } else {
        return UnsupportedType;
      }
      if image.None? {
        return ThumbnailError;
      }
      var thumb := codecs.coverThumbnail(image.value);
      if thumb.None? || !writeOk {
        return ThumbnailError;
      }
      files := files[key := thumb.value];
      r := NewThumbnail(thumb.value);
    }
  }
}
