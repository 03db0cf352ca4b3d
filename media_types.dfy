/** Classification of requested files by extension, shared by the
    thumbnail route, the media route and the listing, and the MIME type
    table of getContentType. */
module MediaTypes {
  import opened JsRuntime

  newtype Byte = b: int | 0 <= b < 256

  /** The contents of a file or a Node.js Buffer. */
  type Bytes = seq<Byte>

  /** What the file system shows of a requested file: fs.existsSync fails
      (Missing), or the file is there with the size fs.statSync reports and
      the bytes fs.readFileSync returns (None when that call throws, as it
      does on a directory). */
  datatype SourceFile = Missing | Present(size: nat, contents: Option<Bytes>)

  /** The image libraries, whose behaviour is not part of this model:
      heic-convert to JPEG at a quality given in percent, sharp's
      300x300 "cover" resize re-encoded as JPEG at quality 80, and sharp's
      JPEG re-encoding at quality 90. None stands for a call that throws. */
  datatype Codecs = Codecs(
    heicToJpeg: (Bytes, nat) -> Option<Bytes>,
    coverThumbnail: Bytes -> Option<Bytes>,
    optimizeJpeg: Bytes -> Option<Bytes>)

  const VideoExtensions: seq<string> := [".mp4", ".mov", ".webm"]
  const RasterExtensions: seq<string> := [".jpg", ".jpeg", ".png", ".gif"]
  const HeicExtension: string := ".heic"

  /** path.extname(filename).toLowerCase(): "" or a '.' followed by the
      lower-cased characters after the last dot of the last component. */
  function ExtensionOf(filename: string): (e: string)
    ensures e == [] || e[0] == '.'
  {
    ToLowerAscii(ExtName(filename))
  }

  /** How the thumbnail route treats a file: converted (HEIC), read as a
      raster image, replaced by the video placeholder, or rejected. */
  datatype Kind = Heic | Raster | Video | Unsupported

  function KindOf(ext: string): (k: Kind)
    ensures k == Heic <==> ext == HeicExtension
    ensures k == Raster <==> ext in RasterExtensions
    ensures k == Video <==> ext in VideoExtensions
  {
    if ext == HeicExtension then Heic
    else if ext in RasterExtensions then Raster
    else if ext in VideoExtensions then Video
    else Unsupported
  }

  /** The object literal of getContentType. */
  const ContentTypes: map<string, string> :=
    map[".mp4" := "video/mp4", ".mov" := "video/quicktime", ".webm" := "video/webm",
        ".jpg" := "image/jpeg", ".jpeg" := "image/jpeg", ".png" := "image/png",
        ".gif" := "image/gif"]

  const OctetStream: string := "application/octet-stream"

  /** getContentType(ext): `types[ext] || 'application/octet-stream'`.
      Its callers always pass an extension produced by path.extname, which
      is "" or starts with '.'. */
  function ContentType(ext: string): (t: string)
    requires ext == [] || ext[0] == '.'
    // an extension finds only the table's own entries, never an inherited member
    ensures ext in ContentTypes ==> t == ContentTypes[ext]
    ensures ext !in ContentTypes ==> t == OctetStream
  {
    DottedKeysAreNeverInherited(ContentTypes, ext);
    match GetProperty(ContentTypes, ext)
    case Own(v) => v
    case _ => OctetStream
  }

  /** The MIME type agrees with the kind of file: every video extension
      gets a video type, every raster extension an image type, and all
      other extensions (HEIC among them) the octet-stream fallback. */
  lemma ContentTypeFollowsKind(ext: string)
    requires ext == [] || ext[0] == '.'
    ensures KindOf(ext) == Video ==> "video/" <= ContentType(ext)
    ensures KindOf(ext) == Raster ==> "image/" <= ContentType(ext)
    ensures ContentType(ext) == OctetStream <==> KindOf(ext) in {Heic, Unsupported}
  {
    DottedKeysAreNeverInherited(ContentTypes, ext);
    if ext in VideoExtensions {
      assert ext == ".mp4" || ext == ".mov" || ext == ".webm";
    } else if ext in RasterExtensions {
      assert ext == ".jpg" || ext == ".jpeg" || ext == ".png" || ext == ".gif";
    } else {
      assert ext !in ContentTypes;
    }
  }

  /** Exactly the seven listed extensions have their own MIME type, and
      no inherited Object.prototype member can stand in for one. */
  lemma ContentTypeTable(ext: string)
    requires ext == [] || ext[0] == '.'
    ensures ext == ".mp4" ==> ContentType(ext) == "video/mp4"
    ensures ext == ".mov" ==> ContentType(ext) == "video/quicktime"
    ensures ext == ".webm" ==> ContentType(ext) == "video/webm"
    ensures ext == ".jpg" || ext == ".jpeg" ==> ContentType(ext) == "image/jpeg"
    ensures ext == ".png" ==> ContentType(ext) == "image/png"
    ensures ext == ".gif" ==> ContentType(ext) == "image/gif"
    ensures ext !in ContentTypes ==> ContentType(ext) == OctetStream
  {
    DottedKeysAreNeverInherited(ContentTypes, ext);
  }
}
