# Media server core, modelled in Dafny

This project models the request handlers of a small Express media server
(`server.js`) that serves a folder of photos and videos to a browser:

- `GET /thumbnail/:filename` builds a 300x300 JPEG thumbnail of an image, or
  of a HEIC photo after conversion. It keeps the thumbnail in a cache folder
  under a sanitised name and redirects videos to a placeholder icon.
- `GET /media/:filename` delivers a video:
  - in its original quality, whole or by byte range, with a 10 MiB chunk for
    open-ended ranges;
  - or transcoded on the fly by ffmpeg to 720p or 1080p.

  It converts HEIC photos to JPEG and sends every other file unchanged.
- `GET /files` lists the media files of the folder, newest first, optionally
  only images or only videos, one page at a time. It keeps each page in an
  in-memory cache for an hour.

## How the model is organised

| module | file | what it holds |
|---|---|---|
| `JsRuntime` | `js_runtime.dfy` | The JavaScript built-ins the handlers rely on, with their edge cases: `parseInt` (radix 10, or unspecified with `0x`), number-to-string in templates, `split`, a non-global `replace`, ASCII `toLowerCase`, POSIX `path.extname`, and property lookup on an object literal (inherited `Object.prototype` members included). |
| `MediaTypes` | `media_types.dfy` | The extension classes and `getContentType`. |
| `Thumbnails` | `thumbnails.dfy` | The thumbnail name sanitiser, the response cascade as a function, and the thumbnail folder as a class whose `Serve` method is proved against that function. |
| `RangeServing` | `range_serving.dfy` | The original-quality branch of the media route: Range parsing, the read stream's argument check, the reply head, and a reader of `Content-Range` that checks what a client reads back. Beside it, the branch with its bounds checked (416). |
| `Transcoding` | `transcoding.dfy` | The quality table and its guard, the ffmpeg command, and the life of one transcoded response. That life is a state machine (`Step` over `SessionState`) plus a class whose event-handler methods are proved to perform exactly `Step`. |
| `MediaRoute` | `media_route.dfy` | The `/media` cascade. |
| `Listing` | `listing.dfy` | The `/files` handler: the name filter, the stable newest-first sort, the type filter, `Array.prototype.slice` pagination and the cache key. The cache itself is a class whose `Request` method is proved against `ListingDecision`. |

External effects become inputs:

- the file system (`SourceFile`, the folder listing as `Option<seq<DirEntry>>`, whether `writeFileSync` succeeds);
- the image libraries (the `Codecs` functions);
- ffmpeg and the request's events (the `Event` trace).

Behaviour a reader might not expect, which the model keeps as the code has it:

- The media route sends a file with an unknown extension unchanged
  (`res.sendFile`), without any 400.
- The thumbnail route answers 500 when writing the cache file fails. The
  thumbnail it already computed is not sent.
- The `Range` header is not validated. `fs.createReadStream` checks the parsed
  bounds before the 206 head is written. It throws for bounds that are `NaN`
  or reversed. An open range (`bytes=s-`) that starts at or past the end of the
  file is reversed too, because its end is cut to the last byte. The handler is
  `async`, so its promise rejects and it writes no reply (see Findings).
- An explicit end past the last byte is accepted, even when the start lies past
  it as well (`bytes=2000-3000` on a 1000-byte file). The head then announces
  more bytes than the stream delivers.
- The resolved path is not checked to stay inside the media folder.
- The quality guard lets through the names of `Object.prototype` members. They
  get the 200 head, and the ffmpeg builder is handed an undefined bitrate and
  the size "undefinedxundefined" (see Findings).

The `/media` route is modelled as written. The corrected behaviour of the two
Findings is stated by its own members, beside the as-written ones.

## Model

| member | source | states |
|---|---|---|
| JsRuntime.NatToString | server.js:112 | A printed non-negative integer is a non-empty run of decimal digits without a leading zero. |
| JsRuntime.NatToStringValue | server.js:112 | The digits a non-negative integer prints to have that integer as their decimal value. |
| JsRuntime.IntToString | server.js:270 | A printed integer is never empty. |
| JsRuntime.IntToStringInjective | server.js:270 | Different integers print differently. |
| JsRuntime.TrimStart | server.js:104 | parseInt's skipping of leading white space leaves a suffix of the input that starts with no white space. |
| JsRuntime.ParseInt | server.js:104 | parseInt of a string without '-' is NaN or non-negative. |
| JsRuntime.ParseIntRoundTrip | server.js:104 | parseInt, radix 10 or unspecified, reads back every integer as it is printed. |
| JsRuntime.Split | server.js:103 | split on a one-character separator gives at least one piece, and no piece contains the separator. |
| JsRuntime.JoinSplit | server.js:103 | Joining the pieces of split with the separator gives back the string. |
| JsRuntime.SplitAtFirst | server.js:103 | Splitting `a + sep + b`, where `a` has no separator, gives `a` followed by the pieces of `b`. |
| JsRuntime.IndexOf | server.js:103 | The index found is a match and no earlier index is, or there is no match anywhere. |
| JsRuntime.ReplaceFirst | server.js:103 | A non-global `replace` with a literal pattern: without a match the string is unchanged. Otherwise the first match, and nothing else, gives way to the replacement, with the text on either side kept. |
| JsRuntime.ToLowerAscii | server.js:25 | toLowerCase keeps the length and lower-cases each ASCII letter. |
| JsRuntime.LastIndexOf | server.js:25 | The index found holds the character and no later index does, or the character is absent. |
| JsRuntime.BaseName | server.js:25 | The last path component contains no '/'. |
| JsRuntime.ExtName | server.js:25 | path.extname is "" or a '.' followed by characters that are neither '.' nor '/'. |
| JsRuntime.ExtNameOfSuffix | server.js:25 | A name `stem + ".ext"` has the extension ".ext". |
| JsRuntime.GetProperty | server.js:169 | A lookup yields an own value exactly for the object's keys, and an inherited member exactly for the other `Object.prototype` keys. |
| JsRuntime.DottedKeysAreNeverInherited | server.js:260 | No extension ("" or starting with '.') names an inherited member. |
| MediaTypes.ExtensionOf | server.js:25 | The lower-cased extension is "" or starts with '.'. |
| MediaTypes.KindOf | server.js:44-58 | HEIC exactly for ".heic", raster exactly for the four image extensions, video exactly for the three video extensions. |
| MediaTypes.ContentType | server.js:250-261 | getContentType finds exactly the table's own entries (an extension never names an inherited member) and the octet-stream fallback for every other extension. |
| MediaTypes.ContentTypeFollowsKind | server.js:250-261 | Video extensions get a "video/" type and raster ones an "image/" type. The octet-stream fallback is returned exactly for HEIC and unsupported extensions. |
| MediaTypes.ContentTypeTable | server.js:250-261 | Each of the seven extensions gets its MIME type, and every other extension gets application/octet-stream. |
| Thumbnails.Sanitize | server.js:28 | Same length. Safe characters are kept, every other character becomes '_', and the result holds only safe characters and '_'. |
| Thumbnails.ThumbnailKey | server.js:28-29 | The cache-file name is the sanitised name plus ".jpg", and it never contains '/'. |
| Thumbnails.SanitizeIdempotent | server.js:28 | Sanitising twice is sanitising once. |
| Thumbnails.SanitizeFixedPoints | server.js:28 | A name is unchanged exactly when it already has only safe characters and '_'. |
| Thumbnails.KeysCanCollide | server.js:28 | "a b.png" and "a_b.png" share one cache-file name. |
| Thumbnails.ThumbnailDecision | server.js:31-74 | A cached thumbnail wins. Otherwise a missing file gives 404, a video the placeholder, and an unsupported type 400. An existing, uncached file never gets 404 nor a cached reply. For an uncached HEIC or raster file the reply is a new thumbnail or 500, and a new thumbnail exactly when reading, HEIC conversion, resizing and the cache write all succeed. |
| Thumbnails.NewThumbnailIsLibraryOutput | server.js:44-64 | A new thumbnail is sharp's cover resize of the file's bytes, after heic-convert at quality 0.8 for a HEIC file. |
| Thumbnails.OnlyOwnEntryWritten | server.js:66-67 | A request writes at most the entry under its own key, and only when it generates a new thumbnail. |
| Thumbnails.RepeatedRequestIsServedFromCache | server.js:33-35 | After a 200, a later request for the same file is answered from the cache with the same bytes, whatever the file and the libraries do by then. |
| Thumbnails.CollidingNamesShareThumbnail | server.js:28-35 | Once "a b.png" has a thumbnail, a request for "a_b.png" is answered with it. |
| Thumbnails.ThumbnailCache.constructor | server.js:14-17 | The thumbnail folder starts with the files it already holds. |
| Thumbnails.ThumbnailCache.Serve | server.js:22-75 | The response is ThumbnailDecision of the folder before the request, and the folder afterwards is CacheAfter of it. |
| RangeServing.ParseRange | server.js:101-107 | A start that parses is non-negative. |
| RangeServing.RangePieces | server.js:103 | At least one piece, none containing '-'. |
| RangeServing.PartialReply | server.js:108-120 | A range reply is 206 with Accept-Ranges "bytes", the file's content type, and the computed bounds as the span sent. |
| RangeServing.WholeFile | server.js:121-129 | The whole-file reply is 200 with no Content-Range, no span, and Content-Length equal to the file size. |
| RangeServing.StreamableBounds | server.js:109 | The argument check of `fs.createReadStream` on `{ start, end }`: integers with 0 <= start <= end. Bounds it accepts announce a Content-Length of at least one byte. Its effect on the reply is stated by ServeOriginal and the lemmas after it. |
| RangeServing.ServeOriginal | server.js:99-131 | 200 with the whole file exactly when no Range header is present. 206 exactly when one is present and the read stream accepts its parsed bounds (integers, 0 <= start <= end), with that span and Content-Length end - start + 1 >= 1. createReadStream throws, before any head, exactly when it refuses them. Accept-Ranges, content type and Cache-Control on every reply. |
| RangeServing.ContentRangeRoundTrip | server.js:112 | A client parsing `bytes first-last/size` for numeric bounds reads back exactly the two bounds and the size. |
| RangeServing.StripBytesPrefix | server.js:103 | Removing "bytes=" from "bytes=" + x leaves x. |
| RangeServing.PiecesOfRange | server.js:103 | "bytes=s-e" splits into exactly s and e. |
| RangeServing.ParseExplicitRange | server.js:103-107 | "bytes=s-e" gives the bounds s and e as written, reversed or out of range ones included. |
| RangeServing.ParseOpenRange | server.js:103-107 | "bytes=s-" gives the end min(s + 10 MiB - 1, size - 1). |
| RangeServing.OpenRangeOfPieces | server.js:107 | An empty second piece is replaced by the clamped end. |
| RangeServing.NumericPartialReply | server.js:108-117 | Content-Length is end - start + 1. Content-Range carries both bounds and the size, and a client reads them back. |
| RangeServing.ExplicitRangeReply | server.js:101-120 | "bytes=s-e" with s <= e gets the 206 reply for exactly s and e, even past the end of the file; with e < s the read stream throws. |
| RangeServing.OpenRangeReply | server.js:101-120 | "bytes=s-" with s inside the file gets the 206 reply ending at the clamped end; with s at or past the end of the file the read stream throws. |
| RangeServing.OpenRangeChunk | server.js:106-114 | For a start inside the file, the clamped end lies inside the file and the reply carries min(10 MiB, size - start) bytes, between 1 and 10 MiB. |
| RangeServing.FirstChunk | server.js:106-114 | "bytes=0-" on an N-byte file announces min(N, 10 MiB) bytes when N >= 1; on an empty file the read stream throws. |
| RangeServing.HundredBytes | server.js:103-114 | "bytes=100-199" is sent and announces exactly 100 bytes. |
| RangeServing.UnparsableRangeThrows | server.js:101-109 | "bytes=x-" leaves both bounds NaN, so createReadStream throws and no reply is written. |
| RangeServing.ReversedRangeThrows | server.js:101-109 | "bytes=200-100" makes createReadStream throw. |
| RangeServing.UnparsableBounds | server.js:103-107 | Both bounds of "bytes=x-" are NaN. |
| RangeServing.NotANumber | server.js:104 | parseInt("x", 10) is NaN. |
| RangeServing.NotSatisfiable | server.js:101-120 | The corrected 416 reply has no span, Content-Length 0, and a Content-Range with an asterisk and the size. |
| RangeServing.SatisfiableOriginal | server.js:99-131 | The corrected branch never throws. 200 exactly without a range. 416 exactly for bounds that are not integers in order, or that start past the file. Otherwise a 206 whose span starts at the requested start and ends at the requested end cut to the last byte. That span lies inside the file, its Content-Length is its true length, and a client reads its Content-Range back as the span. |
| RangeServing.CheckedPartial | server.js:108-120 | The corrected 206 for satisfiable bounds: the span from the requested start to min(end, size - 1), Content-Length equal to its length, and a Content-Range that reads back as start, that end and the size. |
| RangeServing.SatisfiableAgreesInsideFile | server.js:99-131 | The corrected branch answers 416 wherever the code throws, and sends the code's own reply wherever that 206 ends inside the file. |
| Transcoding.InheritedQualityPassesGuard | server.js:169-172 | As written, quality "toString" looks up an inherited member, which is truthy, so the 400 guard does not reject it. |
| Transcoding.RejectedAsWrittenExactly | server.js:169-172 | As written, the guard rejects exactly the names that are neither a tier nor an `Object.prototype` key. |
| Transcoding.SettingsAsWritten | server.js:169 | The lookup as written finds an own tier exactly for 720p and 1080p, the same tier as the corrected lookup, and an inherited member exactly for the Object.prototype keys. |
| Transcoding.QualityTierOf | server.js:164-172 | The corrected lookup finds a tier exactly for "720p" and "1080p": 1280x720 at 2500k and 1920x1080 at 5000k, both 16:9. |
| Transcoding.SizeArgumentRoundTrip | server.js:199 | The `${width}x${height}` argument splits on 'x' into two fields that parse back to the tier's width and height. |
| Transcoding.TranscodeStart | server.js:163-211 | As written: 400 exactly for the names the guard rejects, that is neither 720p, 1080p nor an Object.prototype key. 720p and 1080p stream at their tier's bitrate and frame size. An Object.prototype key gets the 200 head, and the builder is handed an undefined bitrate and the size "undefinedxundefined". |
| Transcoding.IntendedTranscodeStart | server.js:163-211 | The corrected start: 400 exactly for a quality other than 720p and 1080p, never a stream without a tier. |
| Transcoding.StartsAgreeOnOwnNames | server.js:169-172 | The start as written and the corrected one differ exactly on the names of Object.prototype members. |
| Transcoding.ToStringQualityStreams | server.js:169-178 | As written, quality "toString" gets the 200 head and the builder is handed the size "undefinedxundefined", where the corrected start answers 400. |
| Transcoding.Opened | server.js:174-246 | Once the handler returns, the 200 head is sent and the command exists. The response is finished exactly when piping threw. |
| Transcoding.Step | server.js:184-237 | The handlers never replace the command. Only the grace timer kills ffmpeg, once per firing and only before streaming started. Only the 'error' and 'end' handlers call res.end(), once per call, and never on a finished response once the head is out. A finished response stays finished. The status changes only to 500, and only for an error before the head. |
| Transcoding.Enabled | server.js:184-237 | The order of events assumed here: ffmpeg emits nothing once it has exited, and the timer fires only while one is pending after a close. That each one-shot event happens once is OneShotEvents and QuietAfterExit. |
| Transcoding.OneShotEvents | server.js:184-215 | After 'start', 'close' or the timer, the same event is no longer expected. |
| Transcoding.QuietAfterExit | server.js:222-237 | After 'error' or 'end', ffmpeg emits no further event. |
| Transcoding.OpenedIsValid | server.js:174-246 | The session invariant holds when the handler returns. |
| Transcoding.StepPreservesInv | server.js:184-237 | Every handler keeps the session invariant: status 200, at most one kill (only after the timer fired), at most one res.end() (never after finishing). |
| Transcoding.RunPreservesInv | server.js:184-237 | The invariant holds after any possible sequence of events. |
| Transcoding.NeverServerError | server.js:222-231 | Whatever happens, a session keeps status 200, so the error handler's 500 branch cannot be taken. It ends the response at most once and kills ffmpeg at most once. |
| Transcoding.GraceTimerKillsIffNotStarted | server.js:184-191 | The timer kills ffmpeg exactly when no progress was reported. |
| Transcoding.StartedStreamSurvives | server.js:184-221 | Once progress was reported the stream stays started, and the grace timer of any later disconnect sends no SIGKILL. |
| Transcoding.EarlyDisconnectKills | server.js:184-191 | start, close, timer: ffmpeg is killed once. |
| Transcoding.ProgressWithinGraceSpares | server.js:184-221 | start, close, progress, timer: ffmpeg is not killed. |
| Transcoding.TranscodeSession.constructor | server.js:174-246 | The handler's variables after it returns are Opened. |
| Transcoding.TranscodeSession.OnStart | server.js:212-215 | The 'start' handler performs Step(Start). |
| Transcoding.TranscodeSession.OnProgress | server.js:216-221 | The 'progress' handler performs Step(Progress). |
| Transcoding.TranscodeSession.OnError | server.js:222-231 | The 'error' handler performs Step(Error). |
| Transcoding.TranscodeSession.OnEnd | server.js:232-237 | The 'end' handler performs Step(End). |
| Transcoding.TranscodeSession.OnOutputEnd | server.js:240 | The end of the piped output performs Step(OutputEnd). |
| Transcoding.TranscodeSession.OnClose | server.js:184-185 | The request's 'close' performs Step(Close). |
| Transcoding.TranscodeSession.OnGraceExpired | server.js:185-190 | The one-second timer performs Step(GraceExpired). |
| MediaRoute.EffectiveQuality | server.js:82 | The quality is "auto" when absent and the query value otherwise. |
| MediaRoute.MediaDecision | server.js:78-160 | 404 exactly for a missing file. The transcoder exactly for a video in a quality other than auto and 4k, and the original exactly for a video in auto or 4k. The HEIC conversion exactly for ".heic". Every other file, unsupported ones included, is sent as it is. |
| MediaRoute.HeicAsJpeg | server.js:136-151 | An image comes out exactly when reading the file, heic-convert and sharp all succeed, and it is sharp's output. |
| MediaRoute.DefaultQualityNeverTranscodes | server.js:82-131 | Without a quality a video is not transcoded. It is answered 200 without a range, 206 with a range whose parsed bounds the read stream accepts, and not at all otherwise. |
| MediaRoute.TranscodedStatus | server.js:94-178 | A transcoded request is answered 400 exactly for a quality that is neither 720p, 1080p nor an Object.prototype key, and 200 otherwise. |
| MediaRoute.OriginalBranch | server.js:89-131 | An original-quality reply is ServeOriginal of the Range header, the file size and the extension's content type. |
| MediaRoute.OriginalVideoType | server.js:115 | An original-quality video that is sent is labelled with a "video/" MIME type. |
| MediaRoute.OriginalWholeFile | server.js:121-129 | Without a Range header the video is sent, with a 200 head that announces the file's size. |
| MediaRoute.ConvertedImageIsLibraryOutput | server.js:136-151 | The converted image is sharp's JPEG at quality 90 of heic-convert's output at 0.9. |
| MediaRoute.ServerErrorOnlyFromConversion | server.js:152-155 | Among the replies the handler writes, the only 500 is a failed HEIC conversion. |
| MediaRoute.UnansweredOnlyFromRange | server.js:98-119 | The handler writes no reply exactly for an existing original-quality video whose Range header parses to bounds the read stream refuses. |
| MediaRoute.UpperCaseExtensionIsVideo | server.js:81 | "clip.MP4" has the extension ".mp4" and is a video. |
| MediaRoute.UpperCaseExtName | server.js:81 | path.extname("clip.MP4") is ".MP4". |
| MediaRoute.LowerMp4 | server.js:81 | ".MP4" lower-cases to ".mp4". |
| Listing.ItemTypeOf | server.js:284-287 | "video" exactly when the lower-cased extension is a video extension. |
| Listing.ListedExtensionShape | server.js:280 | Every alternative of the regular expression is a '.' followed by lower-case letters and digits. |
| Listing.ListedByExtension | server.js:280-287 | A name ending in a listed extension is listed, and is a video exactly for a video extension. |
| Listing.DotfileListedAsImage | server.js:280-287 | A file named ".mp4" passes the regular expression but has no extname, so it is listed as an image. |
| Listing.DotfileMatches | server.js:280 | ".mp4" passes the regular expression. |
| Listing.DotfileHasNoExtension | server.js:284 | path.extname(".mp4") is "". |
| Listing.ListedItems | server.js:279-291 | Exactly the entries whose name passes the regular expression become items, typed by their extension, and every item is ItemOf such an entry. |
| Listing.ListedItemsOfAppend | server.js:279-291 | The listing keeps readdir's order: listing a + b is listing a followed by listing b. |
| Listing.Insert | server.js:292 | Inserting adds exactly that one item. |
| Listing.InsertKeepsOrder | server.js:292 | Inserting into a newest-first sequence keeps it newest first. |
| Listing.SortNewest | server.js:292 | The sort is a permutation of its input, newest first. |
| Listing.SortNewestIsStable | server.js:292 | Items with the same modification time keep their directory order. |
| Listing.KeepType | server.js:295-299 | The type filter keeps exactly the items of that type. |
| Listing.KeepTypeOfAppend | server.js:294-299 | Filtering keeps the relative order and multiplicity of what it keeps: filtering a + b is filtering a followed by filtering b. |
| Listing.KeepTypeKeepsOrder | server.js:295-299 | Filtering keeps the newest-first order. |
| Listing.ApplyFilter | server.js:294-299 | "image" and "video" keep exactly the items of that type, any other filter keeps everything, and a newest-first list stays newest first. That the kept items keep their relative order and multiplicity is KeepTypeOfAppend. |
| Listing.CeilDiv | server.js:302 | Math.ceil(a / b): the least c with a <= c*b for b > 0 (mirrored for b < 0). |
| Listing.RelativeIndex | server.js:305 | A slice index is clamped to the array: a non-negative i gives min(i, len), a negative one len + i, or 0 when that is negative. |
| Listing.SliceKeepsOrder | server.js:305 | A slice holds items of the array in their order. |
| Listing.JsSlice | server.js:305 | For 0 <= start <= end, slice is the subsequence between the clamped indices. |
| Listing.Paginate | server.js:301-316 | The pagination block echoes page and limit and gives the total item count. |
| Listing.PageIsSlice | server.js:303-305 | For positive page and limit, the page holds the items at indices [(page-1)*limit, page*limit), at most limit of them. |
| Listing.TotalPagesIsCeiling | server.js:302 | totalPages is the least number of pages of limit items that hold all items, and 0 exactly when there are none. |
| Listing.HasMoreIffItemsRemain | server.js:314 | hasMore holds exactly when items remain after this page. |
| Listing.EveryItemOnItsPage | server.js:303-305 | The item at index i is at position i % limit of page i / limit + 1. |
| Listing.NegativePageCountsFromTheEnd | server.js:303-305 | Page -1 of 50 items with limit 20 holds items 10 to 29. |
| Listing.QueryInt | server.js:265-266 | `parseInt(q) \|\| d`: never 0. NaN and 0 give the default, and any other value, negative ones included, is kept. |
| Listing.FilterOf | server.js:267 | The filter is the query value when one is given and "all" otherwise. |
| Listing.NoUnderscoreInNumber | server.js:270 | A printed integer contains no '_'. |
| Listing.CacheKeyTail | server.js:270 | After "files_" the key is page, '_', limit, '_', filter. |
| Listing.CacheKey | server.js:270 | The key starts with "files_"; that different parsed queries get different keys is CacheKeyInjective. |
| Listing.CacheKeyInjective | server.js:270 | Different parsed queries get different cache keys. |
| Listing.PageZeroSharesPageOne | server.js:265-270 | "page=0" falls back to page 1 and shares its cache entry. |
| Listing.SortedItemsAreListed | server.js:279-292 | Every sorted item passes the regular expression and is typed by its extension. |
| Listing.BuildListing | server.js:279-316 | The reply's files are newest first, all listed and correctly typed, and of the requested type for "image" and "video". |
| Listing.ListingDecision | server.js:264-278 | For the raw query strings: the stored reply under the key derived from them wins whatever the folder holds. Otherwise 500 exactly when the folder cannot be read. |
| Listing.ParsedDecision | server.js:269-323 | For the parsed page, limit and filter: a stored reply wins. Otherwise 500 exactly when the folder cannot be read, and a fresh reply is newest first and holds only listed, correctly typed files. |
| Listing.RepeatedListingIsServedFromCache | server.js:270-319 | Until the entry expires, a query is answered with the stored reply whatever the folder holds. |
| Listing.CachedReplyIgnoresFolder | server.js:270-274 | A stored reply is returned without reading the folder. |
| Listing.UncachedReplyReadsFolder | server.js:276-321 | Without a stored reply, an unreadable folder gives 500 and a readable one is listed afresh. |
| Listing.FolderErrorIsNotCached | server.js:277 | A failed readdir stores nothing, so the next request reads the folder again. |
| Listing.RequestHit | server.js:270-274 | On a cache hit the stored reply is returned and the cache is unchanged. |
| Listing.RequestFolderError | server.js:276-277 | A readdir error gives 500 and the cache is unchanged. |
| Listing.RequestFresh | server.js:276-321 | A fresh listing is returned and stored under its key. |
| Listing.ListingCache.constructor | server.js:12 | The cache starts empty. |
| Listing.ListingCache.Request | server.js:264-323 | The reply is ListingDecision of the cache before the request, and the cache afterwards is CacheAfterListing. |
| Listing.ListingCache.Expire | server.js:12 | An entry whose hour is over disappears, and nothing else changes. |

## Left out

- HTTP and the file system are inputs, not effects: existence, size and bytes of a file, the folder listing, and whether writing the cache file succeeds. This covers Express routing, `express.static`, `app.listen` and the start-up `mkdirSync`.
- sharp, heic-convert and ffmpeg are opaque functions or event sources. The images they produce and the process that `kill('SIGKILL')` ends are not modelled.
- `path.join` with the media folder is not modelled, and `filePath` is an input. So the model does not state whether a decoded filename such as `../x` escapes the media folder.
- Logging (`console.log`, `console.error`) and the error-message test at server.js:223, which only decides whether to log.
- JavaScript strings are UTF-16 code units, and `toLowerCase` also maps non-ASCII letters. The model works on Unicode scalar values and lower-cases ASCII only.
- Numbers are unbounded integers. Large digit strings losing precision, exponent notation when printing, and fractional values do not arise in the model.
- `stats.mtime` is a `Date`. The model uses its millisecond value: the sort subtracts Dates the same way, but JSON serialises them as ISO strings.
- Query parameters given twice (an array value) are not modelled: the model takes one string per parameter, "" when absent.
- `fs.statSync` throwing (server.js:90 and server.js:283) is an uncaught exception and is not modelled.
- The argument check of `fs.createReadStream` is `StreamableBounds`. Its upper limit (`Number.MAX_SAFE_INTEGER`) is not modelled, because numbers are unbounded.
- What becomes of the rejected promise after a read stream throws is not modelled. It depends on the Express version: Express 5 passes it to its error handler (500), while Express 4 leaves it unhandled.
- The bytes a range reply actually pipes, the 64 KB buffer size and backpressure are not modelled. The span records the bounds the stream is asked for, and the stream stops early at the end of the file.
- fluent-ffmpeg ends ffmpeg on its own when the response it pipes into closes (the 'Output stream closed' error at server.js:223). The session model counts only the SIGKILLs of the grace timer, so `StartedStreamSurvives` says nothing about that kill.
- UntieredCommand: it records the arguments the handler hands to the ffmpeg builder for an inherited quality name (an undefined bitrate, the size "undefinedxundefined"). What the builder does with them is not modelled: whether it rejects them, and whether a process starts or the response is ever ended. The session state machine covers only tiers.
- `res.sendFile` is taken to succeed, and the redirect's status is Express's default 302.
- The one-hour expiry of the listing cache is the `Expire` method, callable at any moment. Time itself is not modelled.
- Concurrent requests are not modelled: requests to the thumbnail folder and to the listing cache are sequential calls.
- ParseInt: its own contract only bounds the sign of the result. What it reads is stated by ParseIntRoundTrip and the Range and query lemmas.

## Findings

| source | as written | input that shows it | evidently intended | confidence | as-written member | corrected member |
|---|---|---|---|---|---|---|
| server.js:169-172 | `qualitySettings[quality]` also finds the members every object inherits from `Object.prototype`. These are truthy, so `if (!settings)` does not reject them. The handler then writes the 200 head and hands the ffmpeg builder an undefined bitrate and the frame size "undefinedxundefined". | `GET /media/clip.mp4?quality=toString` (likewise `constructor`, `valueOf`, `__proto__`) | 400 "Invalid quality setting" for every name other than 720p and 1080p | not executed | Transcoding.ToStringQualityStreams | Transcoding.IntendedTranscodeStart |
| server.js:101-109 | `fs.createReadStream(filePath, { start, end })` gets the bounds exactly as parsed and runs before `res.writeHead(206)`. Its argument check throws for bounds that are NaN or reversed, and so for an open range (`bytes=s-`) starting at or past the end of the file, whose end is cut to the last byte. The async handler's promise then rejects, and no reply is written. | `Range: bytes=x-`, `bytes=200-100`, or `bytes=2000-` on a 1000-byte file | 416 Range Not Satisfiable (section 15.5.17 of RFC 9110), and an end past the file cut to its last byte | not executed | RangeServing.UnparsableRangeThrows | RangeServing.SatisfiableOriginal |
