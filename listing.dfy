/** GET /files: the media files of the folder, newest first, optionally
    restricted to images or videos, one page at a time, with the pages
    kept in a cache keyed by the query. */
module Listing {
  import opened JsRuntime
  import opened MediaTypes

  // ----- which files are listed, and as what -----

  /** The alternatives of /\.(jpg|jpeg|png|heic|gif|mp4|mov|webm)$/i. */
  const ListedExtensions: seq<string> :=
    [".jpg", ".jpeg", ".png", ".heic", ".gif", ".mp4", ".mov", ".webm"]

  /** The regular expression test: the name ends, ignoring ASCII case, in
      one of the listed extensions. */
  predicate IsListedName(name: string)
  {
    exists e :: e in ListedExtensions && EndsWith(ToLowerAscii(name), e)
  }

  datatype ItemType = ImageType | VideoType

  /** `[".mp4", ".mov", ".webm"].includes(ext) ? "video" : "image"`. */
  function ItemTypeOf(name: string): (t: ItemType)
    ensures t == VideoType <==> KindOf(ExtensionOf(name)) == Video
  {
    if ExtensionOf(name) in VideoExtensions then VideoType else ImageType
  }

  /** Every listed extension is a dot followed by lower-case letters and
      digits. */
  lemma ListedExtensionShape(ext: string)
    requires ext in ListedExtensions
    ensures |ext| >= 2 && ext[0] == '.'
    ensures forall i :: 1 <= i < |ext| ==> 'a' <= ext[i] <= 'z' || '0' <= ext[i] <= '9'
  {
  }

  lemma LowerSuffix(stem: string, ext: string)
    ensures ToLowerAscii(stem + ext)[|stem|..] == ToLowerAscii(ext)
  {
  }

  /** A name ending in a listed extension after a non-empty stem is
      listed, and typed by that extension. */
  lemma ListedByExtension(stem: string, ext: string)
    requires stem != [] && stem[|stem| - 1] != '/'
    requires ext in ListedExtensions
    ensures IsListedName(stem + ext)
    ensures ItemTypeOf(stem + ext) == VideoType <==> ext in VideoExtensions
  {
    ListedExtensionShape(ext);
    assert ToLowerAscii(ext) == ext;
    LowerSuffix(stem, ext);
    assert EndsWith(ToLowerAscii(stem + ext), ext);
    ExtNameOfSuffix(stem, ext);
  }

  /** A file named just ".mp4" passes the regular expression but has no
      extension for path.extname, so it is listed as an image. */
  lemma DotfileListedAsImage()
    ensures IsListedName(".mp4")
    ensures ItemTypeOf(".mp4") == ImageType
  {
    DotfileMatches();
    DotfileHasNoExtension();
  }

  lemma DotfileMatches()
    ensures IsListedName(".mp4")
  {
    assert ToLowerAscii(".mp4") == ".mp4";
    assert EndsWith(ToLowerAscii(".mp4"), ".mp4");
  }

  lemma DotfileHasNoExtension()
    ensures ExtName(".mp4") == ""
  {
    assert StripTrailingSlashes(".mp4") == ".mp4";
    assert LastIndexOf(".mp4", '/') == None;
    assert BaseName(".mp4") == ".mp4";
    assert LastIndexOf(".mp4", '.') == Some(0);
  }

  /** What fs.readdir and fs.statSync report: a name, a size and the
      modification time in milliseconds. */
  datatype DirEntry = DirEntry(name: string, size: nat, modified: int)

  /** One element of the `files` array of the reply. */
  datatype MediaItem = MediaItem(name: string, itemType: ItemType, size: nat, modified: int)

  function ItemOf(e: DirEntry): (m: MediaItem)
  {
    MediaItem(e.name, ItemTypeOf(e.name), e.size, e.modified)
  }

  /** `files.filter(regex).map(...)`. */
  function ListedItems(entries: seq<DirEntry>): (items: seq<MediaItem>)
    ensures |items| <= |entries|
    ensures forall x :: x in items ==> IsListedName(x.name) && x.itemType == ItemTypeOf(x.name)
    ensures forall e :: e in entries && IsListedName(e.name) ==> ItemOf(e) in items
    // every item is the image of a listed entry
    ensures forall x :: x in items ==> exists e :: e in entries && IsListedName(e.name) && x == ItemOf(e)
  {
    if entries == [] then []
    else if IsListedName(entries[0].name) then [ItemOf(entries[0])] + ListedItems(entries[1..])
    else ListedItems(entries[1..])
  }

  /** The listing keeps readdir's order: listing two runs of entries one
      after the other is listing each and joining the results. */
  lemma {:induction false} ListedItemsOfAppend(a: seq<DirEntry>, b: seq<DirEntry>)
    ensures ListedItems(a + b) == ListedItems(a) + ListedItems(b)
  {
    if a == [] {
      assert a + b == b;
    } else {
      assert (a + b)[0] == a[0];
      assert (a + b)[1..] == a[1..] + b;
      ListedItemsOfAppend(a[1..], b);
    }
  }

  // ----- newest first -----

  predicate NewestFirst(s: seq<MediaItem>)
  {
    forall i, j :: 0 <= i < j < |s| ==> s[i].modified >= s[j].modified
  }

  /** Puts `x` before the first item that is not newer than it. */
  function Insert(x: MediaItem, s: seq<MediaItem>): (r: seq<MediaItem>)
    ensures multiset(r) == multiset(s) + multiset{x}
  {
    if s == [] || x.modified >= s[0].modified then [x] + s
    else
      assert s == [s[0]] + s[1..];
      [s[0]] + Insert(x, s[1..])
  }

  lemma {:induction false} InsertKeepsOrder(x: MediaItem, s: seq<MediaItem>)
    requires NewestFirst(s)
    ensures NewestFirst(Insert(x, s))
  {
    if s != [] && x.modified < s[0].modified {
      HeadIsNewest(s);
      InsertKeepsOrder(x, s[1..]);
      var rest := Insert(x, s[1..]);
      forall y | y in rest
        ensures s[0].modified >= y.modified
      {
        assert y in multiset(rest);
      }
      PrependNewest(s[0], rest);
    }
  }

  /** In a newest-first sequence the head is at least as new as the rest,
      which is newest-first too. */
  lemma HeadIsNewest(s: seq<MediaItem>)
    requires s != []
    ensures NewestFirst(s) ==> NewestFirst(s[1..])
    ensures NewestFirst(s) ==> forall y :: y in s[1..] ==> s[0].modified >= y.modified
  {
    if NewestFirst(s) {
      forall y | y in s[1..]
        ensures s[0].modified >= y.modified
      {
        var j :| 0 <= j < |s[1..]| && s[1..][j] == y;
        assert s[j + 1] == y;
      }
    }
  }

  /** An item at least as new as every item of a newest-first sequence can
      go in front of it. */
  lemma PrependNewest(x: MediaItem, rest: seq<MediaItem>)
    ensures NewestFirst(rest) && (forall y :: y in rest ==> x.modified >= y.modified)
            ==> NewestFirst([x] + rest)
  {
    if NewestFirst(rest) && (forall y :: y in rest ==> x.modified >= y.modified) {
      var s := [x] + rest;
      forall i, j | 0 <= i < j < |s|
        ensures s[i].modified >= s[j].modified
      {
        assert s[j] == rest[j - 1];
        if i > 0 {
          assert s[i] == rest[i - 1];
        } else {
          assert rest[j - 1] in rest;
        }
      }
    }
  }

  lemma MultisetOfCons(s: seq<MediaItem>)
    requires s != []
    ensures multiset(s) == multiset(s[1..]) + multiset{s[0]}
  {
    assert s == [s[0]] + s[1..];
  }

  /** `.sort((a, b) => b.modified - a.modified)`; the engine's sort is
      stable, which this insertion sort is too. */
  function SortNewest(s: seq<MediaItem>): (r: seq<MediaItem>)
    ensures multiset(r) == multiset(s)
    ensures NewestFirst(r)
  {
    if s == [] then []
    else
      var sortedTail := SortNewest(s[1..]);
      InsertKeepsOrder(s[0], sortedTail);
      MultisetOfCons(s);
      Insert(s[0], sortedTail)
  }

  /** The items with modification time `t`, in their order. */
  function SameTime(s: seq<MediaItem>, t: int): seq<MediaItem>
  {
    if s == [] then []
    else if s[0].modified == t then [s[0]] + SameTime(s[1..], t)
    else SameTime(s[1..], t)
  }

  lemma {:induction false} SameTimeOfInsert(x: MediaItem, s: seq<MediaItem>, t: int)
    ensures SameTime(Insert(x, s), t)
            == if x.modified == t then [x] + SameTime(s, t) else SameTime(s, t)
  {
    if s == [] || x.modified >= s[0].modified {
      assert ([x] + s)[1..] == s;
    } else {
      var rest := Insert(x, s[1..]);
      assert ([s[0]] + rest)[1..] == rest;
      SameTimeOfInsert(x, s[1..], t);
    }
  }

  /** The sort is stable: files with the same modification time keep the
      order the directory listing gave them. */
  lemma {:induction false} SortNewestIsStable(s: seq<MediaItem>, t: int)
    ensures SameTime(SortNewest(s), t) == SameTime(s, t)
  {
    if s != [] {
      SortNewestIsStable(s[1..], t);
      SameTimeOfInsert(s[0], SortNewest(s[1..]), t);
    }
  }

  // ----- the type filter -----

  function KeepType(s: seq<MediaItem>, t: ItemType): (r: seq<MediaItem>)
    ensures forall x :: x in r ==> x in s && x.itemType == t
    ensures forall x :: x in s && x.itemType == t ==> x in r
  {
    if s == [] then []
    else
      var rest := KeepType(s[1..], t);
      assert s == [s[0]] + s[1..];
      if s[0].itemType == t then [s[0]] + rest else rest
  }

  lemma {:induction false} KeepTypeKeepsOrder(s: seq<MediaItem>, t: ItemType)
    requires NewestFirst(s)
    ensures NewestFirst(KeepType(s, t))
  {
    if s != [] {
      HeadIsNewest(s);
      KeepTypeKeepsOrder(s[1..], t);
      PrependNewest(s[0], KeepType(s[1..], t));
    }
  }

  /** "image" and "video" keep that type; any other filter keeps all. */
  /** Filtering keeps the relative order and the multiplicity of what it
      keeps: filtering two runs one after the other is filtering each and
      joining the results. */
  lemma {:induction false} KeepTypeOfAppend(a: seq<MediaItem>, b: seq<MediaItem>, t: ItemType)
    ensures KeepType(a + b, t) == KeepType(a, t) + KeepType(b, t)
  {
    if a == [] {
      assert a + b == b;
    } else {
      assert (a + b)[0] == a[0];
      assert (a + b)[1..] == a[1..] + b;
      KeepTypeOfAppend(a[1..], b, t);
    }
  }

  function ApplyFilter(s: seq<MediaItem>, filter: string): (r: seq<MediaItem>)
    ensures filter == "image" ==> forall x :: x in r <==> x in s && x.itemType == ImageType
    ensures filter == "video" ==> forall x :: x in r <==> x in s && x.itemType == VideoType
    ensures filter != "image" && filter != "video" ==> r == s
    ensures NewestFirst(s) ==> NewestFirst(r)
  {
    if filter == "image" then
      (if NewestFirst(s) then KeepTypeKeepsOrder(s, ImageType); KeepType(s, ImageType)
       else KeepType(s, ImageType))
    else if filter == "video" then
      (if NewestFirst(s) then KeepTypeKeepsOrder(s, VideoType); KeepType(s, VideoType)
       else KeepType(s, VideoType))
    else s
  }

  // ----- pagination -----

  /** Math.ceil(a / b) for integers, b non-zero. */
  function CeilDiv(a: int, b: int): (c: int)
    requires b != 0
    ensures b > 0 ==> (c - 1) * b < a <= c * b
    ensures b < 0 ==> c * b <= a < (c - 1) * b
  {
    if b > 0 then
      var q, r := (-a) / b, (-a) % b;
      assert -a == q * b + r && 0 <= r < b;
      -q
    else
      var q, r := a / (-b), a % (-b);
      assert a == q * (-b) + r && 0 <= r < -b;
      -q
  }

  /** An index argument of Array.prototype.slice: a negative one counts
      from the end; both are clamped to the array. */
  function RelativeIndex(i: int, len: nat): (k: nat)
    ensures k <= len
    ensures 0 <= i ==> k == Min(i, len)
    // a negative index counts back from the end, stopping at the front
    ensures i < 0 && 0 <= len + i ==> k == len + i
    ensures len + i < 0 ==> k == 0
  {
    if i < 0 then (if len + i < 0 then 0 else len + i)
    else if i > len then len else i
  }

  /** A slice is a contiguous piece of the sequence, so it keeps the
      order of the items it takes. */
  lemma SliceKeepsOrder(s: seq<MediaItem>, start: int, end: int)
    ensures forall x :: x in JsSlice(s, start, end) ==> x in s
    ensures NewestFirst(s) ==> NewestFirst(JsSlice(s, start, end))
  {
    var lo, hi := RelativeIndex(start, |s|), RelativeIndex(end, |s|);
    if lo < hi {
      assert forall k :: 0 <= k < hi - lo ==> s[lo..hi][k] == s[lo + k];
    }
  }

  /** `s.slice(start, end)`. */
  function JsSlice<T>(s: seq<T>, start: int, end: int): (r: seq<T>)
    ensures 0 <= start <= end ==> r == s[Min(start, |s|)..Min(end, |s|)]
    ensures |r| <= |s|
  {
    var lo, hi := RelativeIndex(start, |s|), RelativeIndex(end, |s|);
    if lo < hi then s[lo..hi] else []
  }

  datatype Pagination = Pagination(page: int, limit: int, total: nat, totalPages: int, hasMore: bool)

  datatype ListingResult = ListingResult(files: seq<MediaItem>, pagination: Pagination)

  /** The page of `s` the handler returns. The limit is never 0: the
      `|| 20` default replaces it. */
  function Paginate(s: seq<MediaItem>, page: int, limit: int): (r: ListingResult)
    requires limit != 0
    ensures r.pagination.page == page && r.pagination.limit == limit && r.pagination.total == |s|
  {
    var totalPages := CeilDiv(|s|, limit);
    var start := (page - 1) * limit;
    ListingResult(JsSlice(s, start, start + limit),
                  Pagination(page, limit, |s|, totalPages, page < totalPages))
  }

  lemma MulLeft(a: int, b: int, c: int)
    requires a <= b && c >= 0
    ensures a * c <= b * c
  {
  }

  /** For a positive page and limit the page holds the items at indices
      [(page-1)*limit, page*limit), at most `limit` of them. */
  lemma PageIsSlice(s: seq<MediaItem>, page: int, limit: int)
    requires page >= 1 && limit >= 1
    ensures var r := Paginate(s, page, limit);
            var start := (page - 1) * limit;
            0 <= start && r.files == s[Min(start, |s|)..Min(start + limit, |s|)] && |r.files| <= limit
  {
    MulLeft(0, page - 1, limit);
  }

  /** totalPages is the least number of pages of `limit` items that hold
      all `total` items. */
  lemma TotalPagesIsCeiling(s: seq<MediaItem>, page: int, limit: int)
    requires limit >= 1
    ensures var p := Paginate(s, page, limit).pagination;
            (p.totalPages - 1) * limit < |s| <= p.totalPages * limit && p.totalPages >= 0
    ensures Paginate(s, page, limit).pagination.totalPages == 0 <==> s == []
  {
    var c := CeilDiv(|s|, limit);
    if c < 0 {
      MulLeft(c, -1, limit);
    }
    if s == [] && c != 0 {
      MulLeft(1, c, limit);
    }
  }

  /** hasMore says exactly that items remain after this page. */
  lemma HasMoreIffItemsRemain(s: seq<MediaItem>, page: int, limit: int)
    requires page >= 1 && limit >= 1
    ensures Paginate(s, page, limit).pagination.hasMore <==> page * limit < |s|
  {
    TotalPagesIsCeiling(s, page, limit);
    PagesRemain(CeilDiv(|s|, limit), page, limit, |s|);
  }

  lemma PagesRemain(c: int, page: int, limit: int, n: int)
    requires limit >= 1 && (c - 1) * limit < n <= c * limit
    ensures page < c <==> page * limit < n
  {
    if page < c {
      MulLeft(page, c - 1, limit);
    } else {
      MulLeft(c, page, limit);
    }
  }

  /** Every item is on exactly one page: the item at index i is at
      position i % limit of page i / limit + 1. */
  lemma DivisionParts(i: int, limit: int)
    requires limit >= 1 && 0 <= i
    ensures i == i / limit * limit + i % limit && 0 <= i % limit < limit && i / limit >= 0
    ensures i / limit * limit <= i < i / limit * limit + limit
  {
  }

  lemma EveryItemOnItsPage(s: seq<MediaItem>, limit: int, i: int)
    requires limit >= 1 && 0 <= i < |s|
    ensures var page := i / limit + 1;
            var files := Paginate(s, page, limit).files;
            i % limit < |files| && files[i % limit] == s[i]
  {
    var q, m := i / limit, i % limit;
    DivisionParts(i, limit);
    var page := q + 1;
    PageIsSlice(s, page, limit);
    var start := (page - 1) * limit;
    assert start == q * limit;
    var files := Paginate(s, page, limit).files;
    assert files == s[start..Min(start + limit, |s|)];
    assert files[m] == s[start + m];
  }

  /** A negative page is not rejected: slice counts it from the end, so
      page -1 of 50 items with limit 20 holds items 10 to 29. */
  lemma NegativePageCountsFromTheEnd(s: seq<MediaItem>)
    requires |s| == 50
    ensures Paginate(s, -1, 20).files == s[10..30]
  {
  }

  // ----- the query -----

  /** `parseInt(q) || d`: NaN and 0 give the default; any other value,
      negative ones included, is kept. */
  function QueryInt(q: string, default: int): (n: int)
    requires default != 0
    ensures n != 0
    ensures ParseInt(q, Unspecified).Some? && ParseInt(q, Unspecified).value != 0 ==>
            n == ParseInt(q, Unspecified).value
    ensures ParseInt(q, Unspecified).None? || ParseInt(q, Unspecified).value == 0 ==> n == default
  {
    match ParseInt(q, Unspecified)
    case Some(v) => if v != 0 then v else default
    case None => default
  }

  const DefaultPage: int := 1
  const DefaultLimit: int := 20

  /** `req.query.filter || 'all'`. */
  function FilterOf(q: string): (f: string)
    ensures f != []
    ensures q != [] ==> f == q
    ensures q == [] ==> f == "all"
  {
    if q == [] then "all" else q
  }

  /** The template `files_${page}_${limit}_${filter}`. */
  function CacheKey(page: int, limit: int, filter: string): (k: string)
    ensures |k| > 6 && k[..6] == "files_"
  {
    "files_" + IntToString(page) + "_" + IntToString(limit) + "_" + filter
  }

  lemma NoUnderscoreInNumber(i: int)
    ensures '_' !in IntToString(i)
  {
    if i < 0 {
      assert IntToString(i) == "-" + NatToString(-i);
    }
  }

  lemma SameSplit(a: string, b: string, x: string, y: string, c: char)
    requires c !in a && c !in b
    requires a + [c] + x == b + [c] + y
    ensures a == b && x == y
  {
    SplitAtFirst(a, x, c);
    SplitAtFirst(b, y, c);
    var u := a + [c] + x;
    assert a == ([a] + Split(x, c))[0] == Split(u, c)[0] == ([b] + Split(y, c))[0] == b;
    assert u[|a| + 1..] == x;
    assert (b + [c] + y)[|b| + 1..] == y;
  }

  lemma CacheKeyTail(page: int, limit: int, filter: string)
    ensures var k := CacheKey(page, limit, filter);
            |k| >= 6 && k[6..] == IntToString(page) + "_" + (IntToString(limit) + "_" + filter)
  {
    var a, b := IntToString(page), IntToString(limit);
    assert CacheKey(page, limit, filter) == "files_" + (a + "_" + (b + "_" + filter));
  }

  /** Different queries after parsing get different cache entries. */
  lemma CacheKeyInjective(p1: int, l1: int, f1: string, p2: int, l2: int, f2: string)
    requires CacheKey(p1, l1, f1) == CacheKey(p2, l2, f2)
    ensures p1 == p2 && l1 == l2 && f1 == f2
  {
    var a1, a2 := IntToString(p1), IntToString(p2);
    var b1, b2 := IntToString(l1), IntToString(l2);
    CacheKeyTail(p1, l1, f1);
    CacheKeyTail(p2, l2, f2);
    assert a1 + "_" + (b1 + "_" + f1) == a2 + "_" + (b2 + "_" + f2);
    NoUnderscoreInNumber(p1);
    NoUnderscoreInNumber(p2);
    NoUnderscoreInNumber(l1);
    NoUnderscoreInNumber(l2);
    SameSplit(a1, a2, b1 + "_" + f1, b2 + "_" + f2, '_');
    SameSplit(b1, b2, f1, f2, '_');
    IntToStringInjective(p1, p2);
    IntToStringInjective(l1, l2);
  }

  /** "page=0" falls back to page 1, so it shares the cache entry of
      page 1. */
  lemma PageZeroSharesPageOne()
    ensures QueryInt("0", DefaultPage) == QueryInt("1", DefaultPage) == 1
  {
    assert ParseInt("0", Unspecified) == Some(0) by {
      assert NatToString(0) == "0";
      ParseIntRoundTrip(0, Unspecified);
    }
    assert ParseInt("1", Unspecified) == Some(1) by {
      assert NatToString(1) == "1";
      ParseIntRoundTrip(1, Unspecified);
    }
  }

  // ----- the handler -----

  lemma SortedItemsAreListed(entries: seq<DirEntry>)
    ensures forall x :: x in SortNewest(ListedItems(entries)) ==>
              IsListedName(x.name) && x.itemType == ItemTypeOf(x.name)
  {
    var listed := ListedItems(entries);
    assert forall x :: x in SortNewest(listed) ==> x in multiset(listed);
  }

  /** The reply built from a successful readdir. */
  function BuildListing(entries: seq<DirEntry>, page: int, limit: int, filter: string): (r: ListingResult)
    requires limit != 0
    ensures NewestFirst(r.files)
    ensures forall x :: x in r.files ==> IsListedName(x.name) && x.itemType == ItemTypeOf(x.name)
    ensures filter == "image" ==> forall x :: x in r.files ==> x.itemType == ImageType
    ensures filter == "video" ==> forall x :: x in r.files ==> x.itemType == VideoType
  {
    var sorted := SortNewest(ListedItems(entries));
    SortedItemsAreListed(entries);
    var kept := ApplyFilter(sorted, filter);
    var start := (page - 1) * limit;
    SliceKeepsOrder(kept, start, start + limit);
    Paginate(kept, page, limit)
  }

  datatype ListingResponse = Served(result: ListingResult) | FolderError
  {
    function Status(): int { if Served? then 200 else 500 }
  }

  /** The cache key of a request, from its three query strings. */
  function ListingKey(pageQuery: string, limitQuery: string, filterQuery: string): string
  {
    CacheKey(QueryInt(pageQuery, DefaultPage), QueryInt(limitQuery, DefaultLimit), FilterOf(filterQuery))
  }

  /** The response for the three query strings ("" when absent), given
      the cache and the folder's entries (None when readdir fails). */
  function ListingDecision(cache: map<string, ListingResult>, pageQuery: string, limitQuery: string,
                           filterQuery: string, folder: Option<seq<DirEntry>>): (r: ListingResponse)
    ensures ListingKey(pageQuery, limitQuery, filterQuery) in cache ==>
              r == Served(cache[ListingKey(pageQuery, limitQuery, filterQuery)])
    ensures ListingKey(pageQuery, limitQuery, filterQuery) !in cache ==> (r.FolderError? <==> folder.None?)
  {
    ParsedDecision(cache, QueryInt(pageQuery, DefaultPage), QueryInt(limitQuery, DefaultLimit),
                   FilterOf(filterQuery), folder)
  }

  /** The response once the query has been read: the stored reply under
      the key, else the listing of a readable folder, else 500. */
  function ParsedDecision(cache: map<string, ListingResult>, page: int, limit: int, filter: string,
                          folder: Option<seq<DirEntry>>): (r: ListingResponse)
    requires limit != 0
    // a stored reply wins, whatever the folder holds
    ensures CacheKey(page, limit, filter) in cache ==> r == Served(cache[CacheKey(page, limit, filter)])
    // otherwise 500 exactly when the folder cannot be read
    ensures CacheKey(page, limit, filter) !in cache ==> (r.FolderError? <==> folder.None?)
    // and a fresh reply is newest first and holds only listed, correctly typed files
    ensures CacheKey(page, limit, filter) !in cache && r.Served? ==>
              NewestFirst(r.result.files) &&
              forall x :: x in r.result.files ==> IsListedName(x.name) && x.itemType == ItemTypeOf(x.name)
  {
    var key := CacheKey(page, limit, filter);
    if key in cache then Served(cache[key])
    else match folder
      case None => FolderError
      case Some(entries) => Served(BuildListing(entries, page, limit, filter))
  }

  /** The cache after the request: a freshly built reply is stored under
      its key. */
  function CacheAfterListing(cache: map<string, ListingResult>, pageQuery: string, limitQuery: string,
                             filterQuery: string, r: ListingResponse): map<string, ListingResult>
  {
    StoreListing(cache, ListingKey(pageQuery, limitQuery, filterQuery), r)
  }

  function StoreListing(cache: map<string, ListingResult>, key: string, r: ListingResponse)
    : map<string, ListingResult>
  {
    if r.Served? && key !in cache then cache[key := r.result] else cache
  }

  /** Until its entry expires a query is answered with the stored reply,
      whatever the folder holds by then. */
  lemma RepeatedListingIsServedFromCache(cache: map<string, ListingResult>, pageQuery: string,
                                         limitQuery: string, filterQuery: string,
                                         folder: Option<seq<DirEntry>>, laterFolder: Option<seq<DirEntry>>)
    requires ListingDecision(cache, pageQuery, limitQuery, filterQuery, folder).Served?
    ensures var r := ListingDecision(cache, pageQuery, limitQuery, filterQuery, folder);
            var after := CacheAfterListing(cache, pageQuery, limitQuery, filterQuery, r);
            ListingDecision(after, pageQuery, limitQuery, filterQuery, laterFolder) == r
  {
  }

  /** A stored reply is returned without reading the folder. */
  lemma CachedReplyIgnoresFolder(cache: map<string, ListingResult>, pageQuery: string,
                                 limitQuery: string, filterQuery: string,
                                 folder: Option<seq<DirEntry>>)
    requires ListingKey(pageQuery, limitQuery, filterQuery) in cache
    ensures ListingDecision(cache, pageQuery, limitQuery, filterQuery, folder)
            == Served(cache[ListingKey(pageQuery, limitQuery, filterQuery)])
  {
  }

  /** Without a stored reply, a readable folder is listed afresh and an
      unreadable one gives 500. */
  lemma UncachedReplyReadsFolder(cache: map<string, ListingResult>, pageQuery: string,
                                 limitQuery: string, filterQuery: string,
                                 folder: Option<seq<DirEntry>>)
    requires ListingKey(pageQuery, limitQuery, filterQuery) !in cache
    ensures var r := ListingDecision(cache, pageQuery, limitQuery, filterQuery, folder);
            (folder.None? ==> r == FolderError && r.Status() == 500) &&
            (folder.Some? ==>
               r == Served(BuildListing(folder.value, QueryInt(pageQuery, DefaultPage),
                                        QueryInt(limitQuery, DefaultLimit), FilterOf(filterQuery))))
  {
  }

  /** A failed readdir is not cached: the next request reads the folder
      again. */
  lemma FolderErrorIsNotCached(cache: map<string, ListingResult>, pageQuery: string,
                               limitQuery: string, filterQuery: string, laterFolder: seq<DirEntry>)
    requires ListingDecision(cache, pageQuery, limitQuery, filterQuery, None) == FolderError
    ensures var after := CacheAfterListing(cache, pageQuery, limitQuery, filterQuery, FolderError);
            ListingDecision(after, pageQuery, limitQuery, filterQuery, Some(laterFolder)).Served?
  {
  }

  /** A stored reply is returned and the cache is left as it is. */
  lemma RequestHit(cache: map<string, ListingResult>, page: int, limit: int, filter: string,
                   folder: Option<seq<DirEntry>>)
    requires limit != 0 && CacheKey(page, limit, filter) in cache
    ensures var key := CacheKey(page, limit, filter);
            var r := ParsedDecision(cache, page, limit, filter, folder);
            r == Served(cache[key]) && StoreListing(cache, key, r) == cache
  {
  }

  /** An unreadable folder gives 500 and the cache is left as it is. */
  lemma RequestFolderError(cache: map<string, ListingResult>, page: int, limit: int, filter: string)
    requires limit != 0 && CacheKey(page, limit, filter) !in cache
    ensures var key := CacheKey(page, limit, filter);
            var r := ParsedDecision(cache, page, limit, filter, None);
            r == FolderError && StoreListing(cache, key, r) == cache
  {
  }

  /** A readable folder is listed and the reply stored under its key. */
  lemma RequestFresh(cache: map<string, ListingResult>, page: int, limit: int, filter: string,
                     entries: seq<DirEntry>)
    requires limit != 0 && CacheKey(page, limit, filter) !in cache
    ensures var key := CacheKey(page, limit, filter);
            var result := BuildListing(entries, page, limit, filter);
            var r := ParsedDecision(cache, page, limit, filter, Some(entries));
            r == Served(result) && StoreListing(cache, key, r) == cache[key := result]
  {
  }

  /** The NodeCache instance with the listing replies. */
  class ListingCache {
    var entries: map<string, ListingResult>

    constructor ()
      ensures entries == map[]
    {
      entries := map[];
    }

    /** One request to /files. */
    method Request(pageQuery: string, limitQuery: string, filterQuery: string,
                   folder: Option<seq<DirEntry>>) returns (r: ListingResponse)
      modifies this
      ensures r == ListingDecision(old(entries), pageQuery, limitQuery, filterQuery, folder)
      ensures entries == CacheAfterListing(old(entries), pageQuery, limitQuery, filterQuery, r)
    {
      var page := QueryInt(pageQuery, DefaultPage);
      var limit := QueryInt(limitQuery, DefaultLimit);
      var filter := FilterOf(filterQuery);
      var key := CacheKey(page, limit, filter);
      if key in entries {
        RequestHit(entries, page, limit, filter, folder);
        return Served(entries[key]);
      }
      if folder.None? {
        RequestFolderError(entries, page, limit, filter);
        return FolderError;
      }
      RequestFresh(entries, page, limit, filter, folder.value);
      var result := BuildListing(folder.value, page, limit, filter);
      entries := entries[key := result];
      r := Served(result);
    }

    /** The time-to-live of an entry ran out. */
    method Expire(key: string)
      modifies this
      ensures entries == old(entries) - {key}
    {
      entries := entries - {key};
    }
  }
}
