/**
 * The popup's local cache (frontend/popup.js): entries stored with the time
 * they were written and read back only within an hour, and the per-course
 * details cache with its fallback record. The clock is a parameter `now`
 * (milliseconds), and the HTTP fetch is a function from course code to
 * response.
 */
module PopupCache {
  import opened Wrappers

  /** A stored entry: the cached data with its write time, or text that does not parse. */
  datatype Stored<D> = Entry(data: D, timestamp: int) | Unreadable

  /** One hour in milliseconds. */
  const CacheLifetime: int := 3600 * 1000

  /** `getCachedData`: the data under `key` if it was written less than an hour before `now`. */
  function CachedData<D>(items: map<string, Stored<D>>, key: string, now: int): (r: Option<D>)
    ensures r.Some? <==> key in items && items[key].Entry? && now - items[key].timestamp < CacheLifetime
    ensures r.Some? ==> r.value == items[key].data
  {
    if key !in items then None
    else match items[key]
      case Unreadable => None
      case Entry(data, timestamp) => if now - timestamp < CacheLifetime then Some(data) else None
  }

  /** Data just written reads back as long as less than an hour has passed. */
  lemma ReadAfterWrite<D>(items: map<string, Stored<D>>, key: string, data: D, written: int, now: int)
    requires now - written < CacheLifetime
    ensures CachedData(items[key := Entry(data, written)], key, now) == Some(data)
  {
  }

  /** Data written an hour or more ago reads as missing. */
  lemma ReadExpired<D>(items: map<string, Stored<D>>, key: string, data: D, written: int, now: int)
    requires now - written >= CacheLifetime
    ensures CachedData(items[key := Entry(data, written)], key, now) == None
  {
  }

  /** A write under one key leaves every other key's reading as it was. */
  lemma WriteOtherKey<D>(items: map<string, Stored<D>>, key: string, e: Stored<D>, other: string, now: int)
    requires other != key
    ensures CachedData(items[key := e], other, now) == CachedData(items, other, now)
  {
  }

  /** `localStorage`, holding one kind of cached data. */
  class Storage<D> {
    var items: map<string, Stored<D>>

    constructor(initial: map<string, Stored<D>>)
      ensures items == initial
    {
      items := initial;
    }

    /** `setCachedData`: store the data with the current time. */
    method SetCachedData(key: string, data: D, now: int)
      modifies this
      ensures items == old(items)[key := Entry(data, now)]
    {
      items := items[key := Entry(data, now)];
    }
  }

  // ---------------------------------------------------------------------
  // fetchCourseDetails
  // ---------------------------------------------------------------------

  /** A course record (`{code, name, credits, prereqs, coreqs}`). */
  datatype CourseRecord = CourseRecord(code: string, name: string, credits: int,
                                       prereqs: seq<string>, coreqs: seq<string>)

  /** What fetching `/courses/<code>` gives: a parsed record, an HTTP error status, or a failure to fetch or parse. */
  datatype FetchResult = Fetched(record: CourseRecord) | HttpStatus(status: int) | FetchFailed

  /** The cache key of the per-course details. */
  const CoursesKey := "coursesCache"

  /** The record used when a course is not found or cannot be fetched. */
  function BasicInfo(code: string): CourseRecord
  {
    CourseRecord(code, code, 3, [], [])
  }

  /** `getCachedData(cacheKey) || {}`: the fresh course cache, or an empty one. */
  function CourseCache(items: map<string, Stored<map<string, CourseRecord>>>, now: int): map<string, CourseRecord>
  {
    match CachedData(items, CoursesKey, now)
    case Some(c) => c
    case None => map[]
  }

  /** The record a lookup that missed the cache returns: the fetched one, or the basic record on any error. */
  function Resolve(code: string, response: FetchResult): (r: CourseRecord)
    ensures response.Fetched? ==> r == response.record
    ensures !response.Fetched? ==> r == BasicInfo(code)
  {
    match response
    case Fetched(rec) => rec
    case HttpStatus(_) => BasicInfo(code)  // 404 and every other status give the same record
    case FetchFailed => BasicInfo(code)
  }

  /**
   * The record `fetchCourseDetails(code)` returns and the storage after it:
   * a cached code is returned without a fetch; otherwise the resolved
   * record is added to the cache read, and the cache is written back.
   */
  function Details(items: map<string, Stored<map<string, CourseRecord>>>, code: string, now: int,
                   fetch: string -> FetchResult)
    : (CourseRecord, map<string, Stored<map<string, CourseRecord>>>)
  {
    var cache := CourseCache(items, now);
    if code in cache then (cache[code], items)
    else
      var r := Resolve(code, fetch(code));
      (r, items[CoursesKey := Entry(cache[code := r], now)])
  }

  /** `fetchCourseDetails`: the cache logic, with the fetch passed in. */
  method FetchCourseDetails(storage: Storage<map<string, CourseRecord>>, code: string, now: int,
                            fetch: string -> FetchResult) returns (r: CourseRecord)
    modifies storage
    ensures (r, storage.items) == Details(old(storage.items), code, now, fetch)
  {
    var courseCache := CourseCache(storage.items, now);
    if code in courseCache {
      return courseCache[code];
    }
    var response := fetch(code);
    r := Resolve(code, response);
    courseCache := courseCache[code := r];
    storage.SetCachedData(CoursesKey, courseCache, now);
  }

  /** A cached code is returned as it is, without touching the storage or the fetch. */
  lemma DetailsHit(items: map<string, Stored<map<string, CourseRecord>>>, code: string, now: int,
                   fetch: string -> FetchResult)
    requires CachedData(items, CoursesKey, now).Some? && code in CachedData(items, CoursesKey, now).value
    ensures Details(items, code, now, fetch) == (CachedData(items, CoursesKey, now).value[code], items)
  {
  }

  /**
   * A miss stores the returned record with the current time, so asking again
   * within the hour returns the same record from the cache, whatever the
   * fetch would give. (A hit does not refresh the time of the cache.)
   */
  lemma DetailsCached(items: map<string, Stored<map<string, CourseRecord>>>, code: string, now: int, later: int,
                      fetch: string -> FetchResult, fetch2: string -> FetchResult)
    requires code !in CourseCache(items, now)
    requires now <= later < now + CacheLifetime
    ensures var (r, after) := Details(items, code, now, fetch);
      Details(after, code, later, fetch2) == (r, after)
  {
    var cache := CourseCache(items, now);
    var r := Resolve(code, fetch(code));
    var after := items[CoursesKey := Entry(cache[code := r], now)];
    ReadAfterWrite(items, CoursesKey, cache[code := r], now, later);
    assert CourseCache(after, later) == cache[code := r];
  }

  /**
   * A miss adds the code to a fresh cache and leaves its other courses as
   * they were; a cache that had expired is replaced by the one new record.
   */
  lemma DetailsMissCache(items: map<string, Stored<map<string, CourseRecord>>>, code: string, now: int,
                         fetch: string -> FetchResult)
    requires code !in CourseCache(items, now)
    ensures var (r, after) := Details(items, code, now, fetch);
      var before := CachedData(items, CoursesKey, now);
      r == Resolve(code, fetch(code)) &&
      (forall k :: k != CoursesKey ==> (k in after <==> k in items) && (k in items ==> after[k] == items[k])) &&
      CachedData(after, CoursesKey, now) ==
        Some(if before.Some? then before.value[code := r] else map[code := r])
  {
  }

  /** A course that is not found, or cannot be fetched, is 3 credits with no prerequisites or corequisites. */
  lemma DetailsFallback(items: map<string, Stored<map<string, CourseRecord>>>, code: string, now: int,
                        fetch: string -> FetchResult)
    requires code !in CourseCache(items, now) && !fetch(code).Fetched?
    ensures Details(items, code, now, fetch).0 == CourseRecord(code, code, 3, [], [])
  {
  }
}
