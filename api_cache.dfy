/** The API server's response cache: each request kind is a key, each answer
    is kept with the instant it was stored, and an entry is good for 12 hours,
    24 for competition results. Time is the monotonic clock `now` and, for the
    copy on disk, the wall clock `wall`, both in nanoseconds. */
module ApiCache {
  import opened Wrappers
  import opened Strings
  import opened Clock
  import opened Dates
  import opened InstantSerde
  import A = ApiUtil

  type u32 = x: nat | x < 0x1_0000_0000

  /** `CachedRequest`: what was asked, and so what the answer is stored under. */
  datatype CachedRequest =
    | SearchCompetitions(start: Date, end: Date, query: string)
    | GetCompetitionRegistrations(id: u32)
    | GetCompetitionResults(id: u32)
    | SearchAthletes(query: string)
    | GetAthleteProfile(id: u32)

  /** `CacheEntry`: the answer and the instant it was stored. */
  datatype CacheEntry = CacheEntry(timestamp: int, value: string)

  const HOUR_IN_S: nat := 60 * 60

  // ---------------------------------------------------------------------------
  // keys
  // ---------------------------------------------------------------------------

  /** `new_search_competitions`: no query and the empty query are the same
      key, and any other query is stored in lower case. */
  function NewSearchCompetitions(start: Date, end: Date, query: Option<string>): (r: CachedRequest)
    ensures r.SearchCompetitions? && r.start == start && r.end == end
    ensures query.None? ==> r.query == ""
    ensures query.Some? ==> r.query == LowerAscii(query.value)
  {
    var q := match query
      case Some(v) => if v == [] then "" else LowerAscii(v)
      case None => "";
    SearchCompetitions(start, end, q)
  }

  /** A search with no query and one with the empty query share their key. */
  lemma SearchNoneIsEmpty(start: Date, end: Date)
    ensures NewSearchCompetitions(start, end, None) == NewSearchCompetitions(start, end, Some(""))
  {
  }

  /** Two queries give the same key exactly when they agree up to case, and the
      stored query is already in lower case. */
  lemma SearchIgnoresCase(start: Date, end: Date, q1: string, q2: string)
    ensures NewSearchCompetitions(start, end, Some(q1)) == NewSearchCompetitions(start, end, Some(q2))
            <==> LowerAscii(q1) == LowerAscii(q2)
    ensures LowerAscii(NewSearchCompetitions(start, end, Some(q1)).query)
            == NewSearchCompetitions(start, end, Some(q1)).query
  {
    var l := LowerAscii(q1);
    assert LowerAscii(l) == l by {
      forall i | 0 <= i < |l| ensures LowerAscii(l)[i] == l[i] {
      }
    }
  }

  /** `new_get_registrations`, `new_get_results` and `new_get_athlete_profile`
      carry the id only; `new_search_athletes` keeps its query as it is, case
      and all. */
  function NewGetRegistrations(id: u32): (r: CachedRequest)
    ensures r.GetCompetitionRegistrations? && r.id == id
  {
    GetCompetitionRegistrations(id)
  }

  function NewGetResults(id: u32): (r: CachedRequest)
    ensures r.GetCompetitionResults? && r.id == id
  {
    GetCompetitionResults(id)
  }

  function NewSearchAthletes(query: string): (r: CachedRequest)
    ensures r.SearchAthletes? && r.query == query
  {
    SearchAthletes(query)
  }

  function NewGetAthleteProfile(id: u32): (r: CachedRequest)
    ensures r.GetAthleteProfile? && r.id == id
  {
    GetAthleteProfile(id)
  }

  /** Athlete searches that differ only in case are different keys. */
  lemma SearchAthletesKeepsCase()
    ensures NewSearchAthletes("Foo") != NewSearchAthletes("foo")
  {
    assert NewSearchAthletes("Foo").query[0] == 'F';
  }

  /** `cache_duration`: 24 hours for competition results, 12 for the rest. */
  function CacheDuration(k: CachedRequest): (d: nat)
    ensures d == (if k.GetCompetitionResults? then 24 else 12) * HOUR_IN_S * NANOS_PER_SEC
  {
    match k
    case SearchCompetitions(_, _, _) => HOUR_IN_S * 12 * NANOS_PER_SEC
    case GetCompetitionRegistrations(_) => HOUR_IN_S * 12 * NANOS_PER_SEC
    case GetCompetitionResults(_) => HOUR_IN_S * 24 * NANOS_PER_SEC
    case SearchAthletes(_) => HOUR_IN_S * 12 * NANOS_PER_SEC
    case GetAthleteProfile(_) => HOUR_IN_S * 12 * NANOS_PER_SEC
  }

  // ---------------------------------------------------------------------------
  // the state the cache keeps
  // ---------------------------------------------------------------------------

  /** An entry is still good while less time than its key's duration has
      passed since it was stored. */
  predicate Fresh(k: CachedRequest, e: CacheEntry, now: int) {
    Elapsed(e.timestamp, now) < CacheDuration(k)
  }

  /** The entries a sweep at `now` keeps, each as it was. */
  function Swept(m: map<CachedRequest, CacheEntry>, now: int): map<CachedRequest, CacheEntry> {
    map k | k in m && Fresh(k, m[k], now) :: m[k]
  }

  /** The entries whose keys are not in `ks`. */
  function Without(m: map<CachedRequest, CacheEntry>, ks: seq<CachedRequest>): map<CachedRequest, CacheEntry> {
    map k | k in m && k !in ks :: m[k]
  }

  /** Removing the keys one at a time: one more key of the list is one more gone. */
  lemma WithoutSnoc(m: map<CachedRequest, CacheEntry>, ks: seq<CachedRequest>, i: nat)
    requires i < |ks|
    ensures Without(m, ks[..i]) - {ks[i]} == Without(m, ks[..i + 1])
  {
    assert ks[..i + 1] == ks[..i] + [ks[i]];
  }

  /** Removing exactly the stale keys is a sweep. */
  lemma WithoutStale(m: map<CachedRequest, CacheEntry>, ks: seq<CachedRequest>, now: int)
    requires forall k :: k in ks <==> k in m && !Fresh(k, m[k], now)
    ensures Without(m, ks) == Swept(m, now)
  {
  }

  /** An entry that is stale stays stale: a sweep after a sweep is one sweep at
      the later time. */
  lemma SweptTwice(m: map<CachedRequest, CacheEntry>, t1: int, t2: int)
    requires t1 <= t2
    ensures Swept(Swept(m, t1), t2) == Swept(m, t2)
  {
    forall k | k in m && Fresh(k, m[k], t2) ensures Fresh(k, m[k], t1) {
    }
  }

  /** An entry stored at `now` survives a sweep at `now`. */
  lemma StoredSurvivesSweep(m: map<CachedRequest, CacheEntry>, k: CachedRequest, v: string, now: int)
    ensures k in Swept(m[k := CacheEntry(now, v)], now)
    ensures Swept(m[k := CacheEntry(now, v)], now)[k] == CacheEntry(now, v)
  {
  }

  /** `DiskCache` entries: the stored instant written as a Unix second. */
  datatype DiskEntry = DiskEntry(stamp: nat, value: string)

  /** Every entry can be written at this moment: none is older than the epoch. */
  predicate Writable(m: map<CachedRequest, CacheEntry>, now: int, wall: nat) {
    forall k :: k in m ==> AsSecs(Elapsed(m[k].timestamp, now)) <= AsSecs(wall)
  }

  function Frozen(e: CacheEntry, now: int, wall: nat): DiskEntry
    requires AsSecs(Elapsed(e.timestamp, now)) <= AsSecs(wall)
  {
    DiskEntry(Serialize(e.timestamp, now, wall), e.value)
  }

  function Thawed(d: DiskEntry, now: int, wall: nat): CacheEntry
    requires d.stamp <= AsSecs(wall)
  {
    CacheEntry(Deserialize(d.stamp, now, wall), d.value)
  }

  /** Every stored second can be read at this moment: none is in the future. */
  predicate Readable(disk: seq<(CachedRequest, DiskEntry)>, wall: nat) {
    forall i :: 0 <= i < |disk| ==> disk[i].1.stamp <= AsSecs(wall)
  }

  /** A list of the map's entries, each key once, each entry written at this
      moment. */
  predicate Snapshot(disk: seq<(CachedRequest, DiskEntry)>, m: map<CachedRequest, CacheEntry>, now: int, wall: nat)
    requires Writable(m, now, wall)
  {
    && (forall i, j :: 0 <= i < j < |disk| ==> disk[i].0 != disk[j].0)
    && (forall i :: 0 <= i < |disk| ==> disk[i].0 in m && disk[i].1 == Frozen(m[disk[i].0], now, wall))
    && (forall k :: k in m ==> exists i :: 0 <= i < |disk| && disk[i].0 == k)
  }

  /** The map `load_from_disk` builds: the entries inserted in list order, so
      that a later entry for a key replaces an earlier one. */
  function Loaded(disk: seq<(CachedRequest, DiskEntry)>, now: int, wall: nat): map<CachedRequest, CacheEntry>
    requires Readable(disk, wall)
  {
    if disk == [] then map[]
    else
      var last := disk[|disk| - 1];
      Loaded(disk[..|disk| - 1], now, wall)[last.0 := Thawed(last.1, now, wall)]
  }

  /** A prefix of a readable list is readable. */
  lemma ReadablePrefix(disk: seq<(CachedRequest, DiskEntry)>, wall: nat, n: nat)
    requires Readable(disk, wall) && n <= |disk|
    ensures Readable(disk[..n], wall)
  {
    forall i | 0 <= i < n ensures disk[..n][i].1.stamp <= AsSecs(wall) {
      assert disk[..n][i] == disk[i];
    }
  }

  /** The keys loaded are exactly the keys listed. */
  lemma {:induction false} LoadedKeys(disk: seq<(CachedRequest, DiskEntry)>, now: int, wall: nat, k: CachedRequest)
    requires Readable(disk, wall)
    ensures k in Loaded(disk, now, wall) <==> exists i :: 0 <= i < |disk| && disk[i].0 == k
  {
    if disk != [] {
      var n := |disk| - 1;
      var init := disk[..n];
      ReadablePrefix(disk, wall, n);
      LoadedKeys(init, now, wall, k);
      if exists i :: 0 <= i < |disk| && disk[i].0 == k {
        var i :| 0 <= i < |disk| && disk[i].0 == k;
        if i < n {
          assert init[i] == disk[i];
        }
      }
      if exists i :: 0 <= i < |init| && init[i].0 == k {
        var i :| 0 <= i < |init| && init[i].0 == k;
        assert disk[i] == init[i];
      }
    }
  }

  /** A key holds the last entry listed for it: a later entry for a key
      replaces an earlier one. */
  lemma {:induction false} LoadedLastWins(disk: seq<(CachedRequest, DiskEntry)>, now: int, wall: nat, i: nat)
    requires Readable(disk, wall)
    requires i < |disk|
    requires forall j :: i < j < |disk| ==> disk[j].0 != disk[i].0
    ensures disk[i].0 in Loaded(disk, now, wall)
    ensures Loaded(disk, now, wall)[disk[i].0] == Thawed(disk[i].1, now, wall)
  {
    var n := |disk| - 1;
    if i < n {
      var init := disk[..n];
      ReadablePrefix(disk, wall, n);
      assert init[i] == disk[i];
      forall j | i < j < |init| ensures init[j].0 != init[i].0 {
        assert init[j] == disk[j];
      }
      LoadedLastWins(init, now, wall, i);
    }
  }

  /** Saving and loading again gives back the same keys and values; each
      instant comes back as old as it was when saved, in whole seconds, plus
      the whole seconds the wall clock moved on in between. */
  lemma SaveLoadRoundTrip(m: map<CachedRequest, CacheEntry>, disk: seq<(CachedRequest, DiskEntry)>,
                          now1: int, wall1: nat, now2: int, wall2: nat)
    requires Writable(m, now1, wall1) && Snapshot(disk, m, now1, wall1)
    requires wall1 <= wall2
    ensures Readable(disk, wall2)
    ensures Loaded(disk, now2, wall2).Keys == m.Keys
    ensures forall k :: k in m ==>
              && Loaded(disk, now2, wall2)[k].value == m[k].value
              && AsSecs(Elapsed(Loaded(disk, now2, wall2)[k].timestamp, now2))
                 == AsSecs(Elapsed(m[k].timestamp, now1)) + (AsSecs(wall2) - AsSecs(wall1))
  {
    assert AsSecs(wall1) <= AsSecs(wall2);
    assert Readable(disk, wall2) by {
      forall i | 0 <= i < |disk| ensures disk[i].1.stamp <= AsSecs(wall2) {
      }
    }
    var loaded := Loaded(disk, now2, wall2);
    forall k ensures k in loaded <==> k in m {
      LoadedKeys(disk, now2, wall2, k);
    }
    forall k | k in m
      ensures loaded[k].value == m[k].value
      ensures AsSecs(Elapsed(loaded[k].timestamp, now2))
              == AsSecs(Elapsed(m[k].timestamp, now1)) + (AsSecs(wall2) - AsSecs(wall1))
    {
      var i :| 0 <= i < |disk| && disk[i].0 == k;
      LoadedLastWins(disk, now2, wall2, i);
      assert loaded[k] == Thawed(disk[i].1, now2, wall2);
      AgeAfterRoundTrip(m[k].timestamp, now1, wall1, now2, wall2);
    }
  }

  /** `leaky_bucket::RateLimiter`, seen only through how often a permit was
      taken. */
  class RateLimiter {
    var acquired: nat

    constructor ()
      ensures acquired == 0
    {
      acquired := 0;
    }

    /** `acquire_one`: waits for and takes one permit. */
    method AcquireOne()
      modifies this
      ensures acquired == old(acquired) + 1
    {
      acquired := acquired + 1;
    }
  }

  /** `Cache`: the shared map from request to entry. */
  class Cache {
    var cached: map<CachedRequest, CacheEntry>

    /** `Cache::new`. */
    constructor ()
      ensures cached == map[]
    {
      cached := map[];
    }

    /** `clean`: collects the keys of the stale entries while visiting the map
      (in an order the map chooses), then removes them. */
    method Clean(now: int)
      modifies this
      ensures cached == Swept(old(cached), now)
    {
      var toRemove: seq<CachedRequest> := [];
      var unvisited := cached.Keys;
      while unvisited != {}
        invariant unvisited <= cached.Keys
        invariant forall k :: k in toRemove <==> k in cached && k !in unvisited && !Fresh(k, cached[k], now)
        decreases |unvisited|
      {
        var k :| k in unvisited;
        if !Fresh(k, cached[k], now) {
          toRemove := toRemove + [k];
        }
        unvisited := unvisited - {k};
      }
      ghost var before := cached;
      WithoutStale(before, toRemove, now);
      var i := 0;
      assert cached == Without(before, toRemove[..i]);
      while i < |toRemove|
        invariant 0 <= i <= |toRemove|
        invariant cached == Without(before, toRemove[..i])
      {
        WithoutSnoc(before, toRemove, i);
        cached := cached - {toRemove[i]};
        i := i + 1;
      }
      assert toRemove[..i] == toRemove;
    }

    /** `lookup`: the entry under the key, if there is one; the map is not
      changed. */
    method Lookup(query: CachedRequest) returns (r: Option<CacheEntry>)
      ensures r.None? <==> query !in cached
      ensures r.Some? ==> r.value == cached[query]
    {
      if query in cached {
        r := Some(cached[query]);
      } else {
        r := None;
      }
    }

    /** `insert`: stores the value under the key, stamped `now`, in place of
      any entry the key had; no other key changes. */
    method Insert(query: CachedRequest, value: string, now: int)
      modifies this
      ensures cached == old(cached)[query := CacheEntry(now, value)]
    {
      cached := cached[query := CacheEntry(now, value)];
    }

    /** `save_to_disk`, up to the JSON text: every entry of the map (in an
      order the map chooses), its instant written as a Unix second. */
    method SaveToDisk(now: int, wall: nat) returns (disk: seq<(CachedRequest, DiskEntry)>)
      requires Writable(cached, now, wall)
      ensures Snapshot(disk, cached, now, wall)
    {
      disk := [];
      var unvisited := cached.Keys;
      while unvisited != {}
        invariant unvisited <= cached.Keys
        invariant forall i, j :: 0 <= i < j < |disk| ==> disk[i].0 != disk[j].0
        invariant forall i :: 0 <= i < |disk| ==>
                    disk[i].0 in cached && disk[i].0 !in unvisited
                    && disk[i].1 == Frozen(cached[disk[i].0], now, wall)
        invariant forall k :: k in cached && k !in unvisited ==> exists i :: 0 <= i < |disk| && disk[i].0 == k
        decreases |unvisited|
      {
        var k :| k in unvisited;
        ghost var prev := disk;
        disk := disk + [(k, Frozen(cached[k], now, wall))];
        forall k' | k' in cached && k' !in unvisited - {k}
          ensures exists i :: 0 <= i < |disk| && disk[i].0 == k'
        {
          if k' == k {
            assert disk[|prev|].0 == k';
          } else {
            var i :| 0 <= i < |prev| && prev[i].0 == k';
            assert disk[i] == prev[i];
          }
        }
        unvisited := unvisited - {k};
      }
    }

    /** `load_from_disk`, after the JSON text was read: a new cache with the
      listed entries inserted in order, each instant read back from its Unix
      second. */
    static method LoadFromDisk(disk: seq<(CachedRequest, DiskEntry)>, now: int, wall: nat) returns (c: Cache)
      requires Readable(disk, wall)
      ensures fresh(c) && c.cached == Loaded(disk, now, wall)
    {
      c := new Cache();
      var i := 0;
      while i < |disk|
        invariant 0 <= i <= |disk|
        invariant Readable(disk[..i], wall)
        invariant c.cached == Loaded(disk[..i], now, wall)
        modifies c
      {
        assert disk[..i + 1][..i] == disk[..i];
        var (k, v) := disk[i];
        c.cached := c.cached[k := Thawed(v, now, wall)];
        i := i + 1;
      }
      assert disk[..i] == disk;
    }
  }

  /** The error body of a results request: `{"error": <message>}`. */
  function NotFoundBody(message: string): string {
    "{\"error\":\"" + message + "\"}"
  }

  /** `CachedRequest::run`. A key in the cache is answered from it at once,
      marked cached with the entry's age at `now`. Otherwise one permit is
      taken from the rate limiter and the site is asked; `fetched` is what that
      gives, the answer as JSON text or the error's message. A success is
      stored (stamped `fetchedAt`) and answered marked fresh; a failure leaves
      the cache alone and is a not-found for results and an internal error
      for the rest. */
  method Run(key: CachedRequest, cache: Cache, limiter: RateLimiter, now: int,
             fetched: Result<string>, fetchedAt: int) returns (resp: A.ApiResponse)
    modifies cache, limiter
    ensures key in old(cache.cached) ==>
              && resp == A.Cached(A.NewOkFromString(old(cache.cached)[key].value), old(cache.cached)[key].timestamp, now)
              && limiter.acquired == old(limiter.acquired)
              && cache.cached == old(cache.cached)
    ensures key !in old(cache.cached) ==> limiter.acquired == old(limiter.acquired) + 1
    ensures key !in old(cache.cached) && fetched.Ok? ==>
              && cache.cached == old(cache.cached)[key := CacheEntry(fetchedAt, fetched.value)]
              && resp == A.Nocache(A.NewOkFromString(fetched.value))
    ensures key !in old(cache.cached) && fetched.Err? ==>
              && cache.cached == old(cache.cached)
              && resp == (if key.GetCompetitionResults? then A.NotFound(NotFoundBody(fetched.error))
                          else A.InternalError(fetched.error))
  {
    var entry := cache.Lookup(key);
    if entry.Some? {
      return A.Cached(A.NewOkFromString(entry.value.value), entry.value.timestamp, now);
    }
    limiter.AcquireOne();
    match fetched
    case Ok(v) =>
      cache.Insert(key, v, fetchedAt);
      resp := A.Nocache(A.NewOkFromString(v));
    case Err(e) =>
      if key.GetCompetitionResults? {
        resp := A.NotFound(NotFoundBody(e));
      } else {
        resp := A.InternalError(e);
      }
  }

  /** A cached answer answers 200 with the stored body; a fresh one too; an
      error never touches the cache. */
  lemma RunStatuses(v: string, timestamp: int, now: int)
    ensures A.Status(A.Cached(A.NewOkFromString(v), timestamp, now)) == 200
    ensures A.Cached(A.NewOkFromString(v), timestamp, now).body == v
    ensures A.Status(A.Nocache(A.NewOkFromString(v))) == 200
  {
  }
}
