/** The crowd-report cache as seen by `SetAnswersAndReportsOnFeatures` and
    `InvalidateReportCache` (card.py). The cache is an abstract map from keys
    to values; time-to-live expiry is not modelled. */
module ReportCache {
  import opened Common
  import opened PyText

  /** A REPORT_CACHE key `[map_id, topic_id, RoundGeoPt(location)]`; the
      rounded location string is supplied by the caller. */
  datatype CacheKey = CacheKey(mapId: string, topicId: string, location: string)

  /** The answers of one feature are read under its map, its topic and its
      rounded location; neither the map version nor the radius is part of
      the key. */
  function ReadKey(mapId: string, topicId: string, location: string): (k: CacheKey)
    ensures k.mapId == mapId && k.topicId == topicId && k.location == location
  {
    CacheKey(mapId, topicId, location)
  }

  /** `REPORT_CACHE.Get(key, compute)`: the stored value on a hit; on a miss
      the freshly computed value, which is also stored. */
  function CachedGet<V>(cache: map<CacheKey, V>, key: CacheKey, computed: V): (r: (V, map<CacheKey, V>))
    ensures key in r.1 && r.1[key] == r.0
    ensures key in cache ==> r == (cache[key], cache)
    ensures key !in cache ==> r.0 == computed && r.1 == cache[key := computed]
    ensures r.1.Keys == cache.Keys + {key}
  {
    if key in cache then (cache[key], cache) else (computed, cache[key := computed])
  }

  /** The cache after the loop, and whether it ended by an exception (an id
      with more than one dot fails to unpack into two names). Deletions done
      before the exception stay done. */
  datatype Invalidation<V> = Completed(cache: map<CacheKey, V>) | Interrupted(cache: map<CacheKey, V>)

  /** The keys the loop deletes for the ids it gets through: one per id with
      exactly one dot. */
  function Targets(ids: seq<string>, location: string): (t: set<CacheKey>)
    ensures forall k :: k in t ==> k.location == location && '.' !in k.mapId && '.' !in k.topicId
  {
    if ids == [] then {} else IdTarget(ids[0], location) + Targets(ids[1..], location)
  }

  /** The key one full topic id targets: none unless it has exactly one dot. */
  function IdTarget(id: string, location: string): (t: set<CacheKey>)
    ensures forall k :: k in t ==> k.location == location && '.' !in k.mapId && '.' !in k.topicId
  {
    match SplitPair(id, '.')
    case Some(p) => {CacheKey(p.0, p.1, location)}
    case None => {}
  }

  /** InvalidateReportCache: for each full topic id containing a dot, delete
      the entry `[map_id, topic_id, RoundGeoPt(location)]`. */
  function InvalidateReportCache<V>(cache: map<CacheKey, V>, fullTopicIds: seq<string>, location: string)
    : (r: Invalidation<V>)
    ensures r.Interrupted? <==> exists i :: 0 <= i < |fullTopicIds| && Count(fullTopicIds[i], '.') > 1
    ensures r.Completed? ==> r.cache == cache - Targets(fullTopicIds, location)
    ensures forall k :: k in r.cache ==> k in cache && r.cache[k] == cache[k]
  {
    if fullTopicIds == [] then Completed(cache)
    else
      var id := fullTopicIds[0];
      var rest := fullTopicIds[1..];
      DeepIdSplit(fullTopicIds);
      if '.' !in id then
        assert Count(id, '.') == 0;
        assert SplitPair(id, '.').None?;
        InvalidateReportCache(cache, rest, location)
      else
        match SplitPair(id, '.')
        case None =>
          assert Count(fullTopicIds[0], '.') > 1;
          Interrupted(cache)
        case Some(p) =>
          assert Count(id, '.') == 1;
          var r := InvalidateReportCache(cache - {CacheKey(p.0, p.1, location)}, rest, location);
          assert r.Completed? ==> r.cache == cache - Targets(fullTopicIds, location);
          r
  }

  /** An interrupted invalidation stops at the first id with more than one
      dot: the cache it leaves has lost exactly the keys of the ids before
      that one. */
  lemma {:induction false} InterruptedKeepsEarlierDeletions<V>(cache: map<CacheKey, V>, ids: seq<string>,
                                                               location: string) returns (i: nat)
    requires InvalidateReportCache(cache, ids, location).Interrupted?
    ensures i < |ids| && Count(ids[i], '.') > 1
    ensures forall j :: 0 <= j < i ==> Count(ids[j], '.') <= 1
    ensures InvalidateReportCache(cache, ids, location).cache == cache - Targets(ids[..i], location)
  {
    if Count(ids[0], '.') > 1 {
      InvalidateDeep(cache, ids, location);
      i := 0;
      assert ids[..0] == [];
    } else {
      var rest := ids[1..];
      var first := IdTarget(ids[0], location);
      InvalidateShallow(cache, ids, location);
      var j := InterruptedKeepsEarlierDeletions(cache - first, rest, location);
      i := j + 1;
      TargetsPrefix(ids, j, location);
      MinusTwice(cache, first, Targets(rest[..j], location));
      ShallowPrefix(ids, j);
    }
  }

  lemma MinusTwice<V>(m: map<CacheKey, V>, a: set<CacheKey>, b: set<CacheKey>)
    ensures m - a - b == m - (a + b)
  {
  }

  lemma ShallowPrefix(ids: seq<string>, j: nat)
    requires j < |ids| && Count(ids[0], '.') <= 1
    requires forall k :: 0 <= k < j ==> Count(ids[1..][k], '.') <= 1
    ensures forall k :: 0 <= k < j + 1 ==> Count(ids[k], '.') <= 1
  {
    forall k | 0 < k < j + 1 ensures Count(ids[k], '.') <= 1 {
      assert ids[k] == ids[1..][k - 1];
    }
  }

  /** An id with at most one dot deletes its target and the loop goes on. */
  lemma InvalidateShallow<V>(cache: map<CacheKey, V>, ids: seq<string>, location: string)
    requires ids != [] && Count(ids[0], '.') <= 1
    ensures InvalidateReportCache(cache, ids, location) ==
              InvalidateReportCache(cache - IdTarget(ids[0], location), ids[1..], location)
  {
    if '.' !in ids[0] {
      assert Count(ids[0], '.') == 0;
      assert IdTarget(ids[0], location) == {};
      assert cache - {} == cache;
    }
  }

  /** An id with two or more dots stops the loop with the cache as it is. */
  lemma InvalidateDeep<V>(cache: map<CacheKey, V>, ids: seq<string>, location: string)
    requires ids != [] && Count(ids[0], '.') > 1
    ensures InvalidateReportCache(cache, ids, location) == Interrupted(cache)
  {
    assert '.' in ids[0];
  }

  lemma TargetsPrefix(ids: seq<string>, j: nat, location: string)
    requires j < |ids|
    ensures Targets(ids[..j + 1], location) == IdTarget(ids[0], location) + Targets(ids[1..][..j], location)
  {
    assert ids[..j + 1][0] == ids[0];
    assert ids[..j + 1][1..] == ids[1..][..j];
  }

  /** Some id of `ids` has more than one dot iff the first does or some
      later one does. */
  lemma DeepIdSplit(ids: seq<string>)
    requires ids != []
    ensures (exists i :: 0 <= i < |ids| && Count(ids[i], '.') > 1)
        <==> Count(ids[0], '.') > 1 || exists i :: 0 <= i < |ids[1..]| && Count(ids[1..][i], '.') > 1
  {
    var rest := ids[1..];
    if i :| 0 <= i < |ids| && Count(ids[i], '.') > 1 {
      if i > 0 {
        assert rest[i - 1] == ids[i];
      }
    }
    if i :| 0 <= i < |rest| && Count(rest[i], '.') > 1 {
      assert ids[i + 1] == rest[i];
    }
  }

  /** Two reads share a cache entry exactly when they are for the same map,
      topic and rounded location. */
  lemma ReadKeysSeparate(m1: string, t1: string, l1: string, m2: string, t2: string, l2: string)
    ensures ReadKey(m1, t1, l1) == ReadKey(m2, t2, l2) <==> m1 == m2 && t1 == t2 && l1 == l2
  {
  }

  /** Reading one feature's answers leaves the cached entry of any read with
      a different map, topic or rounded location as it was. */
  lemma GetLeavesOtherReads<V>(cache: map<CacheKey, V>, computed: V,
                               m1: string, t1: string, l1: string, m2: string, t2: string, l2: string)
    requires ReadKey(m2, t2, l2) in cache
    requires m1 != m2 || t1 != t2 || l1 != l2
    ensures var after := CachedGet(cache, ReadKey(m1, t1, l1), computed).1;
            ReadKey(m2, t2, l2) in after && after[ReadKey(m2, t2, l2)] == cache[ReadKey(m2, t2, l2)]
  {
    ReadKeysSeparate(m1, t1, l1, m2, t2, l2);
  }

  /** A full topic id `map.topic` (both parts dot-free) in the list makes the
      loop target exactly the key the reader uses. */
  lemma TargetsHasReadKey(ids: seq<string>, mapId: string, topicId: string, location: string)
    requires '.' !in mapId && '.' !in topicId
    requires mapId + "." + topicId in ids
    ensures ReadKey(mapId, topicId, location) in Targets(ids, location)
  {
    var i :| 0 <= i < |ids| && ids[i] == mapId + "." + topicId;
    TargetsAt(ids, i, mapId, topicId, location);
  }

  lemma {:induction false} TargetsAt(ids: seq<string>, i: nat, mapId: string, topicId: string, location: string)
    requires '.' !in mapId && '.' !in topicId
    requires i < |ids| && ids[i] == mapId + "." + topicId
    ensures CacheKey(mapId, topicId, location) in Targets(ids, location)
  {
    if i == 0 {
      SplitPairOfJoin(mapId, topicId, '.');
    } else {
      TargetsAt(ids[1..], i - 1, mapId, topicId, location);
    }
  }

  /** Every targeted key comes from an id of the list that is its map id and
      topic id joined by a dot. */
  lemma {:induction false} TargetsFromIds(ids: seq<string>, location: string, k: CacheKey)
    requires k in Targets(ids, location)
    ensures k.mapId + "." + k.topicId in ids
  {
    var p := SplitPair(ids[0], '.');
    if p.Some? && k == CacheKey(p.value.0, p.value.1, location) {
    } else {
      TargetsFromIds(ids[1..], location, k);
    }
  }

  /** After an invalidation that ran to the end, reading the answers of any
      topic named in the list misses the cache and recomputes them. */
  lemma ReadAfterInvalidateRecomputes<V>(cache: map<CacheKey, V>, ids: seq<string>, mapId: string,
                                         topicId: string, location: string, computed: V)
    requires InvalidateReportCache(cache, ids, location).Completed?
    requires '.' !in mapId && '.' !in topicId && mapId + "." + topicId in ids
    ensures CachedGet(InvalidateReportCache(cache, ids, location).cache,
                      ReadKey(mapId, topicId, location), computed).0 == computed
  {
    TargetsHasReadKey(ids, mapId, topicId, location);
  }

  /** Entries whose map and topic do not form an id of the list, or that are
      for another location, survive unchanged; ids without a dot delete
      nothing. */
  lemma OtherEntriesUnchanged<V>(cache: map<CacheKey, V>, ids: seq<string>, location: string, k: CacheKey)
    requires InvalidateReportCache(cache, ids, location).Completed?
    requires k in cache
    requires k.location != location || k.mapId + "." + k.topicId !in ids
    ensures k in InvalidateReportCache(cache, ids, location).cache
    ensures InvalidateReportCache(cache, ids, location).cache[k] == cache[k]
  {
    if k in Targets(ids, location) {
      TargetsFromIds(ids, location, k);
    }
  }
}
