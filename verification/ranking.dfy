/** Nearby-feature ranking: the `Feature` record, its distance ordering, the
    truncate-then-radius filter and the attribution list (card.py). */
module Ranking {
  import opened Common
  import opened PyText
  import opened Sorting

  datatype GeoPt = GeoPt(lat: real, lon: real)

  /** A map item from a source layer. `distance` stays `None` until a query
      centre is known; the answer fields set later in the pipeline are not
      part of this record. */
  datatype Feature = Feature(
    name: string,
    descriptionHtml: string,
    location: GeoPt,
    layerId: string,
    layerType: string,
    gplaceId: string,
    htmlAttrs: seq<string>,
    distance: Option<real>)

  /** `Feature.__lt__`: `self.distance < other.distance`, where Python 2
      orders `None` below every number and not below itself. */
  predicate FeatureLess(f: Feature, g: Feature) {
    match (f.distance, g.distance)
    case (None, None) => false
    case (None, Some(_)) => true
    case (Some(_), None) => false
    case (Some(a), Some(b)) => a < b
  }

  /** The sort key standing for `Feature.__lt__` (DistanceKeyMatchesLt). */
  function Distance(f: Feature): real {
    f.distance.GetOr(0.0)
  }

  /** On features whose distances are all set, or all `None`, comparing the
      keys is comparing with `Feature.__lt__`. */
  lemma DistanceKeyMatchesLt(f: Feature, g: Feature)
    requires f.distance.Some? == g.distance.Some?
    ensures FeatureLess(f, g) <==> Distance(f) < Distance(g)
  {
  }

  predicate AllDistancesSet(features: seq<Feature>) {
    forall i :: 0 <= i < |features| ==> features[i].distance.Some?
  }

  /** No query centre: no feature has been given a distance. */
  predicate NoDistancesSet(features: seq<Feature>) {
    forall i :: 0 <= i < |features| ==> features[i].distance.None?
  }

  /** The features in ranked order: Python's stable sort by distance. When
      the distances are all set or all `None`, no feature is `__lt__` one
      ranked before it. */
  function Ranked(features: seq<Feature>): (r: seq<Feature>)
    ensures multiset(r) == multiset(features)
    ensures AllDistancesSet(features) || NoDistancesSet(features) ==>
              forall i, j :: 0 <= i < j < |r| ==> !FeatureLess(r[j], r[i])
  {
    var r := StableSort(features, Distance);
    if AllDistancesSet(features) then
      DistancesSetInSubMultiset(r, features);
      r
    else if NoDistancesSet(features) then
      RankedWithoutDistances(features);
      r
    else r
  }

  /** FilterFeatures: sort by distance, keep the first `maxCount` (Python
      slice semantics, so a negative count drops from the end), then drop
      those at or beyond `radius`. Distances are either all set (there is a
      query centre) or all `None` (there is none). In the second case all
      features compare equal, so the stable sort keeps the input order, and
      Python 2 orders `None` below every number, so `None < radius` holds
      and every feature of the cut is kept. */
  function FilterFeatures(features: seq<Feature>, radius: real, maxCount: int): (r: seq<Feature>)
    requires AllDistancesSet(features) || NoDistancesSet(features)
    ensures SortedBy(r, Distance)
    ensures AllDistancesSet(features) ==>
              forall i :: 0 <= i < |r| ==> r[i].distance.Some? && r[i].distance.value < radius
    ensures !AllDistancesSet(features) ==> r == Take(features, maxCount)
    ensures 0 <= maxCount ==> |r| <= maxCount
    ensures multiset(r) <= multiset(features)
  {
    var ranked := Ranked(features);
    var top := Take(ranked, maxCount);
    PrefixSorted(ranked, Distance, |top|);
    PrefixMultiset(ranked, |top|);
    if !AllDistancesSet(features) then
      RankedWithoutDistances(features);
      top
    else
      KeepBelowSorted(top, Distance, radius);
      KeepBelowKeepsAll(top, Distance, radius);
      var r := KeepBelow(top, Distance, radius);
      DistancesSetInSubMultiset(r, features);
      r
  }

  /** Without distances every feature has the same sort key, so ranking
      keeps the input order. */
  lemma RankedWithoutDistances(features: seq<Feature>)
    requires NoDistancesSet(features)
    ensures StableSort(features, Distance) == features
  {
    assert forall i :: 0 <= i < |features| ==> Distance(features[i]) == 0.0;
    StableSortUnique(features, features, Distance);
  }

  lemma DistancesSetInSubMultiset(r: seq<Feature>, features: seq<Feature>)
    requires AllDistancesSet(features) && multiset(r) <= multiset(features)
    ensures AllDistancesSet(r)
  {
    forall i | 0 <= i < |r| ensures r[i].distance.Some? {
      assert r[i] in multiset(features);
      var j :| 0 <= j < |features| && features[j] == r[i];
    }
  }

  /** Truncating before the radius filter yields exactly the nearest
      `maxCount` features within the radius: in distance order every feature
      inside the radius precedes every feature outside it, so the two orders
      of the steps agree for any non-negative count. */
  lemma TruncateThenFilterIsFilterThenTruncate(features: seq<Feature>, radius: real, maxCount: int)
    requires AllDistancesSet(features)
    requires 0 <= maxCount
    ensures FilterFeatures(features, radius, maxCount)
         == Take(Ranked(KeepBelow(features, Distance, radius)), maxCount)
  {
    var ranked := Ranked(features);
    var cut := SliceEnd(|ranked|, maxCount);
    KeepBelowOfSortedPrefix(ranked, Distance, radius, cut);
    KeepBelowCommutesWithSort(features, Distance, radius);
  }

  /** Ranking loses no feature: each has a position in the ranking. */
  lemma RankedPosition(features: seq<Feature>, g: Feature) returns (j: nat)
    requires g in features
    ensures j < |Ranked(features)| && Ranked(features)[j] == g
  {
    assert g in multiset(features);
    var ranked := Ranked(features);
    assert g in multiset(ranked);
    j :| 0 <= j < |ranked| && ranked[j] == g;
  }

  /** Every input feature strictly nearer than a shown feature is shown too. */
  lemma NearerFeatureShown(features: seq<Feature>, radius: real, maxCount: int, f: Feature, g: Feature)
    requires AllDistancesSet(features)
    requires f in FilterFeatures(features, radius, maxCount)
    requires g in features && Distance(g) < Distance(f)
    ensures g in FilterFeatures(features, radius, maxCount)
  {
    var ranked := Ranked(features);
    var top := Take(ranked, maxCount);
    assert FilterFeatures(features, radius, maxCount) == KeepBelow(top, Distance, radius);
    var j := RankedPosition(features, g);
    assert f in top;
    var i :| 0 <= i < |top| && top[i] == f;
    assert ranked[i] == f;
    if |top| <= j {
      assert false;
    }
    assert top[j] == g;
    KeepBelowKeepsAll(top, Distance, radius);
  }

  /** A feature inside the radius is left out only when the count cut it: the
      cut removed something, and every feature kept by the cut is no farther
      than it. */
  lemma NearbyFeatureDroppedOnlyByCount(features: seq<Feature>, radius: real, maxCount: int, g: Feature)
    requires AllDistancesSet(features)
    requires g in features && Distance(g) < radius
    requires g !in FilterFeatures(features, radius, maxCount)
    ensures |Take(Ranked(features), maxCount)| < |features|
    ensures forall f :: f in Take(Ranked(features), maxCount) ==> Distance(f) <= Distance(g)
  {
    var ranked := Ranked(features);
    var top := Take(ranked, maxCount);
    assert FilterFeatures(features, radius, maxCount) == KeepBelow(top, Distance, radius);
    assert top <= ranked;
    var j := RankedPosition(features, g);
    if j < |top| {
      assert top[j] == g;
      KeepBelowKeepsAll(top, Distance, radius);
      assert false;
    }
    forall f | f in top ensures Distance(f) <= Distance(g) {
      var i :| 0 <= i < |top| && top[i] == f;
      assert ranked[i] == f && i < j;
    }
  }

  /** Four features whose distances rank `b`, `d`, `a`, `c` (the 50, 10,
      200, 30 of a typical listing). */
  predicate RankedAs(a: Feature, b: Feature, c: Feature, d: Feature)
  {
    Distance(b) < Distance(d) < Distance(a) < Distance(c)
  }

  lemma RankedExample(a: Feature, b: Feature, c: Feature, d: Feature)
    requires RankedAs(a, b, c, d)
    ensures Ranked([a, b, c, d]) == [b, d, a, c]
  {
    var s := [a, b, c, d];
    assert s[1..] == [b, c, d];
    assert [b, d, c][1..] == [d, c] && [d, c][1..] == [c];
    assert [b] + ([d] + ([a] + [c])) == [b, d, a, c];
    RankedLastThree(b, c, d);
    SortStep(s, Distance);
    InsertPast(a, [b, d, c], Distance);
    InsertPast(a, [d, c], Distance);
    InsertFront(a, [c], Distance);
  }

  lemma RankedLastThree(b: Feature, c: Feature, d: Feature)
    requires Distance(b) < Distance(d) < Distance(c)
    ensures StableSort([b, c, d], Distance) == [b, d, c]
  {
    var s := [b, c, d];
    assert s[1..] == [c, d];
    RankedLastTwo(c, d);
    SortStep(s, Distance);
    InsertFront(b, [d, c], Distance);
  }

  lemma RankedLastTwo(c: Feature, d: Feature)
    requires Distance(d) < Distance(c)
    ensures StableSort([c, d], Distance) == [d, c]
  {
    var s, e := [c, d], [];
    assert s[1..] == [d] && [d][1..] == e;
    SortStep([d], Distance);
    InsertFront(d, e, Distance);
    SortStep(s, Distance);
    InsertPast(c, [d], Distance);
    InsertFront(c, e, Distance);
  }

  lemma KeepBelowExample(a: Feature, b: Feature, d: Feature, radius: real)
    requires Distance(b) < Distance(d) < radius
    ensures Distance(a) < radius ==> KeepBelow([b, d, a], Distance, radius) == [b, d, a]
    ensures radius <= Distance(a) ==> KeepBelow([b, d, a], Distance, radius) == [b, d]
  {
    var top, e := [b, d, a], [];
    assert top[1..] == [d, a] && [d, a][1..] == [a] && [a][1..] == e;
    assert KeepBelow(top, Distance, radius) == [b] + KeepBelow([d, a], Distance, radius);
    assert KeepBelow([d, a], Distance, radius) == [d] + KeepBelow([a], Distance, radius);
    assert KeepBelow(e, Distance, radius) == [];
    assert [b] + ([d] + [a]) == top && [b] + [d] == [b, d];
  }

  /** A listing ranked `b`, `d`, `a`, `c` with `maxCount` 3 shows `b`, `d`,
      `a` when the radius takes in `a` (`c` is cut by the count before the
      radius is looked at, wherever it lies), and `b`, `d` when the radius
      falls between `d` and `a` (`a` survives the count and is then dropped
      by the radius). */
  lemma FilterFeaturesExample(a: Feature, b: Feature, c: Feature, d: Feature, radius: real)
    requires RankedAs(a, b, c, d)
    requires AllDistancesSet([a, b, c, d])
    requires Distance(d) < radius
    ensures Distance(a) < radius ==> FilterFeatures([a, b, c, d], radius, 3) == [b, d, a]
    ensures radius <= Distance(a) ==> FilterFeatures([a, b, c, d], radius, 3) == [b, d]
  {
    TopThreeExample(a, b, c, d);
    KeepBelowExample(a, b, d, radius);
  }

  lemma TopThreeExample(a: Feature, b: Feature, c: Feature, d: Feature)
    requires RankedAs(a, b, c, d)
    ensures Take(Ranked([a, b, c, d]), 3) == [b, d, a]
  {
    RankedExample(a, b, c, d);
    assert SliceEnd(4, 3) == 3;
    assert [b, d, a, c][..3] == [b, d, a];
  }

  /** The distinct HTML attributions of all features (the order of Python's
      `list(set(...))` is unspecified, so the result is a set). */
  function FeatureAttributions(features: seq<Feature>): (r: set<string>)
    ensures forall a :: a in r <==> exists i :: 0 <= i < |features| && a in features[i].htmlAttrs
  {
    if features == [] then {}
    else
      var rest := FeatureAttributions(features[1..]);
      assert forall i :: 1 <= i < |features| ==> features[i] == features[1..][i - 1];
      (set a | a in features[0].htmlAttrs) + rest
  }
}
