/** The two filters built on the chunked spatial join: the connectivity filter
    of `Lotic.remove_disconnected_features` (keep the water polygons that
    intersect the stream network) and the self-touch filter of
    `FACET.clean_facet` (keep the stream segments that intersect another
    segment). The geometry predicate `intersects` is an abstract function. */
module Connectivity {
  import opened Seqs
  import opened SpatialJoin
  import opened Loaders

  /** What the connectivity filter is meant to return: the lotic rows, numbered
      `0..n-1` in table order, whose geometry intersects some network line. */
  function ConnectedFeatures<G>(lotic: seq<Feature<G>>, network: seq<G>, intersects: (G, G) -> bool): seq<Numbered<Feature<G>>> {
    Select(AssignIds(lotic), (r: Numbered<Feature<G>>) => HitsSome(r.val.geom, network, intersects))
  }

  /** `remove_disconnected_features`: number the rows, join their geometries
      against the network in six chunks, then keep the rows whose id the join
      reports. The result is exactly the intended selection: a polygon that
      meets some line is kept, one that meets none is dropped, and the rows
      keep their order. */
  method RemoveDisconnectedFeatures<G(==)>(lotic: seq<Feature<G>>, network: seq<G>, intersects: (G, G) -> bool)
      returns (kept: seq<Numbered<Feature<G>>>)
    ensures kept == ConnectedFeatures(lotic, network, intersects)
    ensures |kept| <= |lotic|
    ensures forall i :: 0 <= i < |lotic| ==>
      (Numbered(i, lotic[i]) in kept <==> HitsSome(lotic[i].geom, network, intersects))
    ensures forall k :: 0 <= k < |kept| ==>
      0 <= kept[k].id < |lotic| && kept[k].val == lotic[kept[k].id]
  {
    var numbered := AssignIds(lotic);
    var left := Project(numbered, (r: Numbered<Feature<G>>) => Numbered(r.id, r.val.geom));
    var ids := SJoinMp(left, network, intersects, IdColumn);
    kept := Select(numbered, (r: Numbered<Feature<G>>) => r.id in ids);

    SJoinIds(left, network, intersects);
    forall i | 0 <= i < |numbered|
      ensures (numbered[i].id in ids) == HitsSome(numbered[i].val.geom, network, intersects)
    {
      if HitsSome(numbered[i].val.geom, network, intersects) {
        assert left[i].id == i && left[i].val == lotic[i].geom;
      }
    }
    SelectExt(numbered, (r: Numbered<Feature<G>>) => r.id in ids,
              (r: Numbered<Feature<G>>) => HitsSome(r.val.geom, network, intersects));
  }

  /** Segment `r` intersects a segment with a different id. */
  predicate TouchesOther<G>(r: Numbered<G>, segments: seq<G>, intersects: (G, G) -> bool) {
    exists j :: 0 <= j < |segments| && j != r.id && intersects(r.val, segments[j])
  }

  /** What the self-touch filter is meant to return: the segments, numbered
      `0..n-1`, that intersect some other segment. */
  function TouchingSegments<G>(segments: seq<G>, intersects: (G, G) -> bool): seq<Numbered<G>> {
    Select(AssignIds(segments), (r: Numbered<G>) => TouchesOther(r, segments, intersects))
  }

  /** The predicate of the self-join: a left geometry against a numbered right row. */
  function SelfHits<G>(intersects: (G, G) -> bool): (G, Numbered<G>) -> bool {
    (g: G, r: Numbered<G>) => intersects(g, r.val)
  }

  /** The `['id_left', 'id_right']` pairs of the self-join are exactly the pairs
      of segment positions whose geometries intersect, the trivial `(i, i)`
      pairs included. */
  lemma SelfJoinPairs<G>(segments: seq<G>, intersects: (G, G) -> bool)
    ensures forall a: int, b: int :: (a, b) in SJoin(AssignIds(segments), AssignIds(segments), SelfHits(intersects), IdPair) <==>
      0 <= a < |segments| && 0 <= b < |segments| && intersects(segments[a], segments[b])
  {
    var gdf := AssignIds(segments);
    var hits := SelfHits(intersects);
    JoinRowsExact(gdf, gdf, hits);
    var rows := JoinRows(gdf, gdf, hits);
    ProjectExact(rows, IdPair);
    forall a: int, b: int | 0 <= a < |segments| && 0 <= b < |segments| && intersects(segments[a], segments[b])
      ensures (a, b) in SJoin(gdf, gdf, hits, IdPair)
    {
      var m := Match(gdf[a], b, gdf[b]);
      assert IsMatch(m, gdf, gdf, hits);
      assert IdPair(m) == (a, b);
    }
    forall a: int, b: int | (a, b) in SJoin(gdf, gdf, hits, IdPair)
      ensures 0 <= a < |segments| && 0 <= b < |segments| && intersects(segments[a], segments[b])
    {
      var m :| m in rows && IdPair(m) == (a, b);
      assert IsMatch(m, gdf, gdf, hits);
      var i :| 0 <= i < |gdf| && gdf[i] == m.left;
    }
  }

  /** `clean_facet`, steps 2 to 4: number the segments, self-join them in six
      chunks, drop the pairs with `id_left == id_right`, collect the distinct
      `id_left` values and keep the segments with those ids. The result is
      exactly the intended selection. */
  method CleanFacet<G(==)>(segments: seq<G>, intersects: (G, G) -> bool) returns (kept: seq<Numbered<G>>)
    ensures kept == TouchingSegments(segments, intersects)
    ensures |kept| <= |segments|
    ensures forall i :: 0 <= i < |segments| ==>
      (Numbered(i, segments[i]) in kept <==> exists j :: 0 <= j < |segments| && j != i && intersects(segments[i], segments[j]))
  {
    var gdf := AssignIds(segments);
    var pairs := SJoinMp(gdf, gdf, SelfHits(intersects), IdPair);
    var others := Select(pairs, (p: (int, int)) => p.0 != p.1);
    var ids := Dedupe(Project(others, (p: (int, int)) => p.0));
    kept := Select(gdf, (r: Numbered<G>) => r.id in ids);

    AssignIdsDistinct(segments);
    SelfJoinPairs(segments, intersects);
    ProjectExact(others, (p: (int, int)) => p.0);
    forall i | 0 <= i < |gdf|
      ensures (gdf[i].id in ids) == TouchesOther(gdf[i], segments, intersects)
    {
      if TouchesOther(gdf[i], segments, intersects) {
        var j :| 0 <= j < |segments| && j != i && intersects(segments[i], segments[j]);
        assert (i, j) in pairs;
        assert (i, j) in others;
        assert i in Project(others, (p: (int, int)) => p.0);
      }
    }
    SelectExt(gdf, (r: Numbered<G>) => r.id in ids, (r: Numbered<G>) => TouchesOther(r, segments, intersects));
  }

  /** A network of one segment is never connected: the segment meets only
      itself, and that pair does not count. */
  lemma LoneSegmentRemoved<G>(g: G, intersects: (G, G) -> bool)
    ensures TouchingSegments([g], intersects) == []
  {
  }

  /** Two segments that intersect each other are both kept. */
  lemma TouchingPairKept<G>(a: G, b: G, intersects: (G, G) -> bool)
    requires intersects(a, b) && intersects(b, a)
    ensures TouchingSegments([a, b], intersects) == [Numbered(0, a), Numbered(1, b)]
  {
    var gdf := AssignIds([a, b]);
    assert TouchesOther(gdf[0], [a, b], intersects) && TouchesOther(gdf[1], [a, b], intersects);
    SelectAll(gdf, (r: Numbered<G>) => TouchesOther(r, [a, b], intersects));
    assert gdf == [Numbered(0, a), Numbered(1, b)];
  }
}
