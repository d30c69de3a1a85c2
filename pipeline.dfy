/** The two county-merging stages, `Lotic.run_lotic` and `Estuary.run_estuary`,
    without their file reads and writes: a county's `water` layer comes from
    the function `water` (None when the county has no file) and the merged
    table is returned instead of written. */
module Pipeline {
  import opened Seqs
  import opened Wrappers
  import opened SpatialJoin
  import opened Loaders
  import opened Connectivity

  /** The counties on the Delaware Bay or the Atlantic that `run_estuary` reads. */
  const EstuaryCounties: seq<string> :=
    ["acco_51001", "kent_10001", "newc_10003", "nort_51131", "suss_10005", "virg_51810", "worc_24047"]

  /** The per-county loader of `run_estuary`. */
  function EstuaryLoader<G>(water: string -> Option<seq<Parcel<G>>>): string -> seq<Parcel<G>> {
    (county: string) => GetEstuaryMarine(water(county))
  }

  /** The per-county loader of `run_lotic`. */
  function LoticLoader<G>(water: string -> Option<seq<Parcel<G>>>, threshold: real, acresOf: G -> real): string -> seq<Feature<G>> {
    (county: string) => GetLoticAndReservoirs(water(county), threshold, acresOf)
  }

  /** `run_estuary`: the estuarine/marine rows of the listed counties, county
      by county; the merge fails when no county has one. */
  method RunEstuary<G>(water: string -> Option<seq<Parcel<G>>>) returns (r: Result<seq<Parcel<G>>, MergeError>)
    ensures r.Err? <==> forall k :: 0 <= k < |EstuaryCounties| ==> GetEstuaryMarine(water(EstuaryCounties[k])) == []
    ensures r.Ok? ==> r.value == ConcatAll(Loads(EstuaryCounties, EstuaryLoader(water)))
    ensures r.Ok? ==> |r.value| == TotalRows(Loads(EstuaryCounties, EstuaryLoader(water)))
  {
    var estList := CollectNonEmpty(EstuaryCounties, EstuaryLoader(water));
    r := Merge(estList);
  }

  /** `run_lotic`: the lotic and reservoir rows of every county, merged, then
      reduced to the rows that intersect the stream network. The merge fails
      when no county has such a row. */
  method RunLotic<G(==)>(counties: seq<string>, water: string -> Option<seq<Parcel<G>>>, threshold: real,
                         acresOf: G -> real, network: seq<G>, intersects: (G, G) -> bool)
      returns (r: Result<seq<Numbered<Feature<G>>>, MergeError>)
    ensures r.Err? <==> forall k :: 0 <= k < |counties| ==>
      GetLoticAndReservoirs(water(counties[k]), threshold, acresOf) == []
    ensures r.Ok? ==>
      r.value == ConnectedFeatures(ConcatAll(Loads(counties, LoticLoader(water, threshold, acresOf))), network, intersects)
  {
    var loticList := CollectNonEmpty(counties, LoticLoader(water, threshold, acresOf));
    var merged := Merge(loticList);
    match merged
    case Err(e) =>
      r := Err(e);
    case Ok(loticTable) =>
      var kept := RemoveDisconnectedFeatures(loticTable, network, intersects);
      r := Ok(kept);
  }
}
