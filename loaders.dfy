/** Option and Result, for a missing county file and for a merge with nothing to merge. */
module Wrappers {
  datatype Option<T> = None | Some(value: T)

  datatype Result<T, E> = Ok(value: T) | Err(error: E)
}

/** The per-county loaders of `get_lotic_and_reservoirs` and `getEstuaryMarine`,
    the county loops of `run_lotic` and `run_estuary`, and the merge of their
    results with `pd.concat`.

    A county's `water` layer is given as `Some(rows)`, or `None` when its file
    does not exist. Its rows are already restricted to `lu_code` (an integer)
    and the geometry. The acreage of a geometry (area / 4046.86) is the
    abstract function `acresOf`. */
module Loaders {
  import opened Seqs
  import opened Wrappers

  /** A row of a county's `water` layer: `lu_code` and `geometry`. */
  datatype Parcel<G> = Parcel(luCode: int, geom: G)

  /** A row of the lotic/reservoir table: `lu_code`, `acres` and `geometry`. */
  datatype Feature<G> = Feature(luCode: int, acres: real, geom: G)

  const EstuarineMarine: int := 1100
  const Reservoir: int := 1210
  const LoticWater: int := 1300

  /** The mask `gdf['lu_code'] == 1100`. */
  predicate IsEstuarineMarine<G>(p: Parcel<G>) {
    p.luCode == EstuarineMarine
  }

  /** The mask `gdf['lu_code'].isin([1300, 1210])`. */
  predicate IsLoticOrReservoir<G>(p: Parcel<G>) {
    p.luCode == LoticWater || p.luCode == Reservoir
  }

  /** The `acres` column computed for a row. */
  function WithAcres<G>(p: Parcel<G>, acresOf: G -> real): Feature<G> {
    Feature(p.luCode, acresOf(p.geom), p.geom)
  }

  /** The mask `(lu_code == 1210) | ((lu_code == 1300) & (acres >= threshold))`. */
  predicate PassesAreaRule<G>(f: Feature<G>, threshold: real) {
    f.luCode == Reservoir || (f.luCode == LoticWater && f.acres >= threshold)
  }

  /** `getEstuaryMarine`: the estuarine/marine rows of a county, none when its
      file is missing. */
  function GetEstuaryMarine<G>(water: Option<seq<Parcel<G>>>): (r: seq<Parcel<G>>)
    ensures water.None? ==> r == []
    ensures forall i :: 0 <= i < |r| ==> r[i].luCode == EstuarineMarine && water.Some? && r[i] in water.value
    ensures water.Some? ==> forall j :: 0 <= j < |water.value| && water.value[j].luCode == EstuarineMarine ==>
      water.value[j] in r
  {
    match water
    case None => []
    case Some(rows) => Select(rows, IsEstuarineMarine)
  }

  /** `get_lotic_and_reservoirs`: keep the lotic (1300) and reservoir (1210)
      rows, add `acres`, then drop lotic rows under the threshold. */
  function GetLoticAndReservoirs<G>(water: Option<seq<Parcel<G>>>, threshold: real, acresOf: G -> real): (r: seq<Feature<G>>)
    ensures water.None? ==> r == []
    ensures forall i :: 0 <= i < |r| ==> r[i].luCode == LoticWater || r[i].luCode == Reservoir
    ensures forall i :: 0 <= i < |r| && r[i].luCode == LoticWater ==> r[i].acres >= threshold
    ensures forall i :: 0 <= i < |r| ==>
      r[i].acres == acresOf(r[i].geom) && water.Some? && Parcel(r[i].luCode, r[i].geom) in water.value
    ensures water.Some? ==> forall j :: 0 <= j < |water.value| ==>
      (PassesAreaRule(WithAcres(water.value[j], acresOf), threshold) ==> WithAcres(water.value[j], acresOf) in r)
  {
    match water
    case None => []
    case Some(rows) =>
      var coded := Select(rows, IsLoticOrReservoir);
      var measured := Project(coded, (p: Parcel<G>) => WithAcres(p, acresOf));
      var r := Select(measured, (f: Feature<G>) => PassesAreaRule(f, threshold));
      assert forall i :: 0 <= i < |r| ==> r[i] in measured;
      assert forall j :: 0 <= j < |rows| && PassesAreaRule(WithAcres(rows[j], acresOf), threshold) ==>
        rows[j] in coded;
      assert forall p :: p in coded ==> WithAcres(p, acresOf) in measured by {
        forall p | p in coded ensures WithAcres(p, acresOf) in measured {
          var k :| 0 <= k < |coded| && coded[k] == p;
          assert measured[k] == WithAcres(p, acresOf);
        }
      }
      r
  }

  lemma SelectSingleton<T>(x: T, keep: T -> bool)
    ensures Select([x], keep) == if keep(x) then [x] else []
  {
  }

  /** A pre-selection that some later mask already implies can be left out. */
  lemma {:induction false} RedundantPreselection<A, B>(s: seq<A>, p: A -> bool, f: A -> B, q: B -> bool)
    requires forall i :: 0 <= i < |s| && q(f(s[i])) ==> p(s[i])
    ensures Select(Project(Select(s, p), f), q) == Select(Project(s, f), q)
  {
    if s != [] {
      var head, tail := s[..1], s[1..];
      assert s == head + tail;
      RedundantPreselection(tail, p, f, q);
      SelectAppend(head, tail, p);
      ProjectAppend(Select(head, p), Select(tail, p), f);
      SelectAppend(Project(Select(head, p), f), Project(Select(tail, p), f), q);
      ProjectAppend(head, tail, f);
      SelectAppend(Project(head, f), Project(tail, f), q);
      SelectSingleton(s[0], p);
      assert Project(head, f) == [f(s[0])];
      SelectSingleton(f(s[0]), q);
      if !p(s[0]) {
        assert Project(Select(head, p), f) == [];
      }
    }
  }

  /** The lotic loader selects, in their original order, exactly the rows the
      single rule "reservoir, or lotic water of at least `threshold` acres"
      accepts: the `isin` selection before it removes nothing more. So a lotic
      row of exactly `threshold` acres is kept, one below it is not, and a
      reservoir is kept whatever its size. */
  lemma LoticRule<G>(rows: seq<Parcel<G>>, threshold: real, acresOf: G -> real)
    ensures GetLoticAndReservoirs(Some(rows), threshold, acresOf) ==
      Select(Project(rows, (p: Parcel<G>) => WithAcres(p, acresOf)), (f: Feature<G>) => PassesAreaRule(f, threshold))
  {
    RedundantPreselection(rows, IsLoticOrReservoir, (p: Parcel<G>) => WithAcres(p, acresOf),
                          (f: Feature<G>) => PassesAreaRule(f, threshold));
  }

  /** One row on its own: a reservoir is kept whatever its acreage, a lotic
      row is kept exactly when its acreage reaches the threshold (inclusive),
      and any other code is dropped. */
  lemma AreaThreshold<G>(p: Parcel<G>, threshold: real, acresOf: G -> real)
    ensures GetLoticAndReservoirs(Some([p]), threshold, acresOf) ==
      if p.luCode == Reservoir || (p.luCode == LoticWater && acresOf(p.geom) >= threshold)
      then [Feature(p.luCode, acresOf(p.geom), p.geom)]
      else []
  {
  }

  /** The tables the loader produces for the listed counties, in list order. */
  function Loads<T>(counties: seq<string>, load: string -> seq<T>): (ts: seq<seq<T>>)
    ensures |ts| == |counties|
    ensures forall k :: 0 <= k < |counties| ==> ts[k] == load(counties[k])
  {
    Project(counties, load)
  }

  /** The county loop of `run_lotic` and `run_estuary`: the table of each county
      is appended only when it has at least one row. The list holds no empty
      table, and its rows are all the rows loaded, in county order. */
  method CollectNonEmpty<T>(counties: seq<string>, load: string -> seq<T>) returns (tables: seq<seq<T>>)
    ensures tables == Select(Loads(counties, load), HasRows)
    ensures forall k :: 0 <= k < |tables| ==> |tables[k]| > 0
    ensures ConcatAll(tables) == ConcatAll(Loads(counties, load))
    ensures TotalRows(tables) == TotalRows(Loads(counties, load))
    ensures tables == [] <==> forall k :: 0 <= k < |counties| ==> load(counties[k]) == []
  {
    tables := [];
    for i := 0 to |counties|
      invariant tables == Select(Loads(counties[..i], load), HasRows)
    {
      var tmp := load(counties[i]);
      assert counties[..i + 1] == counties[..i] + [counties[i]];
      ProjectAppend(counties[..i], [counties[i]], load);
      assert Loads([counties[i]], load) == [tmp];
      SelectAppend(Loads(counties[..i], load), [tmp], HasRows);
      SelectSingleton(tmp, HasRows);
      if |tmp| > 0 {
        tables := tables + [tmp];
      }
    }
    assert counties[..|counties|] == counties;
    DropEmptyTables(Loads(counties, load));
    var loads := Loads(counties, load);
    if exists k :: 0 <= k < |counties| && load(counties[k]) != [] {
      var k :| 0 <= k < |counties| && load(counties[k]) != [];
      assert HasRows(loads[k]);
    }
  }

  datatype MergeError = EmptyMergeSet

  /** `pd.concat(tables)`: one table of all rows; concatenating no table at all
      is an error. */
  function Merge<T>(tables: seq<seq<T>>): (r: Result<seq<T>, MergeError>)
    ensures r.Err? <==> tables == []
    ensures r.Ok? ==> |r.value| == TotalRows(tables)
  {
    if tables == [] then Err(EmptyMergeSet) else Ok(ConcatAll(tables))
  }
}
