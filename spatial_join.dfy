/** The chunked spatial join of `sjoin_mp` and `sjoin`: the left table is cut
    into six contiguous row ranges, each range is inner-joined against the
    whole right table, duplicate join rows are dropped, the requested columns
    are kept and the per-range results are concatenated in submission order.

    The geometry engine is abstract: geometries have the type parameter `G`
    and the predicate selected by `sjoin_op` is the function value `hits`,
    which sees a left geometry and a right row. */
module SpatialJoin {
  import opened Seqs

  /** A row carrying the synthetic integer `id` column next to its value. */
  datatype Numbered<T> = Numbered(id: int, val: T)

  /** One row produced by `gpd.sjoin(..., how='inner')`: the left row, the
      positional index of the matching right row (the `index_right` column)
      and the columns of that right row. */
  datatype Match<G, R> = Match(left: Numbered<G>, indexRight: nat, right: R)

  /** `[int(x) for x in range(len(t))]` stored as the `id` column. */
  function AssignIds<T>(t: seq<T>): (r: seq<Numbered<T>>)
    ensures |r| == |t|
    ensures forall i :: 0 <= i < |t| ==> r[i].id == i && r[i].val == t[i]
  {
    seq(|t|, i requires 0 <= i < |t| => Numbered(i, t[i]))
  }

  /** The ids assigned by `AssignIds` are distinct, so its rows are too. */
  lemma AssignIdsDistinct<T>(t: seq<T>)
    ensures NoDup(AssignIds(t))
  {
  }

  /** The column list `['id']` (named `id_left` when the right table also has an `id`). */
  function IdColumn<G, R>(m: Match<G, R>): int {
    m.left.id
  }

  /** The column list `['id_left', 'id_right']` of a self-join on id-numbered rows. */
  function IdPair<G, V>(m: Match<G, Numbered<V>>): (int, int) {
    (m.left.id, m.right.id)
  }

  // ---------------------------------------------------------------------------
  // The join of one chunk (`sjoin`)
  // ---------------------------------------------------------------------------

  /** The join rows of one left row: one per right row its geometry hits,
      in right-table order. */
  function RowMatches<G, R>(l: Numbered<G>, right: seq<R>, hits: (G, R) -> bool): seq<Match<G, R>> {
    Select(seq(|right|, j requires 0 <= j < |right| => Match(l, j, right[j])),
           (m: Match<G, R>) => hits(m.left.val, m.right))
  }

  /** The inner join before duplicate removal: every (left, right) pair that
      satisfies the predicate. The row order is the model's choice, not one
      `gpd.sjoin` promises: left rows in order, each left row's partners in
      right-table order. */
  function RawJoin<G, R>(left: seq<Numbered<G>>, right: seq<R>, hits: (G, R) -> bool): seq<Match<G, R>> {
    if left == [] then [] else RowMatches(left[0], right, hits) + RawJoin(left[1..], right, hits)
  }

  /** The join rows after `drop_duplicates`. */
  function JoinRows<G(==), R(==)>(left: seq<Numbered<G>>, right: seq<R>, hits: (G, R) -> bool): seq<Match<G, R>> {
    Dedupe(RawJoin(left, right, hits))
  }

  /** `sjoin`: inner join, duplicate removal, then projection to `cols`.
      `SJoinExact` states which values it holds. */
  function SJoin<G(==), R(==), T>(left: seq<Numbered<G>>, right: seq<R>, hits: (G, R) -> bool,
                                  cols: Match<G, R> -> T): seq<T> {
    Project(JoinRows(left, right, hits), cols)
  }

  /** `m` is a row an inner join of `left` and `right` must report. */
  ghost predicate IsMatch<G, R>(m: Match<G, R>, left: seq<Numbered<G>>, right: seq<R>, hits: (G, R) -> bool) {
    m.left in left && m.indexRight < |right| && m.right == right[m.indexRight] && hits(m.left.val, m.right)
  }

  /** The geometry `g` satisfies the predicate with at least one right row. */
  predicate HitsSome<G, R>(g: G, right: seq<R>, hits: (G, R) -> bool) {
    exists j :: 0 <= j < |right| && hits(g, right[j])
  }

  lemma RowMatchesExact<G, R>(l: Numbered<G>, right: seq<R>, hits: (G, R) -> bool)
    ensures forall m :: m in RowMatches(l, right, hits) <==>
      m.left == l && m.indexRight < |right| && m.right == right[m.indexRight] && hits(l.val, m.right)
  {
    var pairs := seq(|right|, j requires 0 <= j < |right| => Match(l, j, right[j]));
    var keep := (m: Match<G, R>) => hits(m.left.val, m.right);
    var r := Select(pairs, keep);
    forall m: Match<G, R> | m.left == l && m.indexRight < |right| && m.right == right[m.indexRight] && hits(l.val, m.right)
      ensures m in r
    {
      assert pairs[m.indexRight] == m;
    }
  }

  lemma {:induction false} RawJoinAppend<G, R>(a: seq<Numbered<G>>, b: seq<Numbered<G>>, right: seq<R>, hits: (G, R) -> bool)
    ensures RawJoin(a + b, right, hits) == RawJoin(a, right, hits) + RawJoin(b, right, hits)
  {
    if a == [] {
      assert a + b == b;
    } else {
      assert (a + b)[0] == a[0];
      assert (a + b)[1..] == a[1..] + b;
      RawJoinAppend(a[1..], b, right, hits);
    }
  }

  lemma {:induction false} RawJoinExact<G, R>(left: seq<Numbered<G>>, right: seq<R>, hits: (G, R) -> bool)
    ensures forall m :: m in RawJoin(left, right, hits) <==> IsMatch(m, left, right, hits)
  {
    if left != [] {
      RowMatchesExact(left[0], right, hits);
      RawJoinExact(left[1..], right, hits);
      assert left == [left[0]] + left[1..];
    }
  }

  /** The rows of one chunk's join are exactly the matching (left, right)
      pairs, and after `drop_duplicates` no row equals another. */
  lemma JoinRowsExact<G, R>(left: seq<Numbered<G>>, right: seq<R>, hits: (G, R) -> bool)
    ensures forall m :: m in JoinRows(left, right, hits) <==> IsMatch(m, left, right, hits)
    ensures NoDup(JoinRows(left, right, hits))
  {
    RawJoinExact(left, right, hits);
    var raw := RawJoin(left, right, hits);
    forall m | m in raw ensures m in Dedupe(raw) {
      var i :| 0 <= i < |raw| && raw[i] == m;
    }
  }

  lemma ProjectExact<A, B>(s: seq<A>, f: A -> B)
    ensures forall y :: y in Project(s, f) <==> exists x :: x in s && f(x) == y
  {
  }

  /** A value is in the result of `sjoin` exactly when it is the projection of
      a row the inner join must report: a left row and a right row, with its
      `index_right`, that satisfy the predicate. */
  lemma SJoinExact<G, R, T>(left: seq<Numbered<G>>, right: seq<R>, hits: (G, R) -> bool, cols: Match<G, R> -> T)
    ensures forall y :: y in SJoin(left, right, hits, cols) <==> exists m :: IsMatch(m, left, right, hits) && cols(m) == y
  {
    JoinRowsExact(left, right, hits);
    var rows := JoinRows(left, right, hits);
    ProjectExact(rows, cols);
    forall y | exists m :: IsMatch(m, left, right, hits) && cols(m) == y
      ensures y in SJoin(left, right, hits, cols)
    {
      var m :| IsMatch(m, left, right, hits) && cols(m) == y;
      assert m in rows;
    }
    forall y | y in SJoin(left, right, hits, cols)
      ensures exists m :: IsMatch(m, left, right, hits) && cols(m) == y
    {
      var m :| m in rows && cols(m) == y;
      assert IsMatch(m, left, right, hits);
    }
  }

  /** An id is in the `['id']` projection of a chunk's join exactly when some
      left row with that id satisfies the predicate with some right row. */
  lemma SJoinIds<G, R>(left: seq<Numbered<G>>, right: seq<R>, hits: (G, R) -> bool)
    ensures forall id :: id in SJoin(left, right, hits, IdColumn) <==>
      exists i :: 0 <= i < |left| && left[i].id == id && HitsSome(left[i].val, right, hits)
  {
    JoinRowsExact(left, right, hits);
    var rows := JoinRows(left, right, hits);
    ProjectExact(rows, IdColumn);
    forall id | exists i :: 0 <= i < |left| && left[i].id == id && HitsSome(left[i].val, right, hits)
      ensures id in SJoin(left, right, hits, IdColumn)
    {
      var i :| 0 <= i < |left| && left[i].id == id && HitsSome(left[i].val, right, hits);
      var j :| 0 <= j < |right| && hits(left[i].val, right[j]);
      assert IsMatch(Match(left[i], j, right[j]), left, right, hits);
      assert IdColumn(Match(left[i], j, right[j])) == id;
    }
    forall id | id in SJoin(left, right, hits, IdColumn)
      ensures exists i :: 0 <= i < |left| && left[i].id == id && HitsSome(left[i].val, right, hits)
    {
      var m :| m in rows && IdColumn(m) == id;
      var i :| 0 <= i < |left| && left[i] == m.left;
      assert hits(left[i].val, right[m.indexRight]);
    }
  }

  // ---------------------------------------------------------------------------
  // Partition independence
  // ---------------------------------------------------------------------------

  /** `pool.map(sjoin, chunk_iterator)`: one result per chunk, in submission order. */
  function PerChunk<G(==), R(==), T>(chunks: seq<seq<Numbered<G>>>, right: seq<R>, hits: (G, R) -> bool,
                                     cols: Match<G, R> -> T): (rs: seq<seq<T>>)
    ensures |rs| == |chunks|
    ensures forall k :: 0 <= k < |chunks| ==> rs[k] == SJoin(chunks[k], right, hits, cols)
  {
    seq(|chunks|, k requires 0 <= k < |chunks| => SJoin(chunks[k], right, hits, cols))
  }

  /** Joining two row-disjoint tables one after the other gives the join of
      their concatenation. */
  lemma SJoinAppend<G, R, T>(a: seq<Numbered<G>>, b: seq<Numbered<G>>, right: seq<R>,
                                     hits: (G, R) -> bool, cols: Match<G, R> -> T)
    requires forall x :: x in a ==> x !in b
    ensures SJoin(a + b, right, hits, cols) == SJoin(a, right, hits, cols) + SJoin(b, right, hits, cols)
  {
    RawJoinAppend(a, b, right, hits);
    RawJoinExact(a, right, hits);
    RawJoinExact(b, right, hits);
    forall m: Match<G, R> | m in RawJoin(a, right, hits) ensures m !in RawJoin(b, right, hits) {
      assert IsMatch(m, a, right, hits);
    }
    DedupeAppendDisjoint(RawJoin(a, right, hits), RawJoin(b, right, hits));
    ProjectAppend(JoinRows(a, right, hits), JoinRows(b, right, hits), cols);
  }

  /** Whatever the rows, the values in the join of a concatenation are those
      in the join of either part. */
  lemma SJoinAppendMembers<G, R, T>(a: seq<Numbered<G>>, b: seq<Numbered<G>>, right: seq<R>,
                                            hits: (G, R) -> bool, cols: Match<G, R> -> T)
    ensures forall y :: y in SJoin(a + b, right, hits, cols) <==>
      y in SJoin(a, right, hits, cols) || y in SJoin(b, right, hits, cols)
  {
    JoinRowsExact(a + b, right, hits);
    JoinRowsExact(a, right, hits);
    JoinRowsExact(b, right, hits);
    ProjectExact(JoinRows(a + b, right, hits), cols);
    ProjectExact(JoinRows(a, right, hits), cols);
    ProjectExact(JoinRows(b, right, hits), cols);
    var rab, ra, rb := JoinRows(a + b, right, hits), JoinRows(a, right, hits), JoinRows(b, right, hits);
    forall y | y in SJoin(a + b, right, hits, cols)
      ensures y in SJoin(a, right, hits, cols) || y in SJoin(b, right, hits, cols)
    {
      var m :| m in rab && cols(m) == y;
      assert IsMatch(m, a + b, right, hits);
      if m.left in a {
        assert IsMatch(m, a, right, hits);
      } else {
        assert IsMatch(m, b, right, hits);
      }
    }
    forall y | y in SJoin(a, right, hits, cols) || y in SJoin(b, right, hits, cols)
      ensures y in SJoin(a + b, right, hits, cols)
    {
      if y in SJoin(a, right, hits, cols) {
        var m :| m in ra && cols(m) == y;
        assert IsMatch(m, a, right, hits);
        assert IsMatch(m, a + b, right, hits);
      } else {
        var m :| m in rb && cols(m) == y;
        assert IsMatch(m, b, right, hits);
        assert IsMatch(m, a + b, right, hits);
      }
    }
  }

  /** Partition independence, as a sequence: for ANY split of a table without
      duplicate rows into consecutive chunks, the concatenated per-chunk joins
      are the join of the whole table as one chunk. */
  lemma {:induction false} PartitionIndependent<G, R, T>(chunks: seq<seq<Numbered<G>>>, right: seq<R>,
                                                                 hits: (G, R) -> bool, cols: Match<G, R> -> T)
    requires NoDup(ConcatAll(chunks))
    ensures ConcatAll(PerChunk(chunks, right, hits, cols)) == SJoin(ConcatAll(chunks), right, hits, cols)
  {
    if chunks == [] {
      assert RawJoin([], right, hits) == [];
    } else {
      var head, tail := chunks[0], ConcatAll(chunks[1..]);
      assert ConcatAll(chunks) == head + tail;
      forall x | x in head ensures x !in tail {
        var i :| 0 <= i < |head| && head[i] == x;
        forall j | 0 <= j < |tail| ensures tail[j] != x {
          assert (head + tail)[i] == x && (head + tail)[|head| + j] == tail[j];
        }
      }
      assert NoDup(tail) by {
        forall i, j | 0 <= i < j < |tail| ensures tail[i] != tail[j] {
          assert (head + tail)[|head| + i] == tail[i] && (head + tail)[|head| + j] == tail[j];
        }
      }
      PartitionIndependent(chunks[1..], right, hits, cols);
      assert PerChunk(chunks, right, hits, cols)[1..] == PerChunk(chunks[1..], right, hits, cols);
      SJoinAppend(head, tail, right, hits, cols);
    }
  }

  /** Partition independence, as a set: for ANY split into consecutive chunks,
      even of a table with repeated rows, the values in the concatenated
      per-chunk joins are those in the join of the whole table. */
  lemma {:induction false} PartitionIndependentMembers<G, R, T>(chunks: seq<seq<Numbered<G>>>, right: seq<R>,
                                                                        hits: (G, R) -> bool, cols: Match<G, R> -> T)
    ensures forall y :: y in ConcatAll(PerChunk(chunks, right, hits, cols)) <==> y in SJoin(ConcatAll(chunks), right, hits, cols)
  {
    if chunks == [] {
      assert RawJoin([], right, hits) == [];
    } else {
      PartitionIndependentMembers(chunks[1..], right, hits, cols);
      assert PerChunk(chunks, right, hits, cols)[1..] == PerChunk(chunks[1..], right, hits, cols);
      SJoinAppendMembers(chunks[0], ConcatAll(chunks[1..]), right, hits, cols);
    }
  }

  // ---------------------------------------------------------------------------
  // The six chunks of `sjoin_mp`
  // ---------------------------------------------------------------------------

  /** `NUM_CPUS`: the number of chunks and of pool workers. */
  const Workers: nat := 6

  /** `int(len(df1) / 6) + 1`: the floor of n/6 plus one, so never zero. */
  function BatchSize(n: nat): (bs: nat)
    ensures bs >= 1
    ensures Workers * bs > n
  {
    n / Workers + 1
  }

  function Min(a: nat, b: nat): nat {
    if a <= b then a else b
  }

  /** Python's slice `t[lo:hi]` for bounds `0 <= lo <= hi`: a bound past the end
      of the table stands for the end. */
  function Slice<T>(t: seq<T>, lo: nat, hi: nat): seq<T>
    requires lo <= hi
  {
    t[Min(lo, |t|)..Min(hi, |t|)]
  }

  /** The row where chunk `i` of a table of `n` rows starts, which is also the
      row where chunk `i - 1` ends. */
  function ChunkStart(i: nat, n: nat): nat {
    Min(i * BatchSize(n), n)
  }

  /** The six ranges `[ChunkStart(i), ChunkStart(i + 1))` start at row 0, end at
      row n, are in ascending order (so pairwise disjoint) and each holds at
      most `BatchSize(n)` rows. */
  lemma ChunkBounds(n: nat)
    ensures ChunkStart(0, n) == 0
    ensures ChunkStart(Workers, n) == n
    ensures forall i, j :: 0 <= i <= j ==> ChunkStart(i, n) <= ChunkStart(j, n)
    ensures forall i :: 0 <= i ==> ChunkStart(i + 1, n) - ChunkStart(i, n) <= BatchSize(n)
  {
  }

  /** With `floor(n/6) + 1` rather than the ceiling, a table of six rows is cut
      into three chunks of two rows and three empty chunks. */
  lemma SixRowsLeaveThreeEmptyChunks()
    ensures BatchSize(6) == 2
    ensures forall i :: 0 <= i < 3 ==> ChunkStart(i + 1, 6) - ChunkStart(i, 6) == 2
    ensures forall i :: 3 <= i < Workers ==> ChunkStart(i + 1, 6) == ChunkStart(i, 6)
  {
  }

  /** `floor(n/6) + 1` is the ceiling of n/6 unless 6 divides n, where it is
      one more than the ceiling. */
  lemma BatchSizeVersusCeiling(n: nat)
    ensures n % Workers != 0 ==> BatchSize(n) == (n + Workers - 1) / Workers
    ensures n % Workers == 0 ==> BatchSize(n) == (n + Workers - 1) / Workers + 1
  {
  }

  /** For `n = 6k` rows with `k >= 5`, the first five chunks hold `k + 1` rows
      and the last holds what is left, `k - 5` rows: it is empty only for
      `k = 5`, and for `k >= 6` no chunk is empty. */
  lemma MultipleOfSixChunks(k: nat)
    requires k >= 5
    ensures BatchSize(Workers * k) == k + 1
    ensures forall i :: 0 <= i < 5 ==> ChunkStart(i + 1, Workers * k) - ChunkStart(i, Workers * k) == k + 1
    ensures ChunkStart(Workers, Workers * k) - ChunkStart(5, Workers * k) == k - 5
  {
  }

  /** Chunk `i` is the slice `t[i*bs:(i+1)*bs]`, clamped to the table. */
  lemma ChunkIsSlice<T>(t: seq<T>, i: nat)
    ensures i * BatchSize(|t|) <= (i + 1) * BatchSize(|t|)
    ensures Slice(t, i * BatchSize(|t|), (i + 1) * BatchSize(|t|)) == t[ChunkStart(i, |t|)..ChunkStart(i + 1, |t|)]
  {
  }

  /** Appending chunk `i` to the first `i` chunks extends their concatenation. */
  lemma AppendChunk<T>(t: seq<T>, chunks: seq<seq<T>>, i: nat)
    requires ConcatAll(chunks) == t[..ChunkStart(i, |t|)]
    ensures ConcatAll(chunks + [t[ChunkStart(i, |t|)..ChunkStart(i + 1, |t|)]]) == t[..ChunkStart(i + 1, |t|)]
  {
    ChunkBounds(|t|);
    var chunk := t[ChunkStart(i, |t|)..ChunkStart(i + 1, |t|)];
    ConcatAllAppend(chunks, [chunk]);
    assert ConcatAll([chunk]) == chunk;
    assert t[..ChunkStart(i, |t|)] + chunk == t[..ChunkStart(i + 1, |t|)];
  }

  /** The `for` loop of `sjoin_mp` that builds `chunk_iterator`: chunk `i` is the
      slice `t[i*bs:(i+1)*bs]`. The chunks cover the table exactly once, in order. */
  method BuildChunks<T>(t: seq<T>) returns (chunks: seq<seq<T>>)
    ensures |chunks| == Workers
    ensures forall i :: 0 <= i < Workers ==> chunks[i] == t[ChunkStart(i, |t|)..ChunkStart(i + 1, |t|)]
    ensures forall i :: 0 <= i < Workers ==> |chunks[i]| <= BatchSize(|t|)
    ensures ConcatAll(chunks) == t
  {
    ChunkBounds(|t|);
    var batchSize := |t| / Workers + 1;
    assert batchSize == BatchSize(|t|);
    chunks := [];
    for i := 0 to Workers
      invariant |chunks| == i
      invariant forall k :: 0 <= k < i ==> chunks[k] == t[ChunkStart(k, |t|)..ChunkStart(k + 1, |t|)]
      invariant ConcatAll(chunks) == t[..ChunkStart(i, |t|)]
    {
      var mn, mx := i * batchSize, (i + 1) * batchSize;
      ChunkIsSlice(t, i);
      var chunk := Slice(t, mn, mx);
      assert chunk == t[ChunkStart(i, |t|)..ChunkStart(i + 1, |t|)];
      AppendChunk(t, chunks, i);
      chunks := chunks + [chunk];
    }
    assert t[..ChunkStart(Workers, |t|)] == t;
    forall i | 0 <= i < Workers ensures |chunks[i]| <= BatchSize(|t|) {
      assert ChunkStart(i, |t|) <= ChunkStart(i + 1, |t|);
    }
  }

  /** `sjoin_mp`: the table is cut into six chunks, each is joined against the
      whole right table (the pool's map, taken in submission order) and the
      results are concatenated. The values found are those of one join over
      the whole table; when the left rows are distinct, so is the very
      sequence. */
  method SJoinMp<G(==), R(==), T>(left: seq<Numbered<G>>, right: seq<R>, hits: (G, R) -> bool,
                                  cols: Match<G, R> -> T) returns (result: seq<T>)
    ensures forall y :: y in result <==> y in SJoin(left, right, hits, cols)
    ensures NoDup(left) ==> result == SJoin(left, right, hits, cols)
  {
    var chunks := BuildChunks(left);
    var results := PerChunk(chunks, right, hits, cols);
    result := ConcatAll(results);
    PartitionIndependentMembers(chunks, right, hits, cols);
    if NoDup(left) {
      PartitionIndependent(chunks, right, hits, cols);
    }
  }
}
