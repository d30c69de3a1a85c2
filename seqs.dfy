/** Sequence operations the table code is built from: boolean-mask selection,
    duplicate removal (first occurrence kept), column projection and
    concatenation of a list of tables. A table is a `seq` of its rows. */
module Seqs {

  /** The boolean-mask selection `s[keep(s)]`: the elements of `s` that satisfy
      `keep`, in their original order. */
  function Select<T>(s: seq<T>, keep: T -> bool): (r: seq<T>)
    ensures |r| <= |s|
    ensures forall i :: 0 <= i < |r| ==> r[i] in s && keep(r[i])
    ensures forall i :: 0 <= i < |s| && keep(s[i]) ==> s[i] in r
  {
    if s == [] then []
    else
      assert s == [s[0]] + s[1..];
      (if keep(s[0]) then [s[0]] else []) + Select(s[1..], keep)
  }

  /** Selection distributes over concatenation: it is decided row by row and
      keeps the relative order of the rows. */
  lemma {:induction false} SelectAppend<T>(a: seq<T>, b: seq<T>, keep: T -> bool)
    ensures Select(a + b, keep) == Select(a, keep) + Select(b, keep)
  {
    if a == [] {
      assert a + b == b;
    } else {
      assert (a + b)[0] == a[0];
      assert (a + b)[1..] == a[1..] + b;
      SelectAppend(a[1..], b, keep);
    }
  }

  /** Two masks that agree on every row of `s` select the same rows. */
  lemma {:induction false} SelectExt<T>(s: seq<T>, f: T -> bool, g: T -> bool)
    requires forall i :: 0 <= i < |s| ==> f(s[i]) == g(s[i])
    ensures Select(s, f) == Select(s, g)
  {
    if s != [] {
      SelectExt(s[1..], f, g);
    }
  }

  /** A mask that accepts every row keeps the whole table. */
  lemma {:induction false} SelectAll<T>(s: seq<T>, keep: T -> bool)
    requires forall i :: 0 <= i < |s| ==> keep(s[i])
    ensures Select(s, keep) == s
  {
    if s != [] {
      SelectAll(s[1..], keep);
    }
  }

  /** No element occurs twice. */
  predicate NoDup<T(==)>(s: seq<T>) {
    forall i, j :: 0 <= i < j < |s| ==> s[i] != s[j]
  }

  /** Duplicate removal keeping first occurrences, skipping everything in `seen`. */
  function DedupeFrom<T(==)>(s: seq<T>, seen: set<T>): (r: seq<T>)
    ensures |r| <= |s|
    ensures forall i :: 0 <= i < |r| ==> r[i] in s && r[i] !in seen
    ensures forall i :: 0 <= i < |s| && s[i] !in seen ==> s[i] in r
    ensures NoDup(r)
  {
    if s == [] then []
    else if s[0] in seen then DedupeFrom(s[1..], seen)
    else
      var rest := DedupeFrom(s[1..], seen + {s[0]});
      assert s[0] !in rest;
      [s[0]] + rest
  }

  /** `drop_duplicates`: every distinct row once, at its first occurrence. */
  function Dedupe<T(==)>(s: seq<T>): (r: seq<T>)
    ensures |r| <= |s|
    ensures forall i :: 0 <= i < |r| ==> r[i] in s
    ensures forall i :: 0 <= i < |s| ==> s[i] in r
    ensures NoDup(r)
  {
    DedupeFrom(s, {})
  }

  /** Rows already seen matter only if they occur in what is left to scan. */
  lemma {:induction false} DedupeFromSeen<T>(s: seq<T>, seen1: set<T>, seen2: set<T>)
    requires forall x :: x in s ==> (x in seen1 <==> x in seen2)
    ensures DedupeFrom(s, seen1) == DedupeFrom(s, seen2)
  {
    if s != [] {
      assert s[0] in s;
      assert forall x :: x in s[1..] ==> x in s;
      DedupeFromSeen(s[1..], seen1 + {s[0]}, seen2 + {s[0]});
      DedupeFromSeen(s[1..], seen1, seen2);
    }
  }

  /** Scanning `a + b` is scanning `a`, then `b` with the rows of `a` already seen. */
  lemma {:induction false} DedupeFromAppend<T>(a: seq<T>, b: seq<T>, seen: set<T>)
    ensures DedupeFrom(a + b, seen) == DedupeFrom(a, seen) + DedupeFrom(b, seen + (set x | x in a))
  {
    if a == [] {
      assert a + b == b;
      assert seen + (set x | x in a) == seen;
    } else {
      assert (a + b)[0] == a[0];
      assert (a + b)[1..] == a[1..] + b;
      var a1 := a[1..];
      if a[0] in seen {
        DedupeFromAppend(a1, b, seen);
        DedupeFromSeen(b, seen + (set x | x in a1), seen + (set x | x in a));
      } else {
        DedupeFromAppend(a1, b, seen + {a[0]});
        DedupeFromSeen(b, seen + {a[0]} + (set x | x in a1), seen + (set x | x in a));
      }
    }
  }

  /** When two tables share no row, duplicate removal over the concatenation is
      duplicate removal over each part. */
  lemma DedupeAppendDisjoint<T>(a: seq<T>, b: seq<T>)
    requires forall x :: x in a ==> x !in b
    ensures Dedupe(a + b) == Dedupe(a) + Dedupe(b)
  {
    DedupeFromAppend(a, b, {});
    DedupeFromSeen(b, {} + (set x | x in a), {});
  }

  /** Column projection: `f` applied to every row, order and length kept. */
  function Project<A, B>(s: seq<A>, f: A -> B): (r: seq<B>)
    ensures |r| == |s|
    ensures forall i :: 0 <= i < |s| ==> r[i] == f(s[i])
  {
    seq(|s|, i requires 0 <= i < |s| => f(s[i]))
  }

  lemma ProjectAppend<A, B>(a: seq<A>, b: seq<A>, f: A -> B)
    ensures Project(a + b, f) == Project(a, f) + Project(b, f)
  {
  }

  /** Total number of rows in a list of tables. */
  function TotalRows<T>(ts: seq<seq<T>>): nat {
    if ts == [] then 0 else |ts[0]| + TotalRows(ts[1..])
  }

  /** `pd.concat`: the tables of the list, one after the other. */
  function ConcatAll<T>(ts: seq<seq<T>>): (r: seq<T>)
    ensures |r| == TotalRows(ts)
  {
    if ts == [] then [] else ts[0] + ConcatAll(ts[1..])
  }

  lemma {:induction false} ConcatAllAppend<T>(a: seq<seq<T>>, b: seq<seq<T>>)
    ensures ConcatAll(a + b) == ConcatAll(a) + ConcatAll(b)
    ensures TotalRows(a + b) == TotalRows(a) + TotalRows(b)
  {
    if a == [] {
      assert a + b == b;
    } else {
      assert (a + b)[0] == a[0];
      assert (a + b)[1..] == a[1..] + b;
      ConcatAllAppend(a[1..], b);
    }
  }

  /** A table is kept by the collection loops only when it has a row. */
  predicate HasRows<T>(t: seq<T>) {
    |t| > 0
  }

  /** Dropping the empty tables from a list changes neither the concatenation
      nor the total row count. */
  lemma {:induction false} DropEmptyTables<T>(ts: seq<seq<T>>)
    ensures ConcatAll(Select(ts, HasRows)) == ConcatAll(ts)
    ensures TotalRows(Select(ts, HasRows)) == TotalRows(ts)
  {
    if ts != [] {
      DropEmptyTables(ts[1..]);
      var head: seq<seq<T>> := if HasRows(ts[0]) then [ts[0]] else [];
      ConcatAllAppend(head, Select(ts[1..], HasRows));
    }
  }
}
