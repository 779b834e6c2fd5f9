/** A database table as the server routers use it: rows keyed by id. A Prisma `update`
    of a missing id throws; the routers run their updates one after the other, with no
    transaction, so the writes made before a failure stay. */
module Table {
  import opened Common
  import opened Lists

  predicate Distinct(ids: seq<Id>)
  {
    forall a, b :: 0 <= a < b < |ids| ==> ids[a] != ids[b]
  }

  /** The index of the first id with no row, or the length of the list. */
  function FirstMissing<R>(rows: map<Id, R>, ids: seq<Id>): (n: nat)
    ensures n <= |ids|
    ensures forall k :: 0 <= k < n ==> ids[k] in rows
    ensures n < |ids| ==> ids[n] !in rows
  {
    var k := FindIndex(ids, (id: Id) => id !in rows);
    if k < 0 then |ids| else k
  }

  /** The table after the first n of the updates "row ids[k] becomes write(row, k)",
      made in list order. */
  function Writes<R>(rows: map<Id, R>, ids: seq<Id>, write: (R, nat) -> R, n: nat): (out: map<Id, R>)
    requires n <= |ids|
    requires forall k :: 0 <= k < n ==> ids[k] in rows
    ensures out.Keys == rows.Keys
  {
    if n == 0 then rows
    else
      var w := Writes(rows, ids, write, n - 1);
      w[ids[n - 1] := write(w[ids[n - 1]], n - 1)]
  }

  /** The tRPC error codes the routers throw. */
  datatype Code = BadRequest | NotFound | Conflict | InternalServerError

  /** What a procedure answers: a value, or a thrown `TRPCError` with its code. */
  datatype Reply<T> = Ok(value: T) | Fail(code: Code)

  /** The outcome of a loop of updates: the table, and whether an update threw. */
  datatype Applied<R> = Applied(rows: map<Id, R>, failed: bool)

  /** The loop of single-row updates: it stops at the first missing id. */
  function UpdateAll<R>(rows: map<Id, R>, ids: seq<Id>, write: (R, nat) -> R): (a: Applied<R>)
    ensures a.rows.Keys == rows.Keys
    ensures a.failed <==> exists k :: 0 <= k < |ids| && ids[k] !in rows
  {
    var n := FirstMissing(rows, ids);
    Applied(Writes(rows, ids, write, n), n < |ids|)
  }

  /** `for (const key in list) await update({where: {id: list[key].id}, data: write(key)})`:
      the indices in increasing order, one awaited update each. */
  method UpdateEach<R>(rows: map<Id, R>, ids: seq<Id>, write: (R, nat) -> R) returns (out: map<Id, R>, failed: bool)
    ensures Applied(out, failed) == UpdateAll(rows, ids, write)
  {
    out := rows;
    var k := 0;
    while k < |ids|
      invariant 0 <= k <= |ids|
      invariant forall j :: 0 <= j < k ==> ids[j] in rows
      invariant out == Writes(rows, ids, write, k)
    {
      if ids[k] !in out {
        assert FirstMissing(rows, ids) == k;
        return out, true;
      }
      out := out[ids[k] := write(out[ids[k]], k)];
      k := k + 1;
    }
    assert FirstMissing(rows, ids) == |ids|;
    failed := false;
  }

  /** A projection of a row that every write leaves unchanged is unchanged after any
      number of writes: the way to say which fields a loop of updates leaves alone. */
  lemma {:induction false} WritesPreserve<R, K>(rows: map<Id, R>, ids: seq<Id>, write: (R, nat) -> R, n: nat, keep: R -> K)
    requires n <= |ids|
    requires forall k :: 0 <= k < n ==> ids[k] in rows
    requires forall r, k :: keep(write(r, k)) == keep(r)
    ensures forall id :: id in rows ==> keep(Writes(rows, ids, write, n)[id]) == keep(rows[id])
  {
    if n > 0 {
      WritesPreserve(rows, ids, write, n - 1, keep);
      var w := Writes(rows, ids, write, n - 1);
      KeepsOne(write, keep, w[ids[n - 1]], n - 1);
    }
  }

  lemma KeepsOne<R, K>(write: (R, nat) -> R, keep: R -> K, r: R, k: nat)
    requires forall r, k :: keep(write(r, k)) == keep(r)
    ensures keep(write(r, k)) == keep(r)
  {
  }

  /** The same for a whole loop of updates, whether or not it stopped early. */
  lemma UpdateAllPreserves<R, K>(rows: map<Id, R>, ids: seq<Id>, write: (R, nat) -> R, keep: R -> K)
    requires forall r, k :: keep(write(r, k)) == keep(r)
    ensures var out := UpdateAll(rows, ids, write).rows;
      out.Keys == rows.Keys && forall id :: id in rows ==> keep(out[id]) == keep(rows[id])
  {
    WritesPreserve(rows, ids, write, FirstMissing(rows, ids), keep);
  }

  /** With distinct ids, the k-th update is the only one that touches row ids[k], and
      rows not named are not touched. */
  lemma {:induction false} WritesDistinct<R>(rows: map<Id, R>, ids: seq<Id>, write: (R, nat) -> R, n: nat)
    requires n <= |ids| && Distinct(ids)
    requires forall k :: 0 <= k < n ==> ids[k] in rows
    ensures forall k :: 0 <= k < n ==> Writes(rows, ids, write, n)[ids[k]] == write(rows[ids[k]], k)
    ensures forall id :: id in rows && (forall k :: 0 <= k < n ==> ids[k] != id) ==> Writes(rows, ids, write, n)[id] == rows[id]
  {
    if n > 0 {
      WritesDistinct(rows, ids, write, n - 1);
    }
  }

  lemma ReverseDistinct(ids: seq<Id>)
    requires Distinct(ids)
    ensures Distinct(Reverse(ids))
  {
    ReverseElements(ids);
  }

  /** The "reverse, then assign the loop index" technique: when every id of a list of
      distinct ids has a row, the row at list index i gets index n-1-i, and no other
      row changes. */
  lemma ReindexReversed<R>(rows: map<Id, R>, ids: seq<Id>, write: (R, nat) -> R)
    requires Distinct(ids)
    requires forall k :: 0 <= k < |ids| ==> ids[k] in rows
    ensures var a := UpdateAll(rows, Reverse(ids), write);
      && !a.failed
      && a.rows.Keys == rows.Keys
      && (forall i :: 0 <= i < |ids| ==> a.rows[ids[i]] == write(rows[ids[i]], |ids| - 1 - i))
      && (forall id :: id in rows && id !in ids ==> a.rows[id] == rows[id])
  {
    var rev := Reverse(ids);
    var n := |ids|;
    ReverseElements(ids);
    ReverseDistinct(ids);
    assert forall k :: 0 <= k < n ==> rev[k] in rows by {
      forall k | 0 <= k < n ensures rev[k] in rows {
        assert rev[k] == ids[n - 1 - k];
      }
    }
    assert FirstMissing(rows, rev) == n;
    WritesDistinct(rows, rev, write, n);
    ReversedIndices(rows, ids, rev, write, Writes(rows, rev, write, n));
  }

  /** The index step of the technique: the row at list index i was written by update
      n-1-i of the reversed list, and a row named by neither list was not written. */
  lemma ReversedIndices<R>(rows: map<Id, R>, ids: seq<Id>, rev: seq<Id>, write: (R, nat) -> R, w: map<Id, R>)
    requires |rev| == |ids| && w.Keys == rows.Keys
    requires forall k :: 0 <= k < |ids| ==> ids[k] in rows
    requires forall k :: 0 <= k < |rev| ==> rev[k] == ids[|ids| - 1 - k]
    requires forall k :: 0 <= k < |rev| ==> rev[k] in rows && w[rev[k]] == write(rows[rev[k]], k)
    requires forall id :: id in rows && (forall k :: 0 <= k < |rev| ==> rev[k] != id) ==> w[id] == rows[id]
    ensures forall i :: 0 <= i < |ids| ==> w[ids[i]] == write(rows[ids[i]], |ids| - 1 - i)
    ensures forall id :: id in rows && id !in ids ==> w[id] == rows[id]
  {
    var n := |ids|;
    forall i | 0 <= i < n ensures w[ids[i]] == write(rows[ids[i]], n - 1 - i) {
      assert rev[n - 1 - i] == ids[i];
    }
    forall id | id in rows && id !in ids ensures w[id] == rows[id] {
      forall k | 0 <= k < n ensures rev[k] != id {
        assert rev[k] == ids[n - 1 - k];
      }
    }
  }

  /** Some row of the list has key value p. */
  predicate KeyTaken<R>(rows: map<Id, R>, ids: seq<Id>, key: R -> int, p: int)
  {
    exists i :: 0 <= i < |ids| && ids[i] in rows && key(rows[ids[i]]) == p
  }

  /** A database listing: every row the filter selects, once each, in the key's order
      (descending or ascending; rows with equal keys in any order). */
  ghost predicate IsListing<R>(rows: map<Id, R>, selected: R -> bool, key: R -> int, descending: bool, out: seq<Id>)
  {
    && Distinct(out)
    && (forall k :: 0 <= k < |out| ==> out[k] in rows && selected(rows[out[k]]))
    && (forall id {:trigger selected(rows[id])} :: id in rows && selected(rows[id]) ==> id in out)
    && (forall a, b :: 0 <= a < b < |out| ==>
          if descending then key(rows[out[a]]) >= key(rows[out[b]]) else key(rows[out[a]]) <= key(rows[out[b]]))
  }

  lemma {:induction false} DistinctCard(s: seq<Id>)
    requires Distinct(s)
    ensures |set x | x in s| == |s|
  {
    if s != [] {
      DistinctCard(s[1..]);
      assert (set x | x in s) == {s[0]} + (set x | x in s[1..]);
      assert s[0] !in (set x | x in s[1..]);
    }
  }

  /** Two lists of distinct ids that hold each other's ids have the same length. */
  lemma SameIdsSameLength(a: seq<Id>, b: seq<Id>)
    requires Distinct(a) && Distinct(b)
    requires forall k :: 0 <= k < |a| ==> a[k] in b
    requires forall k :: 0 <= k < |b| ==> b[k] in a
    ensures |a| == |b|
  {
    assert (set x | x in a) == (set x | x in b) by {
      forall x | x in a ensures x in b {
        var k :| 0 <= k < |a| && a[k] == x;
      }
      forall x | x in b ensures x in a {
        var k :| 0 <= k < |b| && b[k] == x;
      }
    }
    DistinctCard(a);
    DistinctCard(b);
  }

  /** When the keys of a list of distinct ids are n-1-i (what the reindex writes), the
      descending listing of exactly those rows is that list and no other order. */
  lemma ListingUnique<R>(rows: map<Id, R>, selected: R -> bool, key: R -> int, ids: seq<Id>, out: seq<Id>)
    requires Distinct(ids)
    requires forall i :: 0 <= i < |ids| ==> ids[i] in rows && key(rows[ids[i]]) == |ids| - 1 - i
    requires forall id :: id in rows ==> (selected(rows[id]) <==> id in ids)
    requires IsListing(rows, selected, key, true, out)
    ensures out == ids
  {
    var n := |ids|;
    ListedAreIds(rows, selected, key, ids, out);
    SameIdsSameLength(out, ids);
    var P := seq(n, k requires 0 <= k < n => key(rows[out[k]]));
    ListedKeys(rows, key, ids, out, P);
    StrictlyDecreasing(P, n);
    SameKeysSameIds(rows, key, ids, out, P);
  }

  /** The ids a listing holds are the list's ids, and the list's ids are all listed. */
  lemma ListedAreIds<R>(rows: map<Id, R>, selected: R -> bool, key: R -> int, ids: seq<Id>, out: seq<Id>)
    requires forall i :: 0 <= i < |ids| ==> ids[i] in rows
    requires forall id :: id in rows ==> (selected(rows[id]) <==> id in ids)
    requires IsListing(rows, selected, key, true, out)
    ensures forall k :: 0 <= k < |out| ==> out[k] in ids
    ensures forall i :: 0 <= i < |ids| ==> ids[i] in out
  {
    forall i | 0 <= i < |ids| ensures ids[i] in out {
      assert selected(rows[ids[i]]);
    }
  }

  /** A list whose k-th key is n-1-k, over rows whose list index i has key n-1-i, is that
      list. */
  lemma SameKeysSameIds<R>(rows: map<Id, R>, key: R -> int, ids: seq<Id>, out: seq<Id>, P: seq<int>)
    requires |out| == |ids| == |P|
    requires forall i :: 0 <= i < |ids| ==> ids[i] in rows && key(rows[ids[i]]) == |ids| - 1 - i
    requires forall k :: 0 <= k < |out| ==> out[k] in ids && out[k] in rows
    requires forall k :: 0 <= k < |P| ==> P[k] == key(rows[out[k]]) && P[k] == |P| - 1 - k
    ensures out == ids
  {
    var n := |ids|;
    forall k | 0 <= k < n ensures out[k] == ids[k] {
      var i :| 0 <= i < n && out[k] == ids[i];
      assert key(rows[out[k]]) == n - 1 - i;
      assert P[k] == n - 1 - k;
    }
  }

  lemma ListedKeys<R>(rows: map<Id, R>, key: R -> int, ids: seq<Id>, out: seq<Id>, P: seq<int>)
    requires Distinct(ids) && Distinct(out) && |out| == |ids| == |P|
    requires forall i :: 0 <= i < |ids| ==> ids[i] in rows && key(rows[ids[i]]) == |ids| - 1 - i
    requires forall k :: 0 <= k < |out| ==> out[k] in ids && P[k] == key(rows[out[k]])
    requires forall a, b :: 0 <= a < b < |out| ==> key(rows[out[a]]) >= key(rows[out[b]])
    ensures forall k :: 0 <= k < |P| ==> 0 <= P[k] < |P|
    ensures forall a, b :: 0 <= a < b < |P| ==> P[a] > P[b]
  {
    var n := |ids|;
    forall k | 0 <= k < n ensures 0 <= P[k] < n {
      var i :| 0 <= i < n && out[k] == ids[i];
    }
    forall a, b | 0 <= a < b < n ensures P[a] > P[b] {
      var i :| 0 <= i < n && out[a] == ids[i];
      var j :| 0 <= j < n && out[b] == ids[j];
      assert i != j;
    }
  }

  /** n values in 0..n-1, strictly decreasing, are n-1, n-2, …, 0. */
  lemma StrictlyDecreasing(P: seq<int>, n: nat)
    requires |P| == n
    requires forall k :: 0 <= k < n ==> 0 <= P[k] < n
    requires forall a, b :: 0 <= a < b < n ==> P[a] > P[b]
    ensures forall k :: 0 <= k < n ==> P[k] == n - 1 - k
  {
    forall k | 0 <= k < n ensures P[k] == n - 1 - k {
      LowerBound(P, n, k);
      UpperBound(P, n, k);
    }
  }

  lemma {:induction false} LowerBound(P: seq<int>, n: nat, k: nat)
    requires |P| == n && k < n
    requires forall j :: 0 <= j < n ==> 0 <= P[j] < n
    requires forall a, b :: 0 <= a < b < n ==> P[a] > P[b]
    ensures P[k] >= n - 1 - k
    decreases n - k
  {
    if k < n - 1 {
      LowerBound(P, n, k + 1);
    }
  }

  lemma {:induction false} UpperBound(P: seq<int>, n: nat, k: nat)
    requires |P| == n && k < n
    requires forall j :: 0 <= j < n ==> 0 <= P[j] < n
    requires forall a, b :: 0 <= a < b < n ==> P[a] > P[b]
    ensures P[k] <= n - 1 - k
  {
    if k > 0 {
      UpperBound(P, n, k - 1);
    }
  }
}
