/** The ordered-list primitives the client and server code is built from, with the
    semantics JavaScript gives them: `Array.prototype.splice` for a single removal or
    insertion at a non-negative index, `reverse`, `findIndex`, `filter` and a stable
    `sort` by a numeric key. */
module Lists {

  /** `xs.splice(i, 1)` with a non-negative start: takes out the element at i, or
      nothing when i is at or past the end. */
  function Remove<T>(s: seq<T>, i: nat): (r: seq<T>)
    ensures i < |s| ==> |r| == |s| - 1
    ensures i >= |s| ==> r == s
    ensures forall k :: 0 <= k < i && k < |r| ==> r[k] == s[k]
    ensures forall k :: i <= k < |r| ==> r[k] == s[k + 1]
  {
    if i < |s| then s[..i] + s[i + 1..] else s
  }

  /** Where `xs.splice(j, 0, x)` puts x in a list of length n: a start past the end appends. */
  function Clamp(j: nat, n: nat): (k: nat)
    ensures k <= n
    ensures j <= n ==> k == j
    ensures j > n ==> k == n
  {
    if j <= n then j else n
  }

  /** `xs.splice(j, 0, x)` with a non-negative start. */
  function Insert<T>(s: seq<T>, j: nat, x: T): (r: seq<T>)
    ensures |r| == |s| + 1
    ensures r[Clamp(j, |s|)] == x
    ensures forall k :: 0 <= k < Clamp(j, |s|) ==> r[k] == s[k]
    ensures forall k :: Clamp(j, |s|) < k < |r| ==> r[k] == s[k - 1]
  {
    var k := Clamp(j, |s|);
    s[..k] + [x] + s[k..]
  }

  /** The drag-and-drop "splice move": take the element at i out, then insert it at j
      in the shortened list. */
  function Move<T>(s: seq<T>, i: nat, j: nat): (r: seq<T>)
    requires i < |s|
    ensures |r| == |s|
    ensures r[Landing(j, |s|)] == s[i]
  {
    Insert(Remove(s, i), j, s[i])
  }

  /** `const [removed] = xs.splice(i, 1)` followed by putting `removed` back at j (the
      Kanban handler guards with `if (removed)` or spreads the removed array): a splice
      move, or no change when i is past the end. */
  function SpliceMove<T>(s: seq<T>, i: nat, j: nat): (r: seq<T>)
    ensures |r| == |s|
    ensures i >= |s| ==> r == s
    ensures i < |s| ==> r[Landing(j, |s|)] == s[i]
  {
    if i < |s| then Move(s, i, j) else s
  }

  /** Where the moved element ends up: at j, or last when j is past the end. */
  function Landing(j: nat, n: nat): nat
    requires n > 0
  {
    Clamp(j, n - 1)
  }

  lemma MultisetRemove<T>(s: seq<T>, i: nat)
    requires i < |s|
    ensures multiset(Remove(s, i)) + multiset{s[i]} == multiset(s)
  {
    assert s == s[..i] + [s[i]] + s[i + 1..];
  }

  lemma MultisetInsert<T>(s: seq<T>, j: nat, x: T)
    ensures multiset(Insert(s, j, x)) == multiset(s) + multiset{x}
  {
    var k := Clamp(j, |s|);
    assert s == s[..k] + s[k..];
  }

  /** A splice move keeps the length, keeps every element with its multiplicity, and
      puts the moved element at the destination index. */
  lemma MoveIsPermutation<T>(s: seq<T>, i: nat, j: nat)
    requires i < |s|
    ensures |Move(s, i, j)| == |s|
    ensures multiset(Move(s, i, j)) == multiset(s)
    ensures Move(s, i, j)[Landing(j, |s|)] == s[i]
  {
    MultisetRemove(s, i);
    MultisetInsert(Remove(s, i), j, s[i]);
  }

  lemma RemoveInsert<T>(s: seq<T>, j: nat, x: T)
    ensures Remove(Insert(s, j, x), Clamp(j, |s|)) == s
  {
    var r := Remove(Insert(s, j, x), Clamp(j, |s|));
    assert |r| == |s|;
    forall k | 0 <= k < |s| ensures r[k] == s[k] {
    }
  }

  /** The elements that did not move keep their relative order: taking the moved
      element out again gives the list with it taken out at the source. */
  lemma MoveKeepsOthersInOrder<T>(s: seq<T>, i: nat, j: nat)
    requires i < |s|
    ensures Remove(Move(s, i, j), Landing(j, |s|)) == Remove(s, i)
  {
    RemoveInsert(Remove(s, i), j, s[i]);
  }

  /** A move to the same index changes nothing. */
  lemma MoveToSameIndex<T>(s: seq<T>, i: nat)
    requires i < |s|
    ensures Move(s, i, i) == s
  {
    var r := Move(s, i, i);
    assert |r| == |s|;
    forall k | 0 <= k < |s| ensures r[k] == s[k] {
    }
  }

  /** Moving the element back from where it landed restores the list exactly. */
  lemma MoveBack<T>(s: seq<T>, i: nat, j: nat)
    requires i < |s| && j < |s|
    ensures Move(Move(s, i, j), j, i) == s
  {
    var m := Move(s, i, j);
    MoveIsPermutation(s, i, j);
    assert Landing(j, |s|) == j;
    MoveKeepsOthersInOrder(s, i, j);
    assert Move(m, j, i) == Insert(Remove(s, i), i, s[i]);
    InsertRemove(s, i);
  }

  /** Putting an element back where it was taken out restores the list. */
  lemma InsertRemove<T>(s: seq<T>, i: nat)
    requires i < |s|
    ensures Insert(Remove(s, i), i, s[i]) == s
  {
    var r := Insert(Remove(s, i), i, s[i]);
    forall k | 0 <= k < |s| ensures r[k] == s[k] {
    }
  }

  /** An example: [A, B, C, D] with index 0 moved to index 2. */
  lemma MoveExample()
    ensures Move(['A', 'B', 'C', 'D'], 0, 2) == ['B', 'C', 'A', 'D']
  {
    assert Remove(['A', 'B', 'C', 'D'], 0) == ['B', 'C', 'D'];
  }

  /** `xs.reverse()`. */
  function Reverse<T>(s: seq<T>): (r: seq<T>)
    ensures |r| == |s|
  {
    if s == [] then [] else Reverse(s[1..]) + [s[0]]
  }

  lemma {:induction false} ReverseAt<T>(s: seq<T>, k: nat)
    requires k < |s|
    ensures Reverse(s)[k] == s[|s| - 1 - k]
  {
    if k < |s| - 1 {
      ReverseAt(s[1..], k);
    }
  }

  lemma ReverseElements<T>(s: seq<T>)
    ensures forall k :: 0 <= k < |s| ==> Reverse(s)[k] == s[|s| - 1 - k]
  {
    forall k | 0 <= k < |s| ensures Reverse(s)[k] == s[|s| - 1 - k] {
      ReverseAt(s, k);
    }
  }

  /** `xs.findIndex(p)`: the first index whose element satisfies p, or -1. */
  function FindIndex<T>(s: seq<T>, p: T -> bool): (r: int)
    ensures -1 <= r < |s|
    ensures 0 <= r ==> p(s[r])
    ensures 0 <= r ==> forall k :: 0 <= k < r ==> !p(s[k])
    ensures r == -1 <==> forall k :: 0 <= k < |s| ==> !p(s[k])
  {
    if s == [] then -1
    else if p(s[0]) then 0
    else
      var r := FindIndex(s[1..], p);
      if r == -1 then -1 else r + 1
  }

  /** r is s with some of its elements left out and the others in their order. */
  ghost predicate Subsequence<T>(r: seq<T>, s: seq<T>)
    decreases |s|
  {
    if r == [] then true
    else if s == [] then false
    else (r[0] == s[0] && Subsequence(r[1..], s[1..])) || Subsequence(r, s[1..])
  }

  /** `xs.filter(p)`: the elements satisfying p, each as often as in xs, in their order
      in xs; the first of them is the one `findIndex(p)` finds. */
  function Filter<T(!new)>(s: seq<T>, p: T -> bool): (r: seq<T>)
    ensures |r| <= |s|
    ensures forall k :: 0 <= k < |r| ==> r[k] in s && p(r[k])
    ensures forall k :: 0 <= k < |s| && p(s[k]) ==> s[k] in r
    ensures forall x :: multiset(r)[x] == if p(x) then multiset(s)[x] else 0
    ensures Subsequence(r, s)
  {
    if s == [] then []
    else
      var rest := Filter(s[1..], p);
      FilterCons(s, p, rest);
      if p(s[0]) then [s[0]] + rest else rest
  }

  /** One step of the filter: what holds of the filtered tail holds of the whole list
      once its head is kept or dropped. */
  lemma FilterCons<T(!new)>(s: seq<T>, p: T -> bool, rest: seq<T>)
    requires s != []
    requires |rest| <= |s[1..]|
    requires forall k :: 0 <= k < |rest| ==> rest[k] in s[1..] && p(rest[k])
    requires forall k :: 0 <= k < |s[1..]| && p(s[1..][k]) ==> s[1..][k] in rest
    requires forall x :: multiset(rest)[x] == if p(x) then multiset(s[1..])[x] else 0
    requires Subsequence(rest, s[1..])
    ensures var r := if p(s[0]) then [s[0]] + rest else rest;
      && |r| <= |s|
      && (forall k :: 0 <= k < |r| ==> r[k] in s && p(r[k]))
      && (forall k :: 0 <= k < |s| && p(s[k]) ==> s[k] in r)
      && (forall x :: multiset(r)[x] == if p(x) then multiset(s)[x] else 0)
      && Subsequence(r, s)
  {
    assert s == [s[0]] + s[1..];
    var r := if p(s[0]) then [s[0]] + rest else rest;
    forall k | 0 <= k < |s| && p(s[k]) ensures s[k] in r {
      if k > 0 {
        assert s[k] == s[1..][k - 1];
      }
    }
    if p(s[0]) {
      assert r[0] == s[0] && r[1..] == rest;
    }
  }

  /** The first element kept is the first one `findIndex(p)` finds. */
  lemma {:induction false} FilterHead<T(!new)>(s: seq<T>, p: T -> bool)
    ensures Filter(s, p) != [] ==> Filter(s, p)[0] == s[FindIndex(s, p)]
  {
    if s != [] && !p(s[0]) {
      FilterHead(s[1..], p);
    }
  }

  /** Filtering a concatenation filters each part. */
  lemma {:induction false} FilterAppend<T(!new)>(s: seq<T>, t: seq<T>, p: T -> bool)
    ensures Filter(s + t, p) == Filter(s, p) + Filter(t, p)
  {
    var u := s + t;
    if s == [] {
      assert u == t && Filter(s, p) == [];
      assert Filter(s, p) + Filter(t, p) == Filter(t, p);
    } else {
      FilterAppend(s[1..], t, p);
      TailAppend(s, t);
      FilterUnfold(u, p);
      FilterUnfold(s, p);
      if p(s[0]) {
        ConsAppend(s[0], Filter(s[1..], p), Filter(t, p));
      }
    }
  }

  lemma FilterUnfold<T(!new)>(s: seq<T>, p: T -> bool)
    requires s != []
    ensures Filter(s, p) == if p(s[0]) then [s[0]] + Filter(s[1..], p) else Filter(s[1..], p)
  {
  }

  lemma TailAppend<T>(s: seq<T>, t: seq<T>)
    requires s != []
    ensures (s + t)[0] == s[0] && (s + t)[1..] == s[1..] + t
  {
  }

  lemma ConsAppend<T>(x: T, a: seq<T>, b: seq<T>)
    ensures [x] + (a + b) == ([x] + a) + b
  {
  }

  lemma {:induction false} SubsequenceRefl<T>(s: seq<T>)
    ensures Subsequence(s, s)
  {
    if s != [] {
      SubsequenceRefl(s[1..]);
    }
  }

  lemma {:induction false} SubsequenceMultiset<T>(r: seq<T>, s: seq<T>)
    requires Subsequence(r, s)
    ensures multiset(r) <= multiset(s)
    decreases |s|
  {
    if r != [] {
      assert s == [s[0]] + s[1..];
      if r[0] == s[0] && Subsequence(r[1..], s[1..]) {
        SubsequenceMultiset(r[1..], s[1..]);
        assert r == [r[0]] + r[1..];
      } else {
        SubsequenceMultiset(r, s[1..]);
      }
    }
  }

  /** The filter is the only subsequence of xs that keeps every element satisfying p,
      as often as xs holds it, and no other element. */
  lemma {:induction false} FilterUnique<T(!new)>(r: seq<T>, s: seq<T>, p: T -> bool)
    requires Subsequence(r, s)
    requires forall x :: multiset(r)[x] == if p(x) then multiset(s)[x] else 0
    ensures r == Filter(s, p)
    decreases |s|
  {
    if s != [] {
      assert s == [s[0]] + s[1..];
      if r != [] && r[0] == s[0] && Subsequence(r[1..], s[1..]) {
        assert r == [r[0]] + r[1..];
        assert p(s[0]) by {
          assert multiset(r)[s[0]] > 0;
        }
        forall x ensures multiset(r[1..])[x] == if p(x) then multiset(s[1..])[x] else 0 {
        }
        FilterUnique(r[1..], s[1..], p);
      } else {
        assert Subsequence(r, s[1..]);
        SubsequenceMultiset(r, s[1..]);
        assert !p(s[0]) by {
          assert multiset(s)[s[0]] == multiset(s[1..])[s[0]] + 1;
        }
        forall x ensures multiset(r)[x] == if p(x) then multiset(s[1..])[x] else 0 {
        }
        FilterUnique(r, s[1..], p);
      }
    }
  }

  ghost predicate SortedBy<T>(s: seq<T>, key: T -> int)
  {
    forall a, b :: 0 <= a < b < |s| ==> key(s[a]) <= key(s[b])
  }

  lemma SortedCons<T>(h: T, t: seq<T>, key: T -> int)
    requires SortedBy(t, key)
    requires forall k :: 0 <= k < |t| ==> key(h) <= key(t[k])
    ensures SortedBy([h] + t, key)
  {
    var r := [h] + t;
    forall a, b | 0 <= a < b < |r| ensures key(r[a]) <= key(r[b]) {
      if a > 0 {
        assert r[a] == t[a - 1] && r[b] == t[b - 1];
      }
    }
  }

  /** Inserts x before the first element whose key is not smaller, which keeps a sort
      built from it stable. */
  function InsertByKey<T>(x: T, s: seq<T>, key: T -> int): (r: seq<T>)
    requires SortedBy(s, key)
    ensures SortedBy(r, key)
    ensures multiset(r) == multiset(s) + multiset{x}
  {
    if s == [] || key(x) <= key(s[0]) then
      SortedCons(x, s, key);
      [x] + s
    else
      var t := InsertByKey(x, s[1..], key);
      assert s == [s[0]] + s[1..];
      forall k | 0 <= k < |t| ensures key(s[0]) <= key(t[k]) {
        assert t[k] in multiset(t);
        if t[k] != x {
          assert t[k] in multiset(s[1..]);
          SortedHeadLeast(s, key, t[k]);
        }
      }
      SortedCons(s[0], t, key);
      [s[0]] + t
  }

  lemma SortedHeadLeast<T>(s: seq<T>, key: T -> int, y: T)
    requires SortedBy(s, key)
    requires s != [] && y in s[1..]
    ensures key(s[0]) <= key(y)
  {
    var m :| 0 <= m < |s[1..]| && s[1..][m] == y;
    assert s[m + 1] == y;
  }

  /** `xs.sort((a, b) => key(a) - key(b))`: ascending by key, stable. */
  function SortByKey<T>(s: seq<T>, key: T -> int): (r: seq<T>)
    ensures SortedBy(r, key)
    ensures multiset(r) == multiset(s)
  {
    if s == [] then []
    else
      assert s == [s[0]] + s[1..];
      InsertByKey(s[0], SortByKey(s[1..], key), key)
  }

  /** `xs.splice(i, 1); xs.splice(j, 0, removed)` on the array itself, for a list whose
      length the move does not change. */
  method MoveInPlace<T>(a: array<T>, i: nat, j: nat)
    requires i < a.Length
    modifies a
    ensures a[..] == Move(old(a[..]), i, j)
  {
    ghost var s := a[..];
    var k := Clamp(j, a.Length - 1);
    var x := a[i];
    if i < k {
      ShiftDown(a, i, k);
    } else {
      ShiftUp(a, k, i);
    }
    a[k] := x;
    MoveShape(s, i, j);
    assert a[..] == Move(s, i, j) by {
      forall q | 0 <= q < a.Length ensures a[q] == Move(s, i, j)[q] {
      }
    }
  }

  /** Moves a[lo+1..hi+1] one place down, over a[lo]; a[hi] keeps its value. */
  method ShiftDown<T>(a: array<T>, lo: nat, hi: nat)
    requires lo <= hi < a.Length
    modifies a
    ensures forall q :: 0 <= q < a.Length && (q < lo || hi <= q) ==> a[q] == old(a[q])
    ensures forall q :: lo <= q < hi ==> a[q] == old(a[q + 1])
  {
    var p := lo;
    while p < hi
      invariant lo <= p <= hi
      invariant forall q :: 0 <= q < a.Length && (q < lo || p <= q) ==> a[q] == old(a[q])
      invariant forall q :: lo <= q < p ==> a[q] == old(a[q + 1])
    {
      a[p] := a[p + 1];
      p := p + 1;
    }
  }

  /** Moves a[lo..hi] one place up, over a[hi]; a[lo] keeps its value. */
  method ShiftUp<T>(a: array<T>, lo: nat, hi: nat)
    requires lo <= hi < a.Length
    modifies a
    ensures forall q :: 0 <= q < a.Length && (q <= lo || hi < q) ==> a[q] == old(a[q])
    ensures forall q :: lo < q <= hi ==> a[q] == old(a[q - 1])
  {
    var p := hi;
    while p > lo
      invariant lo <= p <= hi
      invariant forall q :: 0 <= q < a.Length && (q <= p || hi < q) ==> a[q] == old(a[q])
      invariant forall q :: p < q <= hi ==> a[q] == old(a[q - 1])
    {
      a[p] := a[p - 1];
      p := p - 1;
    }
  }

  /** Where every element of a splice move comes from, for a move down the list and for a
      move up it. */
  lemma MoveShape<T>(s: seq<T>, i: nat, j: nat)
    requires i < |s|
    ensures var k := Landing(j, |s|); var m := Move(s, i, j);
      && |m| == |s| && m[k] == s[i]
      && (forall q :: 0 <= q < |s| && q < i && q < k ==> m[q] == s[q])
      && (forall q :: 0 <= q < |s| && q > i && q > k ==> m[q] == s[q])
      && (forall q :: i <= q < k ==> m[q] == s[q + 1])
      && (forall q :: k < q <= i ==> m[q] == s[q - 1])
  {
  }

  /** The list copied into a fresh array, which is then reversed in place. */
  method ReversedCopy<T>(s: seq<T>) returns (r: seq<T>)
    ensures r == Reverse(s)
  {
    var a := new T[|s|](k requires 0 <= k < |s| => s[k]);
    assert a[..] == s;
    ReverseInPlace(a);
    r := a[..];
  }

  /** `xs.reverse()` on the array itself. */
  method ReverseInPlace<T>(a: array<T>)
    modifies a
    ensures a[..] == Reverse(old(a[..]))
  {
    ghost var s := a[..];
    var n := a.Length;
    var i := 0;
    while i < n / 2
      invariant 0 <= i <= n / 2
      invariant forall q :: 0 <= q < i ==> a[q] == s[n - 1 - q] && a[n - 1 - q] == s[q]
      invariant forall q :: i <= q < n - i ==> a[q] == s[q]
    {
      a[i], a[n - 1 - i] := a[n - 1 - i], a[i];
      i := i + 1;
    }
    ReverseElements(s);
    assert a[..] == Reverse(s);
  }
}
