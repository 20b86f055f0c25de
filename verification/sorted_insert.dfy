/** `insertIntoSorted`: a binary search for the right-most insertion point by
    distance (d3's `bisector(d => d.distance).right`), then a splice. */
module SortedInsert {
  import opened Regions

  /** Ascending by distance. */
  ghost predicate Sorted(a: seq<Entry>)
  {
    forall i, j :: 0 <= i < j < |a| ==> a[i].distance <= a[j].distance
  }

  /** The entries of `a` at distance exactly `d`, in their order in `a`. */
  ghost function AtDistance(a: seq<Entry>, d: real): seq<Entry>
  {
    if a == [] then []
    else (if a[0].distance == d then [a[0]] else []) + AtDistance(a[1..], d)
  }

  /** d3's `bisectRight` on the window [lo, hi): halve the window, moving right
      past every probe whose distance is not greater than `x`. */
  function Bisect(a: seq<Entry>, x: real, lo: nat, hi: nat): (i: nat)
    requires lo <= hi <= |a|
    ensures lo <= i <= hi
    decreases hi - lo
  {
    if lo < hi then
      var mid := (lo + hi) / 2;
      if a[mid].distance > x then Bisect(a, x, lo, mid) else Bisect(a, x, mid + 1, hi)
    else lo
  }

  /** `bisect.right(sortedArr, x)` over the whole array. */
  function BisectRight(a: seq<Entry>, x: real): (i: nat)
    ensures i <= |a|
  {
    Bisect(a, x, 0, |a|)
  }

  /** `insertIntoSorted(obj, "distance", sortedArr)`: splice `obj` in at the
      right-most insertion point for its distance. */
  function InsertIntoSorted(a: seq<Entry>, obj: Entry): (r: seq<Entry>)
    ensures |r| == |a| + 1
    ensures multiset(r) == multiset(a) + multiset{obj}
  {
    var i := BisectRight(a, obj.distance);
    assert a == a[..i] + a[i..];
    a[..i] + [obj] + a[i..]
  }

  /** On a sorted window whose outside is already classified, the search
      returns the boundary between distances `<= x` and distances `> x`. */
  lemma {:induction false} BisectPartition(a: seq<Entry>, x: real, lo: nat, hi: nat)
    requires lo <= hi <= |a|
    requires Sorted(a)
    requires forall j :: 0 <= j < lo ==> a[j].distance <= x
    requires forall j :: hi <= j < |a| ==> a[j].distance > x
    ensures forall j :: 0 <= j < Bisect(a, x, lo, hi) ==> a[j].distance <= x
    ensures forall j :: Bisect(a, x, lo, hi) <= j < |a| ==> a[j].distance > x
    decreases hi - lo
  {
    if lo < hi {
      var mid := (lo + hi) / 2;
      if a[mid].distance > x {
        BisectPartition(a, x, lo, mid);
      } else {
        BisectPartition(a, x, mid + 1, hi);
      }
    }
  }

  /** On a sorted array, `bisect.right` is the partition point: every entry
      before it has distance `<= x`, every entry from it on has distance `> x`. */
  lemma BisectRightIsPartitionPoint(a: seq<Entry>, x: real)
    requires Sorted(a)
    ensures forall j :: 0 <= j < BisectRight(a, x) ==> a[j].distance <= x
    ensures forall j :: BisectRight(a, x) <= j < |a| ==> a[j].distance > x
  {
    BisectPartition(a, x, 0, |a|);
  }

  lemma {:induction false} AtDistanceAppend(a: seq<Entry>, b: seq<Entry>, d: real)
    ensures AtDistance(a + b, d) == AtDistance(a, d) + AtDistance(b, d)
  {
    if a == [] {
      assert a + b == b;
    } else {
      var head := if a[0].distance == d then [a[0]] else [];
      calc {
        AtDistance(a + b, d);
        { assert (a + b)[0] == a[0]; }
        head + AtDistance((a + b)[1..], d);
        { assert (a + b)[1..] == a[1..] + b; }
        head + AtDistance(a[1..] + b, d);
        { AtDistanceAppend(a[1..], b, d); }
        head + (AtDistance(a[1..], d) + AtDistance(b, d));
        (head + AtDistance(a[1..], d)) + AtDistance(b, d);
        AtDistance(a, d) + AtDistance(b, d);
      }
    }
  }

  lemma AtDistanceCons(e: Entry, rest: seq<Entry>, d: real)
    ensures AtDistance([e] + rest, d) == (if e.distance == d then [e] else []) + AtDistance(rest, d)
  {
  }

  lemma {:induction false} AtDistanceAbsent(a: seq<Entry>, d: real)
    requires forall j :: 0 <= j < |a| ==> a[j].distance != d
    ensures AtDistance(a, d) == []
  {
    if a != [] {
      AtDistanceAbsent(a[1..], d);
    }
  }

  /** Regrouping a concatenation, stated once so that proofs can cite it
      without unfolding the sequences involved. */
  lemma ConcatAssoc(x: seq<Entry>, y: seq<Entry>, z: seq<Entry>)
    ensures (x + y) + z == x + (y + z)
  {
  }

  /** Inserting into a sorted list keeps it sorted. */
  lemma InsertKeepsSorted(a: seq<Entry>, obj: Entry)
    requires Sorted(a)
    ensures Sorted(InsertIntoSorted(a, obj))
  {
    var i := BisectRight(a, obj.distance);
    BisectRightIsPartitionPoint(a, obj.distance);
    var r := InsertIntoSorted(a, obj);
    assert r == a[..i] + [obj] + a[i..];
    forall p, q | 0 <= p < q < |r|
      ensures r[p].distance <= r[q].distance
    {
      var ap := if p < i then p else p - 1;
      var aq := if q <= i then q else q - 1;
      if p == i {
        assert r[q] == a[aq] && i <= aq;
      } else if q == i {
        assert r[p] == a[ap] && ap < i;
      } else {
        assert r[p] == a[ap] && r[q] == a[aq] && ap < aq;
      }
    }
  }

  /** Bisect-right insertion is stable: at every distance, the entries keep
      their relative order and the new entry lands after all existing entries
      at its own distance. */
  lemma InsertStable(a: seq<Entry>, obj: Entry, d: real)
    requires Sorted(a)
    ensures AtDistance(InsertIntoSorted(a, obj), d)
         == AtDistance(a, d) + (if obj.distance == d then [obj] else [])
  {
    var i := BisectRight(a, obj.distance);
    var left, right := a[..i], a[i..];
    var mark := if obj.distance == d then [obj] else [];
    assert AtDistance(a, d) == AtDistance(left, d) + AtDistance(right, d) by {
      assert a == left + right;
      AtDistanceAppend(left, right, d);
    }
    assert AtDistance(InsertIntoSorted(a, obj), d)
        == (AtDistance(left, d) + mark) + AtDistance(right, d) by {
      assert InsertIntoSorted(a, obj) == (left + [obj]) + right;
      AtDistanceAppend(left + [obj], right, d);
      AtDistanceAppend(left, [obj], d);
      AtDistanceCons(obj, [], d);
      assert [obj] + [] == [obj];
      assert AtDistance([], d) == [];
    }
    ConcatAssoc(AtDistance(left, d), mark, AtDistance(right, d));
    if obj.distance == d {
      assert AtDistance(right, d) == [] by {
        BisectRightIsPartitionPoint(a, obj.distance);
        AtDistanceAbsent(right, d);
      }
      assert AtDistance(left, d) + [] == AtDistance(left, d);
      assert mark + [] == mark;
    } else {
      assert mark == [];
      assert [] + AtDistance(right, d) == AtDistance(right, d);
    }
  }
}
