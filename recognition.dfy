/** MouseGestureRecognitionService: a point trace is reduced by dropping jitter
    points, each segment of what is left is classified as a direction, and runs
    of equal directions are collapsed into one. */
module Recognition {
  import opened Common
  import opened MouseGestureItems
  import opened MouseGestures

  /** Point2D(int, int); screen coordinates, y grows downwards. */
  datatype Point2D = Point2D(x: int, y: int)

  /** The minDelta that Recognize calls FilterPoints with. */
  const DefaultMinDelta: int := 6

  function Abs(n: int): nat
  {
    if n < 0 then -n else n
  }

  function Max0(n: int): nat
  {
    if n < 0 then 0 else n
  }

  // ---------------------------------------------------------------------------
  // Classifying one segment
  // ---------------------------------------------------------------------------

  /** GetGestureItem: the dominant axis of the movement from start to stop.
      Unrecognized exactly on a diagonal or no movement, otherwise the sign of the
      larger delta, positive y being Down. */
  function GetGestureItem(start: Point2D, stop: Point2D): (item: MouseGestureItem)
    ensures item == Unrecognized <==> Abs(stop.x - start.x) == Abs(stop.y - start.y)
    ensures Abs(stop.x - start.x) > Abs(stop.y - start.y) ==>
      item == (if stop.x > start.x then Right else Left)
    ensures Abs(stop.x - start.x) < Abs(stop.y - start.y) ==>
      item == (if stop.y > start.y then Down else Up)
  {
    var deltaX := stop.x - start.x;
    var deltaY := stop.y - start.y;
    if Abs(deltaX) == Abs(deltaY) then Unrecognized
    else if Abs(deltaX) > Abs(deltaY) then (if deltaX > 0 then Right else Left)
    else (if deltaY > 0 then Down else Up)
  }

  function Translate(p: Point2D, dx: int, dy: int): Point2D
  {
    Point2D(p.x + dx, p.y + dy)
  }

  /** Only the deltas matter: moving both points by the same offset changes nothing. */
  lemma GetGestureItemTranslation(start: Point2D, stop: Point2D, dx: int, dy: int)
    ensures GetGestureItem(Translate(start, dx, dy), Translate(stop, dx, dy)) == GetGestureItem(start, stop)
  {
  }

  /** The direction of the reversed movement. */
  function Opposite(item: MouseGestureItem): MouseGestureItem
  {
    match item
    case Up => Down
    case Down => Up
    case Left => Right
    case Right => Left
    case Unrecognized => Unrecognized
  }

  /** Swapping start and stop exchanges Up with Down and Left with Right and
      keeps Unrecognized. */
  lemma GetGestureItemReversed(start: Point2D, stop: Point2D)
    ensures GetGestureItem(stop, start) == Opposite(GetGestureItem(start, stop))
  {
  }

  // ---------------------------------------------------------------------------
  // Filtering jitter
  // ---------------------------------------------------------------------------

  /** p is closer than minDelta to last on both axes, so FilterPoints drops it. */
  predicate IsJitter(last: Point2D, p: Point2D, minDelta: int)
  {
    Abs(p.x - last.x) < minDelta && Abs(p.y - last.y) < minDelta
  }

  /** What FilterPoints returns: the first point, then every point that is not
      jitter with respect to the last point retained before it. */
  function Filter(points: seq<Point2D>, minDelta: int): (f: seq<Point2D>)
    requires |points| >= 1
    ensures 1 <= |f| <= |points|
    ensures f[0] == points[0]
    decreases |points|
  {
    if |points| == 1 then [points[0]]
    else
      var f := Filter(points[..|points| - 1], minDelta);
      if IsJitter(f[|f| - 1], points[|points| - 1], minDelta) then f else f + [points[|points| - 1]]
  }

  /** The input positions Filter retains, in order. */
  function Kept(points: seq<Point2D>, minDelta: int): seq<nat>
    requires |points| >= 1
    decreases |points|
  {
    if |points| == 1 then [0]
    else
      var f := Filter(points[..|points| - 1], minDelta);
      var ks := Kept(points[..|points| - 1], minDelta);
      if IsJitter(f[|f| - 1], points[|points| - 1], minDelta) then ks else ks + [|points| - 1]
  }

  /** The position after the block of points that ks[k] stands for. */
  function NextKept(ks: seq<nat>, k: nat, n: nat): nat
    requires k < |ks|
  {
    if k + 1 < |ks| then ks[k + 1] else n
  }

  /** ks is a strictly increasing list of positions below n. */
  ghost predicate IncreasingBelow(ks: seq<nat>, n: nat)
  {
    && (forall k :: 0 <= k < |ks| ==> ks[k] < n)
    && (forall i, j :: 0 <= i < j < |ks| ==> ks[i] < ks[j])
  }

  /** Each listed point is at least minDelta away, on some axis, from the one listed before it. */
  ghost predicate RetainedFar(points: seq<Point2D>, ks: seq<nat>, minDelta: int)
    requires IncreasingBelow(ks, |points|)
  {
    forall k :: 0 < k < |ks| ==> !IsJitter(points[ks[k - 1]], points[ks[k]], minDelta)
  }

  /** Each unlisted point is closer than minDelta, on both axes, to the last point
      listed before it. */
  ghost predicate DroppedNear(points: seq<Point2D>, ks: seq<nat>, minDelta: int)
    requires IncreasingBelow(ks, |points|)
  {
    forall k, j :: 0 <= k < |ks| && ks[k] < j < NextKept(ks, k, |points|) ==>
      IsJitter(points[ks[k]], points[j], minDelta)
  }

  /** ks lists a jitter filtering of points: it starts at position 0, is strictly
      increasing, and meets the retained and the dropped condition. */
  ghost predicate IsJitterFiltering(points: seq<Point2D>, ks: seq<nat>, minDelta: int)
  {
    && |ks| >= 1 && ks[0] == 0
    && IncreasingBelow(ks, |points|)
    && RetainedFar(points, ks, minDelta)
    && DroppedNear(points, ks, minDelta)
  }

  /** Kept lists, in order, the input positions of the points Filter returns. */
  lemma {:induction false} KeptIndexesFilter(points: seq<Point2D>, minDelta: int)
    requires |points| >= 1
    ensures |Kept(points, minDelta)| == |Filter(points, minDelta)|
    ensures forall k :: 0 <= k < |Kept(points, minDelta)| ==>
      Kept(points, minDelta)[k] < |points| && Filter(points, minDelta)[k] == points[Kept(points, minDelta)[k]]
    decreases |points|
  {
    if |points| > 1 {
      var pre := points[..|points| - 1];
      KeptIndexesFilter(pre, minDelta);
      forall k | 0 <= k < |Kept(pre, minDelta)| ensures points[Kept(pre, minDelta)[k]] == pre[Kept(pre, minDelta)[k]] {
      }
    }
  }

  /** Filter is the jitter filtering at the positions Kept: so its output begins
      with points[0], is a subsequence of the input, and satisfies both the
      retained and the dropped condition. */
  lemma {:induction false} FilterCharacterized(points: seq<Point2D>, minDelta: int)
    requires |points| >= 1
    ensures |Kept(points, minDelta)| == |Filter(points, minDelta)|
    ensures forall k :: 0 <= k < |Kept(points, minDelta)| ==>
      Kept(points, minDelta)[k] < |points| && Filter(points, minDelta)[k] == points[Kept(points, minDelta)[k]]
    ensures IsJitterFiltering(points, Kept(points, minDelta), minDelta)
    decreases |points|
  {
    KeptIndexesFilter(points, minDelta);
    if |points| > 1 {
      FilterCharacterized(points[..|points| - 1], minDelta);
      FilterStepCharacterized(points, minDelta);
    }
  }

  /** One more input point keeps Kept a jitter filtering. */
  lemma FilterStepCharacterized(points: seq<Point2D>, minDelta: int)
    requires |points| > 1
    requires IsJitterFiltering(points[..|points| - 1], Kept(points[..|points| - 1], minDelta), minDelta)
    ensures IsJitterFiltering(points, Kept(points, minDelta), minDelta)
  {
    var pre, p := points[..|points| - 1], points[|points| - 1];
    assert points == pre + [p];
    KeptIndexesFilter(pre, minDelta);
    var f', ks' := Filter(pre, minDelta), Kept(pre, minDelta);
    assert f'[|f'| - 1] == pre[ks'[|ks'| - 1]];
    if IsJitter(f'[|f'| - 1], p, minDelta) {
      assert Kept(points, minDelta) == ks';
      FilterStepDrop(pre, p, ks', minDelta);
    } else {
      assert Kept(points, minDelta) == ks' + [|pre|];
      FilterStepKeep(pre, p, ks', minDelta);
    }
  }

  /** A point that is jitter with respect to the last listed one joins its block. */
  lemma FilterStepDrop(pre: seq<Point2D>, p: Point2D, ks: seq<nat>, minDelta: int)
    requires IsJitterFiltering(pre, ks, minDelta)
    requires IsJitter(pre[ks[|ks| - 1]], p, minDelta)
    ensures IsJitterFiltering(pre + [p], ks, minDelta)
  {
    var points := pre + [p];
    assert forall i :: 0 <= i < |pre| ==> points[i] == pre[i];
    assert IncreasingBelow(ks, |points|);
    assert RetainedFar(points, ks, minDelta);
    forall k, j | 0 <= k < |ks| && ks[k] < j < NextKept(ks, k, |points|)
      ensures IsJitter(points[ks[k]], points[j], minDelta)
    {
      if j < |pre| {
        assert ks[k] < j < NextKept(ks, k, |pre|);
      } else {
        assert k == |ks| - 1 && points[j] == p && points[ks[k]] == pre[ks[k]];
      }
    }
  }

  /** A point that is not jitter is listed and starts a new block. */
  lemma FilterStepKeep(pre: seq<Point2D>, p: Point2D, ks: seq<nat>, minDelta: int)
    requires IsJitterFiltering(pre, ks, minDelta)
    requires !IsJitter(pre[ks[|ks| - 1]], p, minDelta)
    ensures IsJitterFiltering(pre + [p], ks + [|pre|], minDelta)
  {
    var points, ks2 := pre + [p], ks + [|pre|];
    assert forall i :: 0 <= i < |pre| ==> points[i] == pre[i];
    assert forall k :: 0 <= k < |ks| ==> ks2[k] == ks[k];
    assert IncreasingBelow(ks2, |points|);
    assert RetainedFar(points, ks2, minDelta);
    forall k, j | 0 <= k < |ks2| && ks2[k] < j < NextKept(ks2, k, |points|)
      ensures IsJitter(points[ks2[k]], points[j], minDelta)
    {
      assert k < |ks|;
      assert ks[k] < j < NextKept(ks, k, |pre|);
    }
  }

  /** The jitter filtering of a trace is unique: any list of positions with the
      retained and dropped conditions is the one Filter keeps. */
  lemma {:induction false} JitterFilteringUnique(points: seq<Point2D>, ks: seq<nat>, minDelta: int)
    requires |points| >= 1
    requires IsJitterFiltering(points, ks, minDelta)
    ensures ks == Kept(points, minDelta)
    decreases |points|
  {
    if |points| > 1 {
      var pre := points[..|points| - 1];
      if ks[|ks| - 1] == |points| - 1 {
        FilterPrefix(points, ks, minDelta);
        JitterFilteringUnique(pre, ks[..|ks| - 1], minDelta);
        KeptLastListed(points, ks, minDelta);
      } else {
        FilterRestrict(points, ks, minDelta);
        JitterFilteringUnique(pre, ks, minDelta);
        KeptLastUnlisted(points, ks, minDelta);
      }
    } else {
      IncreasingAtLeastIndex(ks, |ks| - 1, |points|);
    }
  }

  /** A strictly increasing list of naturals has ks[k] >= k. */
  lemma {:induction false} IncreasingAtLeastIndex(ks: seq<nat>, k: nat, n: nat)
    requires IncreasingBelow(ks, n) && k < |ks|
    ensures ks[k] >= k
  {
    if k > 0 {
      IncreasingAtLeastIndex(ks, k - 1, n);
      assert ks[k - 1] < ks[k];
    }
  }

  lemma KeptLastListed(points: seq<Point2D>, ks: seq<nat>, minDelta: int)
    requires |points| >= 2 && IsJitterFiltering(points, ks, minDelta)
    requires |ks| >= 2 && ks[|ks| - 1] == |points| - 1
    requires ks[..|ks| - 1] == Kept(points[..|points| - 1], minDelta)
    ensures ks == Kept(points, minDelta)
  {
    var n, last := |points| - 1, |ks| - 1;
    var pre := points[..n];
    FilterCharacterized(pre, minDelta);
    var f := Filter(pre, minDelta);
    assert f[|f| - 1] == points[ks[last - 1]];
    assert !IsJitter(points[ks[last - 1]], points[ks[last]], minDelta);
    assert ks == ks[..last] + [n];
  }

  lemma KeptLastUnlisted(points: seq<Point2D>, ks: seq<nat>, minDelta: int)
    requires |points| >= 2 && IsJitterFiltering(points, ks, minDelta)
    requires ks[|ks| - 1] != |points| - 1
    requires ks == Kept(points[..|points| - 1], minDelta)
    ensures ks == Kept(points, minDelta)
  {
    var n, last := |points| - 1, |ks| - 1;
    var pre := points[..n];
    FilterCharacterized(pre, minDelta);
    var f := Filter(pre, minDelta);
    assert f[|f| - 1] == points[ks[last]];
    assert ks[last] < n < NextKept(ks, last, |points|);
    assert IsJitter(points[ks[last]], points[n], minDelta);
  }

  /** Removing a listed final point leaves a filtering of the points before it. */
  lemma FilterPrefix(points: seq<Point2D>, ks: seq<nat>, minDelta: int)
    requires |points| >= 2 && IsJitterFiltering(points, ks, minDelta)
    requires ks[|ks| - 1] == |points| - 1
    ensures |ks| >= 2
    ensures IsJitterFiltering(points[..|points| - 1], ks[..|ks| - 1], minDelta)
  {
    FilterPrefixIncreasing(points, ks, minDelta);
    FilterPrefixRetained(points, ks, minDelta);
    FilterPrefixDropped(points, ks, minDelta);
  }

  lemma FilterPrefixIncreasing(points: seq<Point2D>, ks: seq<nat>, minDelta: int)
    requires |points| >= 2 && IsJitterFiltering(points, ks, minDelta)
    requires ks[|ks| - 1] == |points| - 1
    ensures |ks| >= 2
    ensures IncreasingBelow(ks[..|ks| - 1], |points| - 1)
  {
    var last := |ks| - 1;
    forall k | 0 <= k < last ensures ks[..last][k] < |points| - 1 {
      assert ks[k] < ks[last];
    }
  }

  lemma FilterPrefixRetained(points: seq<Point2D>, ks: seq<nat>, minDelta: int)
    requires |points| >= 2 && IsJitterFiltering(points, ks, minDelta)
    requires ks[|ks| - 1] == |points| - 1
    requires IncreasingBelow(ks[..|ks| - 1], |points| - 1)
    ensures RetainedFar(points[..|points| - 1], ks[..|ks| - 1], minDelta)
  {
    var pre, ks' := points[..|points| - 1], ks[..|ks| - 1];
    forall k | 0 < k < |ks'| ensures !IsJitter(pre[ks'[k - 1]], pre[ks'[k]], minDelta) {
      assert !IsJitter(points[ks[k - 1]], points[ks[k]], minDelta);
    }
  }

  lemma FilterPrefixDropped(points: seq<Point2D>, ks: seq<nat>, minDelta: int)
    requires |points| >= 2 && IsJitterFiltering(points, ks, minDelta)
    requires ks[|ks| - 1] == |points| - 1
    requires IncreasingBelow(ks[..|ks| - 1], |points| - 1)
    ensures DroppedNear(points[..|points| - 1], ks[..|ks| - 1], minDelta)
  {
    var n := |points| - 1;
    var pre, ks' := points[..n], ks[..|ks| - 1];
    forall k, j | 0 <= k < |ks'| && ks'[k] < j < NextKept(ks', k, n)
      ensures IsJitter(pre[ks'[k]], pre[j], minDelta)
    {
      assert NextKept(ks', k, n) == NextKept(ks, k, |points|);
      assert IsJitter(points[ks[k]], points[j], minDelta);
    }
  }

  /** When the final point is not listed, the same positions filter the points before it. */
  lemma FilterRestrict(points: seq<Point2D>, ks: seq<nat>, minDelta: int)
    requires |points| >= 2 && IsJitterFiltering(points, ks, minDelta)
    requires ks[|ks| - 1] != |points| - 1
    ensures IsJitterFiltering(points[..|points| - 1], ks, minDelta)
  {
    var n, last := |points| - 1, |ks| - 1;
    var pre := points[..n];
    assert forall i :: 0 <= i < n ==> pre[i] == points[i];
    assert forall k :: 0 <= k < |ks| ==> ks[k] <= ks[last];
    assert IncreasingBelow(ks, n);
    assert RetainedFar(pre, ks, minDelta);
    forall k, j | 0 <= k < |ks| && ks[k] < j < NextKept(ks, k, n)
      ensures IsJitter(pre[ks[k]], pre[j], minDelta)
    {
      assert NextKept(ks, k, n) <= NextKept(ks, k, |points|);
    }
  }

  /** FilterPoints. */
  method FilterPoints(points: seq<Point2D>, minDelta: int := DefaultMinDelta) returns (filtered: seq<Point2D>)
    requires |points| >= 1
    ensures filtered == Filter(points, minDelta)
  {
    filtered := [points[0]];
    for i := 1 to |points|
      invariant filtered == Filter(points[..i], minDelta)
    {
      assert points[..i + 1][..i] == points[..i];
      var deltaX := Abs(points[i].x - filtered[|filtered| - 1].x);
      var deltaY := Abs(points[i].y - filtered[|filtered| - 1].y);
      if deltaX < minDelta && deltaY < minDelta {
        continue;
      }
      filtered := filtered + [points[i]];
    }
    assert points[..|points|] == points;
  }

  // ---------------------------------------------------------------------------
  // Collapsing repeats
  // ---------------------------------------------------------------------------

  predicate NoAdjacentDuplicates(items: seq<MouseGestureItem>)
  {
    forall k :: 0 < k < |items| ==> items[k - 1] != items[k]
  }

  /** a can be obtained from b by deleting elements. */
  predicate IsSubsequence<T(==)>(a: seq<T>, b: seq<T>)
    decreases |b|
  {
    if a == [] then true
    else if b == [] then false
    else
      || (a[|a| - 1] == b[|b| - 1] && IsSubsequence(a[..|a| - 1], b[..|b| - 1]))
      || IsSubsequence(a, b[..|b| - 1])
  }

  /** The classification part of Recognize: an item is appended only when it
      differs from the last item appended and, in dropping mode, is not
      Unrecognized; a dropped Unrecognized is not appended, so it does not
      separate the equal items around it. */
  function Collapse(items: seq<MouseGestureItem>, removeUnrecognized: bool): (r: seq<MouseGestureItem>)
    ensures |r| <= |items|
    ensures NoAdjacentDuplicates(r)
    ensures removeUnrecognized ==> Unrecognized !in r
    decreases |items|
  {
    if items == [] then []
    else
      var acc := Collapse(items[..|items| - 1], removeUnrecognized);
      var item := items[|items| - 1];
      if |acc| > 0 && acc[|acc| - 1] == item then acc
      else if removeUnrecognized && item == Unrecognized then acc
      else acc + [item]
  }

  /** Collapsing one more item of a prefix: it is dropped when it repeats the last kept item,
      or when it is Unrecognized and those are dropped; otherwise it is kept. */
  lemma CollapseStep(items: seq<MouseGestureItem>, x: nat, removeUnrecognized: bool)
    requires x < |items|
    ensures var acc := Collapse(items[..x], removeUnrecognized);
      Collapse(items[..x + 1], removeUnrecognized) ==
        if |acc| > 0 && acc[|acc| - 1] == items[x] then acc
        else if removeUnrecognized && items[x] == Unrecognized then acc
        else acc + [items[x]]
  {
    assert items[..x + 1][..x] == items[..x];
  }

  /** Collapsing only deletes items. */
  lemma {:induction false} CollapseIsSubsequence(items: seq<MouseGestureItem>, removeUnrecognized: bool)
    ensures IsSubsequence(Collapse(items, removeUnrecognized), items)
    decreases |items|
  {
    if items != [] {
      var pre := items[..|items| - 1];
      CollapseIsSubsequence(pre, removeUnrecognized);
      SubsequenceExtend(Collapse(pre, removeUnrecognized), pre, items[|items| - 1]);
    }
  }

  lemma {:induction false} SubsequenceExtend<T>(a: seq<T>, b: seq<T>, x: T)
    requires IsSubsequence(a, b)
    ensures IsSubsequence(a, b + [x])
    ensures IsSubsequence(a + [x], b + [x])
  {
    assert (b + [x])[..|b|] == b;
    assert (a + [x])[..|a|] == a;
  }

  /** Every kind of item survives collapsing, except Unrecognized in dropping mode. */
  lemma {:induction false} CollapseKeepsKinds(items: seq<MouseGestureItem>, removeUnrecognized: bool, item: MouseGestureItem)
    ensures item in Collapse(items, removeUnrecognized) <==>
      item in items && !(removeUnrecognized && item == Unrecognized)
    decreases |items|
  {
    if items != [] {
      var pre := items[..|items| - 1];
      CollapseKeepsKinds(pre, removeUnrecognized, item);
      assert items == pre + [items[|items| - 1]];
    }
  }

  /** A list that already has no adjacent repeats (and, when dropping, no
      Unrecognized) is left as it is; so collapsing twice is collapsing once. */
  lemma {:induction false} CollapseFixedPoint(items: seq<MouseGestureItem>, removeUnrecognized: bool)
    requires NoAdjacentDuplicates(items)
    requires removeUnrecognized ==> Unrecognized !in items
    ensures Collapse(items, removeUnrecognized) == items
    decreases |items|
  {
    if items != [] {
      var pre := items[..|items| - 1];
      CollapseFixedPoint(pre, removeUnrecognized);
      assert items == pre + [items[|items| - 1]];
    }
  }

  lemma CollapseIdempotent(items: seq<MouseGestureItem>, removeUnrecognized: bool)
    ensures Collapse(Collapse(items, removeUnrecognized), removeUnrecognized) == Collapse(items, removeUnrecognized)
  {
    CollapseFixedPoint(Collapse(items, removeUnrecognized), removeUnrecognized);
  }

  /** U,?,U gives U when Unrecognized items are dropped, and stays U,?,U otherwise. */
  lemma CollapseUnrecognizedBetweenEquals()
    ensures Collapse([Up, Unrecognized, Up], true) == [Up]
    ensures Collapse([Up, Unrecognized, Up], false) == [Up, Unrecognized, Up]
  {
    assert [Up, Unrecognized, Up][..2] == [Up, Unrecognized];
    assert [Up, Unrecognized][..1] == [Up];
    assert [Up][..0] == [];
  }

  // ---------------------------------------------------------------------------
  // Recognize
  // ---------------------------------------------------------------------------

  /** The loop of Recognize classifies the segments (x, x + 1) for x < |f| - 2 only:
      the final segment of the filtered trace is never classified. */
  function ClassifiedSegments(f: seq<Point2D>): seq<MouseGestureItem>
  {
    seq(Max0(|f| - 2), x requires 0 <= x < Max0(|f| - 2) => GetGestureItem(f[x], f[x + 1]))
  }

  /** The items of the gesture Recognize returns for a trace of at least 2 points. */
  function RecognizedItems(points: seq<Point2D>, removeUnrecognized: bool): seq<MouseGestureItem>
    requires |points| >= 2
  {
    Collapse(ClassifiedSegments(Filter(points, DefaultMinDelta)), removeUnrecognized)
  }

  /** What the recognized gesture looks like: at most |filtered| - 2 items (none at
      all when the trace filters to 2 points or fewer), no two adjacent items
      equal, and no Unrecognized when those are dropped. */
  lemma RecognizedShape(points: seq<Point2D>, removeUnrecognized: bool)
    requires |points| >= 2
    ensures |RecognizedItems(points, removeUnrecognized)| <= Max0(|Filter(points, DefaultMinDelta)| - 2)
    ensures |Filter(points, DefaultMinDelta)| <= 2 ==> RecognizedItems(points, removeUnrecognized) == []
    ensures NoAdjacentDuplicates(RecognizedItems(points, removeUnrecognized))
    ensures removeUnrecognized ==> Unrecognized !in RecognizedItems(points, removeUnrecognized)
  {
  }

  /** The last filtered point never influences the gesture: two traces whose
      filtered forms differ only in their final point give the same gesture. */
  lemma FinalPointIgnored(p: seq<Point2D>, q: seq<Point2D>, removeUnrecognized: bool)
    requires |p| >= 2 && |q| >= 2
    requires |Filter(p, DefaultMinDelta)| == |Filter(q, DefaultMinDelta)|
    requires Filter(p, DefaultMinDelta)[..|Filter(p, DefaultMinDelta)| - 1] ==
             Filter(q, DefaultMinDelta)[..|Filter(q, DefaultMinDelta)| - 1]
    ensures RecognizedItems(p, removeUnrecognized) == RecognizedItems(q, removeUnrecognized)
  {
    var fp, fq := Filter(p, DefaultMinDelta), Filter(q, DefaultMinDelta);
    assert forall x :: 0 <= x < |fp| - 1 ==> fp[x] == fp[..|fp| - 1][x] && fq[x] == fq[..|fq| - 1][x];
    assert ClassifiedSegments(fp) == ClassifiedSegments(fq);
  }

  /** Filtering only deletes points. */
  lemma {:induction false} FilterIsSubsequence(points: seq<Point2D>, minDelta: int)
    requires |points| >= 1
    ensures IsSubsequence(Filter(points, minDelta), points)
    decreases |points|
  {
    if |points| == 1 {
      assert points[..0] == [];
    } else {
      var pre, p := points[..|points| - 1], points[|points| - 1];
      var f := Filter(pre, minDelta);
      assert points == pre + [p];
      assert Filter(points, minDelta) == if IsJitter(f[|f| - 1], p, minDelta) then f else f + [p];
      FilterIsSubsequence(pre, minDelta);
      SubsequenceExtend(f, pre, p);
    }
  }

  /** Strokes of 20 units per step have no jitter: filtering keeps every point. */
  lemma StrokeFilters()
    ensures var a, b, c, d := Point2D(0, 0), Point2D(0, 20), Point2D(20, 20), Point2D(20, 40);
      && Filter([a, b], DefaultMinDelta) == [a, b]
      && Filter([a, b, c], DefaultMinDelta) == [a, b, c]
      && Filter([a, b, c, d], DefaultMinDelta) == [a, b, c, d]
  {
    var a, b, c, d := Point2D(0, 0), Point2D(0, 20), Point2D(20, 20), Point2D(20, 40);
    assert [a, b][..1] == [a];
    assert Filter([a, b], DefaultMinDelta) == [a, b];
    assert [a, b, c][..2] == [a, b];
    assert Filter([a, b, c], DefaultMinDelta) == [a, b, c];
    assert [a, b, c, d][..3] == [a, b, c];
  }

  /** Worked strokes. A vertical stroke of two points filters to two points and so
      gives the empty gesture; a stroke down and then right gives only "D", its
      final segment being ignored; "DR" needs a fourth point. */
  lemma TraceScenarios()
    ensures RecognizedItems([Point2D(0, 0), Point2D(0, 20)], true) == []
    ensures RecognizedItems([Point2D(0, 0), Point2D(0, 20), Point2D(20, 20)], true) == [Down]
    ensures RecognizedItems([Point2D(0, 0), Point2D(0, 20), Point2D(20, 20), Point2D(20, 40)], true) == [Down, Right]
  {
    var a, b, c, d := Point2D(0, 0), Point2D(0, 20), Point2D(20, 20), Point2D(20, 40);
    StrokeFilters();
    assert ClassifiedSegments([a, b]) == [];
    assert ClassifiedSegments([a, b, c]) == [Down];
    assert ClassifiedSegments([a, b, c, d]) == [Down, Right];
    StrokeCollapses();
    assert RecognizedItems([a, b], true) == Collapse([], true);
    assert RecognizedItems([a, b, c], true) == Collapse([Down], true);
    assert RecognizedItems([a, b, c, d], true) == Collapse([Down, Right], true);
  }

  /** Two different directions collapse to themselves. */
  lemma StrokeCollapses()
    ensures Collapse([Down], true) == [Down]
    ensures Collapse([Down, Right], true) == [Down, Right]
  {
    assert [Down][..0] == [];
    assert [Down, Right][..1] == [Down];
  }

  /** A worked trace whose points all lie within the jitter threshold: it filters
      to its first point and gives the empty gesture without error. */
  lemma JitterTraceScenario()
    ensures Filter([Point2D(0, 0), Point2D(2, 2), Point2D(4, 4)], DefaultMinDelta) == [Point2D(0, 0)]
    ensures RecognizedItems([Point2D(0, 0), Point2D(2, 2), Point2D(4, 4)], true) == []
  {
    var a, p, q := Point2D(0, 0), Point2D(2, 2), Point2D(4, 4);
    assert [a, p, q][..2] == [a, p];
    assert [a, p][..1] == [a];
    assert Filter([a, p], DefaultMinDelta) == [a];
  }

  /** Recognize. */
  method Recognize(points: seq<Point2D>, removeUnrecognizedItems: bool := true) returns (r: Result<MouseGesture>)
    ensures |points| < 2 <==> r.Failure?
    ensures r.Failure? ==> r.error == Argument(TooFewPoints)
    ensures r.Success? ==> r.value.gestureItems == RecognizedItems(points, removeUnrecognizedItems)
  {
    if |points| < 2 {
      return Failure(Argument(TooFewPoints));
    }

    var gestureItems: seq<MouseGestureItem> := [];

    var filteredPoints := FilterPoints(points);
    ghost var segments := ClassifiedSegments(filteredPoints);
    for x := 0 to Max0(|filteredPoints| - 2)
      invariant gestureItems == Collapse(segments[..x], removeUnrecognizedItems)
    {
      var item := GetGestureItem(filteredPoints[x], filteredPoints[x + 1]);
      assert segments[x] == item;
      CollapseStep(segments, x, removeUnrecognizedItems);

      if |gestureItems| > 0 && gestureItems[|gestureItems| - 1] == item {
        continue;
      }

      if removeUnrecognizedItems && item == Unrecognized {
        continue;
      }

      gestureItems := gestureItems + [item];
    }
    assert segments[..|segments|] == segments;

    var gesture := new MouseGesture.FromItems(gestureItems);
    return Success(gesture);
  }
}
