// Sorting the edges of a glyph by their top: 3rdparty/stb/stb_truetype.h, stbtt__sort_edges.
//
// A median-of-three quicksort that leaves runs of at most twelve edges alone, then one insertion sort
// over everything.  Coordinates are floats in the source and reals here; no coordinate is a NaN.
module EdgeSort {
  datatype Edge = Edge(x0: real, y0: real, x1: real, y1: real, invert: bool)

  predicate Less(a: Edge, b: Edge) { a.y0 < b.y0 }

  ghost predicate Sorted(s: seq<Edge>, n: nat)
    requires n <= |s|
  {
    forall a, b :: 0 <= a < b < n ==> !Less(s[b], s[a])
  }

  /** Only [l, h) changed, and there the edges were only moved. */
  ghost predicate Rearranged(s: seq<Edge>, t: seq<Edge>, l: nat, h: nat) {
    && l <= h <= |s| == |t|
    && multiset(t) == multiset(s)
    && forall k :: 0 <= k < |s| && !(l <= k < h) ==> t[k] == s[k]
  }

  lemma Rearrange3(s: seq<Edge>, t: seq<Edge>, u: seq<Edge>, l: nat, h: nat)
    requires Rearranged(s, t, l, h) && Rearranged(t, u, l, h)
    ensures Rearranged(s, u, l, h)
  {
  }

  lemma Widen(s: seq<Edge>, t: seq<Edge>, l: nat, h: nat, l': nat, h': nat)
    requires Rearranged(s, t, l, h) && l' <= l && h <= h' <= |s|
    ensures Rearranged(s, t, l', h')
  {
  }

  lemma SwapRearranges(s: seq<Edge>, l: nat, h: nat, i: nat, j: nat)
    requires l <= i < h <= |s| && l <= j < h
    ensures Rearranged(s, s[i := s[j]][j := s[i]], l, h)
  {
  }

  lemma InThree(s: seq<Edge>, l: nat, h: nat)
    requires l <= h <= |s|
    ensures multiset(s) == multiset(s[..l]) + multiset(s[l..h]) + multiset(s[h..])
  {
    assert s == s[..l] + s[l..h] + s[h..];
    assert multiset(s[..l] + s[l..h] + s[h..]) == multiset(s[..l]) + multiset(s[l..h]) + multiset(s[h..]);
  }

  lemma Cancel(a: multiset<Edge>, x: multiset<Edge>, y: multiset<Edge>, b: multiset<Edge>)
    requires a + x + b == a + y + b
    ensures x == y
  {
    assert x == (a + x + b) - a - b;
    assert y == (a + y + b) - a - b;
  }

  /** The region keeps its contents. */
  lemma SameContents(s: seq<Edge>, t: seq<Edge>, l: nat, h: nat)
    requires Rearranged(s, t, l, h)
    ensures multiset(t[l..h]) == multiset(s[l..h])
  {
    assert s[..l] == t[..l] && s[h..] == t[h..];
    InThree(s, l, h);
    InThree(t, l, h);
    Cancel(multiset(s[..l]), multiset(s[l..h]), multiset(t[l..h]), multiset(s[h..]));
  }

  /** Outside the region edges stay; inside, each came from inside. */
  lemma Origin(s: seq<Edge>, t: seq<Edge>, l: nat, h: nat, k: nat) returns (m: nat)
    requires Rearranged(s, t, l, h) && k < |s|
    ensures m < |s| && t[k] == s[m] && if l <= k < h then l <= m < h else m == k
  {
    if l <= k < h {
      SameContents(s, t, l, h);
      assert t[k] == t[l..h][k - l] && t[k] in multiset(s[l..h]);
      assert t[k] in s[l..h];
      var d :| 0 <= d < h - l && s[l..h][d] == t[k];
      m := l + d;
    } else {
      m := k;
    }
  }

  method Swap(p: array<Edge>, l: nat, h: nat, i: nat, j: nat)
    requires l <= i < h <= p.Length && l <= j < h
    modifies p
    ensures p[..] == old(p[..])[i := old(p[j])][j := old(p[i])]
    ensures Rearranged(old(p[..]), p[..], l, h)
  {
    ghost var s := p[..];
    SwapRearranges(s, l, h, i, j);
    p[i], p[j] := p[j], p[i];
    assert p[..] == s[i := s[j]][j := s[i]];
  }

  // ----- insertion sort -----

  method InsertionSort(p: array<Edge>, n: nat)
    requires n <= p.Length
    modifies p
    ensures Rearranged(old(p[..]), p[..], 0, n) && Sorted(p[..], n)
  {
    ghost var was := p[..];
    var i := 1;
    while i < n
      invariant 1 <= i && (i <= n || n == 0)
      invariant Rearranged(was, p[..], 0, n)
      invariant i <= n ==> Sorted(p[..], i)
    {
      Insert(p, i, n);
      i := i + 1;
    }
  }

  /** Moves the edge at i down to its place in the sorted edges before it. */
  method Insert(p: array<Edge>, i: nat, ghost n: nat)
    requires 1 <= i < n <= p.Length && Sorted(p[..], i)
    modifies p
    ensures Rearranged(old(p[..]), p[..], 0, n) && Sorted(p[..], i + 1)
  {
    ghost var was := p[..];
    var t := p[i];
    var j := i;
    while j > 0
      invariant j <= i && Shifted(was, p[..], j, i)
      invariant forall b :: j <= b < i ==> Less(t, was[b])
    {
      if !Less(t, p[j - 1]) { break; }
      p[j] := p[j - 1];
      j := j - 1;
    }
    if i != j {
      p[j] := t;
    }
    Placed(was, p[..], i, j, n);
  }

  /** The edges from j to i - 1 stand one place up; place j holds anything. */
  ghost predicate Shifted(was: seq<Edge>, s: seq<Edge>, j: nat, i: nat)
    requires j <= i < |was|
  {
    && |s| == |was|
    && (forall k :: 0 <= k < |s| && (k < j || k > i) ==> s[k] == was[k])
    && (forall k :: j < k <= i ==> s[k] == was[k - 1])
    && (j == i ==> s[i] == was[i])
  }

  /** The edge at i moved down to j. */
  ghost function MovedTo(s: seq<Edge>, i: nat, j: nat): seq<Edge>
    requires j <= i < |s|
  {
    s[..j] + [s[i]] + s[j..i] + s[i + 1..]
  }

  lemma MoveRearranges(s: seq<Edge>, i: nat, j: nat, n: nat)
    requires j <= i < n <= |s|
    ensures Rearranged(s, MovedTo(s, i, j), 0, n)
  {
    var a, b, c, d := s[..j], s[j..i], [s[i]], s[i + 1..];
    assert s == a + b + c + d && MovedTo(s, i, j) == a + c + b + d;
    Exchanged(a, b, c, d);
  }

  lemma Exchanged(a: seq<Edge>, b: seq<Edge>, c: seq<Edge>, d: seq<Edge>)
    ensures multiset(a + b + c + d) == multiset(a + c + b + d)
  {
  }

  lemma Placed(was: seq<Edge>, s: seq<Edge>, i: nat, j: nat, n: nat)
    requires j <= i < n <= |was| && |s| == |was| && s[j] == was[i]
    requires forall k :: 0 <= k < |s| && (k < j || k > i) ==> s[k] == was[k]
    requires forall k :: j < k <= i ==> s[k] == was[k - 1]
    requires Sorted(was, i) && (forall b :: j <= b < i ==> Less(was[i], was[b])) && (j > 0 ==> !Less(was[i], was[j - 1]))
    ensures Rearranged(was, s, 0, n) && Sorted(s, i + 1)
  {
    assert s == MovedTo(was, i, j);
    MoveRearranges(was, i, j, n);
    forall a, b | 0 <= a < b < i + 1 ensures !Less(s[b], s[a]) {
      var a' := if a <= j then a else a - 1;
      var b' := if b <= j then b else b - 1;
    }
  }

  // ----- what a partition computes -----

  function Swapped(s: seq<Edge>, i: nat, j: nat): (t: seq<Edge>)
    requires i < |s| && j < |s|
    ensures |t| == |s|
  {
    s[i := s[j]][j := s[i]]
  }

  /** A median of first, middle and last is exchanged with the middle, then that with the first. */
  function MedianFronted(s: seq<Edge>, l: nat, m: nat, last: nat): (t: seq<Edge>)
    requires l < m < last < |s|
    ensures |t| == |s|
  {
    var c01, c12 := Less(s[l], s[m]), Less(s[m], s[last]);
    var mid := if c01 == c12 then s else if Less(s[l], s[last]) == c12 then Swapped(s, l, m) else Swapped(s, last, m);
    Swapped(mid, l, m)
  }

  /** Where the scan upwards stops. */
  function UpTo(s: seq<Edge>, l: nat, i: nat): (r: nat)
    ensures i <= r
    decreases |s| - i
  {
    if l < |s| && i < |s| && Less(s[i], s[l]) then UpTo(s, l, i + 1) else i
  }

  /** Where the scan downwards stops. */
  function DownTo(s: seq<Edge>, l: nat, j: nat): (r: nat)
    ensures r <= j
  {
    if l < |s| && 0 < j < |s| && Less(s[l], s[j]) then DownTo(s, l, j - 1) else j
  }

  datatype Parts = Parts(s: seq<Edge>, i: nat, j: nat)

  /** What the partition loop makes of a region with its pivot at l. */
  function PartsOf(s: seq<Edge>, l: nat, i: nat, j: nat): (r: Parts)
    ensures |r.s| == |s|
    decreases j
  {
    var i', j' := UpTo(s, l, i), DownTo(s, l, j);
    if i' >= j' || j' >= |s| then Parts(s, i', j') else PartsOf(Swapped(s, i', j'), l, i' + 1, j' - 1)
  }

  function Partitioned(s: seq<Edge>, l: nat, m: nat, last: nat): (r: Parts)
    requires l < m < last < |s|
    ensures |r.s| == |s|
  {
    PartsOf(MedianFronted(s, l, m, last), l, l + 1, last)
  }

  // The same as relations.

  ghost predicate Fronted(was: seq<Edge>, s: seq<Edge>, l: nat, m: nat, last: nat) {
    l < m < last < |was| && s == MedianFronted(was, l, m, last)
  }

  ghost predicate ScansUp(s: seq<Edge>, l: nat, start: nat, i: nat) {
    i == UpTo(s, l, start)
  }

  ghost predicate ScansDown(s: seq<Edge>, l: nat, start: nat, j: nat) {
    j == DownTo(s, l, start)
  }

  /** Going on from s comes to the same as partitioning [l, h) of was. */
  ghost predicate CutAlike(was: seq<Edge>, s: seq<Edge>, l: nat, h: nat, i: nat, j: nat) {
    h >= 1 && PartsOf(s, l, i, j) == PartsOf(was, l, l + 1, h - 1)
  }

  ghost predicate CutInto(was: seq<Edge>, l: nat, i0: nat, j0: nat, s: seq<Edge>, i: nat, j: nat) {
    PartsOf(was, l, i0, j0) == Parts(s, i, j)
  }

  ghost predicate PartedBy(was: seq<Edge>, s: seq<Edge>, l: nat, m: nat, last: nat, i: nat, j: nat) {
    l < m < last < |was| && Parts(s, i, j) == Partitioned(was, l, m, last)
  }

  // ----- one partition -----

  /** The edge in the middle is a median of first, middle and last. */
  ghost predicate MedianAt(s: seq<Edge>, l: nat, m: nat, last: nat)
    requires l < m < last < |s|
  {
    || (!Less(s[m], s[l]) && !Less(s[last], s[m]))
    || (!Less(s[m], s[last]) && !Less(s[l], s[m]))
  }

  /** These three places hold the edges they held before, and no other place changed. */
  ghost predicate OnlyThese(was: seq<Edge>, s: seq<Edge>, l: nat, m: nat, last: nat)
    requires l < m < last < |s| == |was|
  {
    && multiset{s[l], s[m], s[last]} == multiset{was[l], was[m], was[last]}
    && forall k :: 0 <= k < |s| && k != l && k != m && k != last ==> s[k] == was[k]
  }

  /** A median of first, middle and last has come to the front. */
  ghost predicate MedianFirst(was: seq<Edge>, s: seq<Edge>, l: nat, m: nat, last: nat) {
    && l < m < last < |s| == |was| && OnlyThese(was, s, l, m, last)
    && ((!Less(s[l], s[m]) && !Less(s[last], s[l])) || (!Less(s[l], s[last]) && !Less(s[m], s[l])))
  }

  method MedianToMiddle(p: array<Edge>, l: nat, m: nat, last: nat)
    requires l < m < last < p.Length
    modifies p
    ensures Rearranged(old(p[..]), p[..], l, last + 1) && MedianAt(p[..], l, m, last)
    ensures OnlyThese(old(p[..]), p[..], l, m, last) && Swapped(p[..], l, m) == MedianFronted(old(p[..]), l, m, last)
  {
    var c01, c12 := Less(p[l], p[m]), Less(p[m], p[last]);
    if c01 != c12 {
      var c := Less(p[l], p[last]);
      if c == c12 {
        Exchange(p, l, last + 1, l, m);
      } else {
        Exchange(p, l, last + 1, last, m);
      }
    }
  }

  /** Swap, told by places. */
  method Exchange(p: array<Edge>, l: nat, h: nat, i: nat, j: nat)
    requires l <= i < h <= p.Length && l <= j < h
    modifies p
    ensures Rearranged(old(p[..]), p[..], l, h)
    ensures p[i] == old(p[j]) && p[j] == old(p[i]) && p[..] == Swapped(old(p[..]), i, j)
    ensures forall k :: 0 <= k < p.Length && k != i && k != j ==> p[k] == old(p[k])
  {
    Swap(p, l, h, i, j);
  }

  /** The region is [l, h) and the pivot is at l.  Places before i are not above the pivot, places after
      j not below it. */
  ghost predicate Split(s: seq<Edge>, l: nat, h: nat, i: nat, j: nat) {
    && l < i <= h <= |s| && l <= j < h
    && (forall k :: l <= k < i ==> !Less(s[l], s[k]))
    && (forall k :: j < k < h ==> !Less(s[k], s[l]))
  }

  /** An unguarded scan upwards from i stops at or before k. */
  ghost predicate UpStop(s: seq<Edge>, l: nat, h: nat, i: nat, k: nat) {
    l < i <= k < h <= |s| && !Less(s[k], s[l])
  }

  /** An unguarded scan downwards from j stops at or after k. */
  ghost predicate DownStop(s: seq<Edge>, l: nat, h: nat, j: nat, k: nat) {
    l < k <= j < h <= |s| && !Less(s[l], s[k])
  }

  /** Median of three to the front: then both scans of the first round have a place to stop. */
  method MedianToFront(p: array<Edge>, l: nat, m: nat, last: nat) returns (ghost up: nat, ghost down: nat)
    requires l < m < last < p.Length
    modifies p
    ensures Rearranged(old(p[..]), p[..], l, last + 1)
    ensures MedianFirst(old(p[..]), p[..], l, m, last) && Fronted(old(p[..]), p[..], l, m, last)
    ensures UpStop(p[..], l, last + 1, l + 1, up) && DownStop(p[..], l, last + 1, last, down)
  {
    MedianToMiddle(p, l, m, last);
    ghost var mid := p[..];
    Exchange(p, l, last + 1, l, m);
    Rearrange3(old(p[..]), mid, p[..], l, last + 1);
    MedianMoves(old(p[..]), mid, p[..], l, m, last);
    up, down := MedianStops(mid, p[..], l, m, last);
  }

  lemma MedianMoves(was: seq<Edge>, mid: seq<Edge>, s: seq<Edge>, l: nat, m: nat, last: nat)
    requires l < m < last < |mid| == |was| && OnlyThese(was, mid, l, m, last) && MedianAt(mid, l, m, last) && s == Swapped(mid, l, m)
    ensures MedianFirst(was, s, l, m, last)
  {
  }

  lemma MedianStops(mid: seq<Edge>, s: seq<Edge>, l: nat, m: nat, last: nat) returns (up: nat, down: nat)
    requires l < m < last < |mid| == |s| && MedianAt(mid, l, m, last) && s[l] == mid[m] && s[m] == mid[l] && s[last] == mid[last]
    ensures UpStop(s, l, last + 1, l + 1, up) && DownStop(s, l, last + 1, last, down)
  {
    if !Less(mid[m], mid[l]) && !Less(mid[last], mid[m]) {
      up, down := last, m;
    } else {
      up, down := m, last;
    }
  }

  method ScanUp(p: array<Edge>, l: nat, h: nat, start: nat, j: nat, ghost stop: nat) returns (i: nat)
    requires h <= p.Length && Split(p[..], l, h, start, j) && UpStop(p[..], l, h, start, stop)
    ensures start <= i <= stop && Split(p[..], l, h, i, j) && !Less(p[i], p[l]) && ScansUp(p[..], l, start, i)
  {
    i := start;
    while Less(p[i], p[l])
      invariant start <= i <= stop && UpTo(p[..], l, i) == UpTo(p[..], l, start)
      invariant forall k :: start <= k < i ==> Less(p[k], p[l])
      decreases stop - i
    {
      i := i + 1;
    }
  }

  method ScanDown(p: array<Edge>, l: nat, h: nat, i: nat, start: nat, ghost stop: nat) returns (j: nat)
    requires h <= p.Length && Split(p[..], l, h, i, start) && DownStop(p[..], l, h, start, stop)
    ensures stop <= j <= start && Split(p[..], l, h, i, j) && !Less(p[l], p[j]) && ScansDown(p[..], l, start, j)
    ensures forall k :: l < k <= start && !Less(p[l], p[k]) ==> k <= j
  {
    j := start;
    while Less(p[l], p[j])
      invariant stop <= j <= start && DownTo(p[..], l, j) == DownTo(p[..], l, start)
      invariant forall k :: j < k <= start ==> Less(p[l], p[k])
      decreases j
    {
      j := j - 1;
    }
  }

  /** Nothing before i is above anything from i on. */
  ghost predicate Divided(s: seq<Edge>, l: nat, i: nat, h: nat) {
    l <= i <= h <= |s| && forall a, b :: l <= a < i <= b < h ==> !Less(s[b], s[a])
  }

  /** The scans have crossed and left place j out of both parts [l, j) and [i, h), with an edge below the
      pivot at l. */
  ghost predicate LeftOut(s: seq<Edge>, l: nat, i: nat, j: nat)
    requires l <= j < |s|
  {
    j < i && Less(s[j], s[l])
  }

  /** A partition of [l, h) into [l, j) and [i, h), both shorter, with at most one place between them.
      That place stands right too, below all after it and above all before it, exactly when its edge
      is not below the pivot. */
  ghost predicate Parted(s: seq<Edge>, l: nat, i: nat, j: nat, h: nat) {
    && l < j <= i <= j + 1 && i < h <= |s| && Divided(s, l, i, h)
    && (Divided(s, l, j, h) <==> !LeftOut(s, l, i, j))
  }

  lemma SplitParts(s: seq<Edge>, l: nat, h: nat, i: nat, j: nat)
    requires Split(s, l, h, i, j) && l < j <= i <= j + 1 && i < h && !Less(s[i], s[l])
    ensures Parted(s, l, i, j, h)
  {
    if !LeftOut(s, l, i, j) {
      forall a, b | l <= a < j <= b < h ensures !Less(s[b], s[a]) { assert !Less(s[b], s[l]); }
    } else {
      assert l < j < h && Less(s[j], s[l]);
    }
  }

  /** The partition loop. */
  method Partition(p: array<Edge>, l: nat, h: nat, ghost up0: nat, ghost down0: nat) returns (i: nat, j: nat)
    requires h <= p.Length && UpStop(p[..], l, h, l + 1, up0) && DownStop(p[..], l, h, h - 1, down0)
    modifies p
    ensures Rearranged(old(p[..]), p[..], l, h)
    ensures Parted(p[..], l, i, j, h) && CutInto(old(p[..]), l, l + 1, h - 1, p[..], i, j)
  {
    ghost var was, up: nat, down: nat := p[..], up0, down0;
    i, j := l + 1, h - 1;
    var more := true;
    while more
      invariant if more then Parting(was, p[..], l, h, i, j, up, down) && CutAlike(was, p[..], l, h, i, j)
                else Rearranged(was, p[..], l, h) && Parted(p[..], l, i, j, h) && CutInto(was, l, l + 1, h - 1, p[..], i, j)
      decreases more, h - i
    {
      more, i, j, up, down := PartitionTurn(p, l, h, i, j, up, down, was);
    }
  }

  /** The partition loop between two turns. */
  ghost predicate Parting(was: seq<Edge>, s: seq<Edge>, l: nat, h: nat, i: nat, j: nat, up: nat, down: nat) {
    && Rearranged(was, s, l, h) && Split(s, l, h, i, j) && i <= j + 1 && up <= j + 1
    && UpStop(s, l, h, i, up) && DownStop(s, l, h, j, down)
  }

  method PartitionTurn(p: array<Edge>, l: nat, h: nat, i: nat, j: nat, ghost up: nat, ghost down: nat, ghost was: seq<Edge>)
    returns (more: bool, i': nat, j': nat, ghost up': nat, ghost down': nat)
    requires h <= p.Length && Parting(was, p[..], l, h, i, j, up, down) && CutAlike(was, p[..], l, h, i, j)
    modifies p
    ensures more ==> i < i' <= h && Parting(was, p[..], l, h, i', j', up', down') && CutAlike(was, p[..], l, h, i', j')
    ensures !more ==> Rearranged(was, p[..], l, h) && Parted(p[..], l, i', j', h) && CutInto(was, l, l + 1, h - 1, p[..], i', j')
  {
    i', j' := ScanBoth(p, l, h, i, j, up, down);
    more, up', down' := i' < j', j', i';
    if more {
      i', j' := SwapAndMoveOn(p, l, h, i, j, i', j', was);
    } else {
      SplitParts(p[..], l, h, i', j');
      LastTurnCuts(was, p[..], l, h, i, j, i', j');
    }
  }

  method SwapAndMoveOn(p: array<Edge>, l: nat, h: nat, ghost i: nat, ghost j: nat, a: nat, b: nat, ghost was: seq<Edge>)
    returns (i': nat, j': nat)
    requires h <= p.Length && Split(p[..], l, h, a, b) && a < b && !Less(p[a], p[l]) && !Less(p[l], p[b]) && Rearranged(was, p[..], l, h)
    requires CutAlike(was, p[..], l, h, i, j) && ScansUp(p[..], l, i, a) && ScansDown(p[..], l, j, b)
    modifies p
    ensures i' == a + 1 && j' == b - 1 && Parting(was, p[..], l, h, i', j', b, a) && CutAlike(was, p[..], l, h, i', j')
  {
    ghost var s := p[..];
    SwapPair(p, l, h, a, b, was);
    TurnCuts(was, s, p[..], l, h, i, j, a, b);
    i', j' := a + 1, b - 1;
  }

  method ScanBoth(p: array<Edge>, l: nat, h: nat, i: nat, j: nat, ghost up: nat, ghost down: nat) returns (i': nat, j': nat)
    requires h <= p.Length && Split(p[..], l, h, i, j) && i <= j + 1 && up <= j + 1
    requires UpStop(p[..], l, h, i, up) && DownStop(p[..], l, h, j, down)
    ensures i <= i' <= j + 1 && l < j' <= j && i' <= j' + 1 && i' < h && Split(p[..], l, h, i', j')
    ensures !Less(p[i'], p[l]) && !Less(p[l], p[j']) && ScansUp(p[..], l, i, i') && ScansDown(p[..], l, j, j')
  {
    i' := ScanUp(p, l, h, i, j, up);
    assert i' - 1 > l ==> !Less(p[l], p[i' - 1]);
    j' := ScanDown(p, l, h, i', j, down);
  }

  lemma TurnCuts(was: seq<Edge>, s: seq<Edge>, t: seq<Edge>, l: nat, h: nat, i: nat, j: nat, i': nat, j': nat)
    requires CutAlike(was, s, l, h, i, j) && ScansUp(s, l, i, i') && ScansDown(s, l, j, j') && i' < j' < |s| && t == Swapped(s, i', j')
    ensures CutAlike(was, t, l, h, i' + 1, j' - 1)
  {
  }

  lemma LastTurnCuts(was: seq<Edge>, s: seq<Edge>, l: nat, h: nat, i: nat, j: nat, i': nat, j': nat)
    requires CutAlike(was, s, l, h, i, j) && ScansUp(s, l, i, i') && ScansDown(s, l, j, j') && i' >= j'
    ensures CutInto(was, l, l + 1, h - 1, s, i', j')
  {
  }

  /** One exchange of the partition loop. */
  method SwapPair(p: array<Edge>, l: nat, h: nat, i: nat, j: nat, ghost was: seq<Edge>)
    requires h <= p.Length && Split(p[..], l, h, i, j) && i < j && !Less(p[i], p[l]) && !Less(p[l], p[j])
    requires Rearranged(was, p[..], l, h)
    modifies p
    ensures Rearranged(was, p[..], l, h)
    ensures Split(p[..], l, h, i + 1, j - 1) && UpStop(p[..], l, h, i + 1, j) && DownStop(p[..], l, h, j - 1, i)
    ensures p[..] == Swapped(old(p[..]), i, j)
  {
    ghost var s := p[..];
    Exchange(p, l, h, i, j);
    Rearrange3(was, s, p[..], l, h);
  }

  // ----- quicksort -----

  /** Sorted up to runs of at most twelve, but for the skipped places. */
  ghost predicate Near(s: seq<Edge>, l: nat, h: nat, skip: set<nat>) {
    && l <= h <= |s|
    && (forall k :: k in skip ==> l <= k < h)
    && forall a, b :: l <= a < b < h && Less(s[b], s[a]) ==> b in skip || b - a < 12
  }

  /** The same while the part [l, h) of the region [l0, h0) is still to be done: whatever happens inside
      the part, no new inversion with the outside can arise. */
  ghost predicate NearAround(s: seq<Edge>, l0: nat, h0: nat, l: nat, h: nat, skip: set<nat>) {
    && l0 <= l <= h <= h0 <= |s|
    && (forall k :: k in skip ==> l0 <= k < l || h <= k < h0)
    && forall a, b :: l0 <= a < b < h0 && !(l <= a && b < h) && Less(s[b], s[a]) ==>
         b in skip || (b - a < 12 && !(l <= a < h) && !(l <= b < h))
  }

  /** Each skipped place does hold an edge that belongs further down. */
  ghost predicate Misplaced(s: seq<Edge>, l0: nat, skip: set<nat>) {
    forall k :: k in skip ==> k < |s| && exists a :: l0 <= a < k && Less(s[k], s[a])
  }

  lemma MisplacedKept(s: seq<Edge>, t: seq<Edge>, l0: nat, l: nat, h: nat, skip: set<nat>)
    requires Misplaced(s, l0, skip) && Rearranged(s, t, l, h) && l0 <= l && forall k :: k in skip ==> k < l || h <= k
    ensures Misplaced(t, l0, skip)
  {
    forall k | k in skip ensures exists a :: l0 <= a < k && Less(t[k], t[a]) {
      var a :| l0 <= a < k && Less(s[k], s[a]);
      var a' := Origin(t, s, l, h, a);
    }
  }

  lemma DividedKept(s: seq<Edge>, t: seq<Edge>, l: nat, i: nat, h: nat, x: nat, y: nat)
    requires Divided(s, l, i, h) && Rearranged(s, t, x, y) && l <= x <= y <= h && (y <= i || i <= x)
    ensures Divided(t, l, i, h)
  {
    forall a, b | l <= a < i <= b < h ensures !Less(t[b], t[a]) {
      var a' := Origin(s, t, x, y, a);
      var b' := Origin(s, t, x, y, b);
    }
  }

  /** One side of a partition is done, the other is still to do. */
  lemma SideDone(s: seq<Edge>, t: seq<Edge>, l0: nat, h0: nat, l: nat, h: nat, skip: set<nat>, i: nat, j: nat,
                 x: nat, y: nat, more: set<nat>, gap: set<nat>, l': nat, h': nat)
    requires NearAround(s, l0, h0, l, h, skip) && Rearranged(s, t, l, h)
    requires l < j <= i <= j + 1 && i < h && Divided(t, l, i, h) && Near(t, x, y, more)
    requires if gap == {} then Divided(t, l, j, h) else gap == {j} && j < i
    requires Sides(l, i, j, h, x, y, l', h')
    ensures NearAround(t, l0, h0, l', h', skip + more + gap)
  {
    var skip' := skip + more + gap;
    forall a, b | l0 <= a < b < h0 && !(l' <= a && b < h') && Less(t[b], t[a])
      ensures b in skip' || (b - a < 12 && !(l' <= a < h') && !(l' <= b < h'))
    {
      var a' := Origin(s, t, l, h, a);
      var b' := Origin(s, t, l, h, b);
    }
  }

  /** The state of the quicksort of [l0, h0) while [l, h) is still to be done. */
  ghost predicate SoFar(was: seq<Edge>, s: seq<Edge>, l0: nat, h0: nat, l: nat, h: nat, skip: set<nat>) {
    && Rearranged(was, s, l0, h0) && NearAround(s, l0, h0, l, h, skip) && Misplaced(s, l0, skip)
    && 2 * |skip| <= h0 - l0 - (h - l) && (h0 > l0 ==> h > l)
  }

  /** What the quicksort of [l, h) comes to. */
  ghost predicate Done(was: seq<Edge>, s: seq<Edge>, l: nat, h: nat, skip: set<nat>) {
    && Rearranged(was, s, l, h) && Near(s, l, h, skip) && Misplaced(s, l, skip)
    && (l < h ==> 2 * |skip| < h - l) && (l == h ==> skip == {})
  }

  method Quicksort(p: array<Edge>, l0: nat, n0: nat) returns (ghost skip: set<nat>)
    requires l0 + n0 <= p.Length
    modifies p
    ensures Done(old(p[..]), p[..], l0, l0 + n0, skip)
    decreases n0, 3
  {
    ghost var was := p[..];
    var l, n := l0, n0;
    skip := {};
    while n > 12
      invariant SoFar(was, p[..], l0, l0 + n0, l, l + n, skip)
      decreases n
    {
      l, n, skip := QuicksortStep(p, l0, n0, l, n, skip, was);
    }
    assert n0 == 0 ==> skip == {};
  }

  /** One turn of the quicksort loop: partition, recurse on the smaller side, go on with the larger. */
  method QuicksortStep(p: array<Edge>, ghost l0: nat, ghost n0: nat, l: nat, n: nat, ghost skip: set<nat>, ghost was: seq<Edge>)
    returns (l': nat, n': nat, ghost skip': set<nat>)
    requires l + n <= p.Length && n > 12 && SoFar(was, p[..], l0, l0 + n0, l, l + n, skip)
    modifies p
    ensures 0 < n' < n && SoFar(was, p[..], l0, l0 + n0, l', l' + n', skip')
    decreases n, 2
  {
    ghost var s, h0, h := p[..], l0 + n0, l + n;
    ghost var u, i, j, x, y, more;
    l', n', u, i, j, x, y, more := PartitionAndSort(p, l, n);
    ghost var h' := l' + n';
    skip' := StepDone(was, s, u, p[..], l0, h0, l, h, skip, i, j, x, y, more, l', h');
  }

  method PartitionAndSort(p: array<Edge>, l: nat, n: nat)
    returns (l': nat, n': nat, ghost u: seq<Edge>, ghost i: nat, ghost j: nat, ghost x: nat, ghost y: nat, ghost more: set<nat>)
    requires n > 12 && l + n <= p.Length
    modifies p
    ensures Rearranged(old(p[..]), u, l, l + n) && Parted(u, l, i, j, l + n)
    ensures 0 < n' < n && Done(u, p[..], x, y, more) && Sides(l, i, j, l + n, x, y, l', l' + n')
    decreases n, 1
  {
    var right, left := MedianPartition(p, l, l + n / 2, l + n - 1);
    u, i, j := p[..], right, left;
    l', n', x, y, more := SortSmaller(p, l, n, right, left);
  }

  /** One part is done, the other is left to do. */
  ghost predicate Sides(l: nat, i: nat, j: nat, h: nat, x: nat, y: nat, l': nat, h': nat) {
    (x == l && y == j && l' == i && h' == h) || (x == i && y == h && l' == l && h' == j)
  }

  method SortSmaller(p: array<Edge>, l: nat, n: nat, i: nat, j: nat)
    returns (l': nat, n': nat, ghost x: nat, ghost y: nat, ghost more: set<nat>)
    requires l < j <= i <= j + 1 && i < l + n <= p.Length
    modifies p
    ensures 0 < n' < n && Done(old(p[..]), p[..], x, y, more) && Sides(l, i, j, l + n, x, y, l', l' + n')
    decreases n, 0
  {
    if j - l < l + n - i {
      more := Quicksort(p, l, j - l);
      l', n', x, y := i, l + n - i, l, j;
    } else {
      more := Quicksort(p, i, l + n - i);
      l', n', x, y := l, j - l, i, l + n;
    }
  }

  /** Partitioned from s to u, then sorted on one side to t: the place left out counts if it is misplaced. */
  lemma StepDone(was: seq<Edge>, s: seq<Edge>, u: seq<Edge>, t: seq<Edge>, l0: nat, h0: nat, l: nat, h: nat, skip: set<nat>,
                 i: nat, j: nat, x: nat, y: nat, more: set<nat>, l': nat, h': nat) returns (skip': set<nat>)
    requires SoFar(was, s, l0, h0, l, h, skip)
    requires Rearranged(s, u, l, h) && Parted(u, l, i, j, h) && Done(u, t, x, y, more)
    requires Sides(l, i, j, h, x, y, l', h')
    ensures SoFar(was, t, l0, h0, l', h', skip')
  {
    var gap := if LeftOut(u, l, i, j) then {j} else {};
    skip' := skip + more + gap;
    PartsKept(u, t, l, h, i, j, x, y);
    Widen(u, t, x, y, l, h);
    Rearrange3(s, u, t, l, h);
    Widen(s, t, l, h, l0, h0);
    Rearrange3(was, s, t, l0, h0);
    SideDone(s, t, l0, h0, l, h, skip, i, j, x, y, more, gap, l', h');
    Sizes(skip, more, gap);
    MisplacedKept(s, t, l0, l, h, skip);
    MisplacedJoin(t, l0, l, x, skip, more, gap);
  }

  /** Sorting one side changes nothing about the place between. */
  lemma PartsKept(u: seq<Edge>, t: seq<Edge>, l: nat, h: nat, i: nat, j: nat, x: nat, y: nat)
    requires Parted(u, l, i, j, h) && Rearranged(u, t, x, y) && ((x == l && y == j) || (x == i && y == h))
    ensures Divided(t, l, i, h)
    ensures if LeftOut(u, l, i, j) then Misplaced(t, l, {j}) else Divided(t, l, j, h)
  {
    DividedKept(u, t, l, i, h, x, y);
    if LeftOut(u, l, i, j) {
      assert Misplaced(u, l, {j});
      MisplacedKept(u, t, l, x, y, {j});
    } else {
      DividedKept(u, t, l, j, h, x, y);
    }
  }

  lemma MisplacedJoin(t: seq<Edge>, l0: nat, l: nat, x: nat, skip: set<nat>, more: set<nat>, gap: set<nat>)
    requires l0 <= l <= x && Misplaced(t, l0, skip) && Misplaced(t, x, more) && Misplaced(t, l, gap)
    ensures Misplaced(t, l0, skip + more + gap)
  {
    var all := skip + more + gap;
    forall k | k in all ensures k < |t| && exists a :: l0 <= a < k && Less(t[k], t[a]) {
      var a :| (if k in skip then l0 else if k in more then x else l) <= a < k && Less(t[k], t[a]);
    }
  }

  lemma Sizes(a: set<nat>, b: set<nat>, c: set<nat>)
    ensures |a + b + c| <= |a| + |b| + |c|
  {
  }

  /** So the quicksort alone leaves a sorted array up to runs of at most twelve if it skips no place,
      and never a sorted one if it skips some. */
  lemma SkippedIsUnsorted(was: seq<Edge>, s: seq<Edge>, n: nat, skip: set<nat>)
    requires Done(was, s, 0, n, skip)
    ensures skip == {} ==> forall a, b :: 0 <= a < b < n && Less(s[b], s[a]) ==> b - a < 12
    ensures skip != {} ==> !Sorted(s, n)
  {
    if skip != {} {
      var k :| k in skip;
      var a :| 0 <= a < k && Less(s[k], s[a]);
    }
  }

  // ----- what the quicksort makes of a sorted array -----

  ghost predicate Ascending(s: seq<Edge>, n: nat)
    requires n <= |s|
  {
    forall a, b :: 0 <= a < b < n ==> Less(s[a], s[b])
  }

  lemma {:induction false} UpToIs(s: seq<Edge>, l: nat, i: nat, stop: nat)
    requires i <= stop < |s| && l < |s| && !Less(s[stop], s[l]) && forall k :: i <= k < stop ==> Less(s[k], s[l])
    ensures UpTo(s, l, i) == stop
    decreases stop - i
  {
    if i < stop { UpToIs(s, l, i + 1, stop); }
  }

  lemma {:induction false} DownToIs(s: seq<Edge>, l: nat, j: nat, stop: nat)
    requires 0 < stop <= j < |s| && l < |s| && !Less(s[l], s[stop]) && forall k :: stop < k <= j ==> Less(s[l], s[k])
    ensures DownTo(s, l, j) == stop
  {
    if stop < j { DownToIs(s, l, j - 1, stop); }
  }

  /** On an ascending array the scans of the first partition cross at once, and the place in the middle,
      now with the least edge, is left out below the pivot. */
  lemma AscendingLeavesOut(s: seq<Edge>, n: nat, m: nat)
    requires 12 < n <= |s| && Ascending(s, n) && m == n / 2
    ensures Partitioned(s, 0, m, n - 1) == Parts(Swapped(s, 0, m), m + 1, m) && LeftOut(Swapped(s, 0, m), 0, m + 1, m)
  {
    var t := Swapped(s, 0, m);
    assert MedianFronted(s, 0, m, n - 1) == t;
    UpToIs(t, 0, 1, m + 1);
    DownToIs(t, 0, n - 1, m);
  }

  /** Brings the median of first, middle and last to the front and partitions. */
  method MedianPartition(p: array<Edge>, l: nat, m: nat, last: nat) returns (i: nat, j: nat)
    requires l < m < last < p.Length
    modifies p
    ensures Rearranged(old(p[..]), p[..], l, last + 1)
    ensures Parted(p[..], l, i, j, last + 1) && PartedBy(old(p[..]), p[..], l, m, last, i, j)
  {
    ghost var was := p[..];
    ghost var up, down := MedianToFront(p, l, m, last);
    ghost var mid := p[..];
    i, j := PartitionFronted(p, l, m, last, was, up, down);
    Rearrange3(was, mid, p[..], l, last + 1);
  }

  method PartitionFronted(p: array<Edge>, l: nat, ghost m: nat, last: nat, ghost was: seq<Edge>, ghost up: nat, ghost down: nat)
    returns (i: nat, j: nat)
    requires last < p.Length && Fronted(was, p[..], l, m, last)
    requires UpStop(p[..], l, last + 1, l + 1, up) && DownStop(p[..], l, last + 1, last, down)
    modifies p
    ensures Rearranged(old(p[..]), p[..], l, last + 1) && Parted(p[..], l, i, j, last + 1) && PartedBy(was, p[..], l, m, last, i, j)
  {
    ghost var mid := p[..];
    i, j := Partition(p, l, last + 1, up, down);
    CutMedian(was, mid, p[..], l, m, last, i, j);
  }

  lemma CutMedian(was: seq<Edge>, mid: seq<Edge>, s: seq<Edge>, l: nat, m: nat, last: nat, i: nat, j: nat)
    requires Fronted(was, mid, l, m, last) && CutInto(mid, l, l + 1, last, s, i, j)
    ensures PartedBy(was, s, l, m, last, i, j)
  {
  }

  /** The first n edges come out sorted, none lost and none invented. */
  method SortEdges(p: array<Edge>, n: nat)
    requires n <= p.Length
    modifies p
    ensures Sorted(p[..], n) && multiset(p[..n]) == multiset(old(p[..n])) && p[n..] == old(p[n..])
    ensures forall a, b :: 0 <= a < b < n ==> p[a].y0 <= p[b].y0
  {
    ghost var was := p[..];
    ghost var skip := Quicksort(p, 0, n);
    ghost var mid := p[..];
    InsertionSort(p, n);
    Rearrange3(was, mid, p[..], 0, n);
    SameContents(was, p[..], 0, n);
    assert p[..n] == p[..][0..n] && old(p[..n]) == was[0..n];
  }
}
