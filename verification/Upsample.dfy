/** The two-by-two chroma upsampler of stb_image: the scalar row filter and its SSE2 form, which
    works on eight 16-bit lanes at a time. */
module Upsample {

  type byte = x: nat | x < 256

  function Tap(near: nat, far: nat): nat {
    3 * near + far
  }

  /** The vertical filter: three parts near row, one part far row. */
  function Column(near: seq<byte>, far: seq<byte>, i: nat): (c: nat)
    requires i < |near| && i < |far|
    ensures c <= 1020
  {
    Tap(near[i], far[i])
  }

  function Mix(cur: nat, neighbour: nat): nat {
    (3 * cur + neighbour + 8) / 16
  }

  /** The left and right output pixels of input pixel i: a quarter of the way to the neighbour on
      that side, and at the two ends of the row the input pixel itself. */
  function Left(near: seq<byte>, far: seq<byte>, i: nat): (p: nat)
    requires i < |near| == |far|
    ensures p < 256
  {
    if i == 0 then (Column(near, far, 0) + 2) / 4 else Mix(Column(near, far, i), Column(near, far, i - 1))
  }

  function Right(near: seq<byte>, far: seq<byte>, i: nat): (p: nat)
    requires i < |near| == |far|
    ensures p < 256
  {
    if i == |near| - 1 then (Column(near, far, i) + 2) / 4 else Mix(Column(near, far, i), Column(near, far, i + 1))
  }

  function Div4(x: nat): byte {
    x / 4 % 256
  }

  function Div16(x: nat): byte {
    x / 16 % 256
  }

  /** Of the two output pixels of input pixel i, those before place n are right. */
  ghost predicate PairOk(near: seq<byte>, far: seq<byte>, out: seq<byte>, n: nat, i: nat)
    requires i < |near| == |far| && 2 * |near| <= |out|
  {
    && (2 * i < n ==> out[2 * i] == Left(near, far, i))
    && (2 * i + 1 < n ==> out[2 * i + 1] == Right(near, far, i))
  }

  /** The first n output pixels are right and nothing behind the row has been written. */
  ghost predicate Done(near: seq<byte>, far: seq<byte>, before: seq<byte>, out: seq<byte>, n: nat) {
    && |near| == |far| && n <= 2 * |near| <= |out| == |before|
    && (forall i :: 0 <= i < |near| ==> PairOk(near, far, out, n, i))
    && (forall k :: 2 * |near| <= k < |out| ==> out[k] == before[k])
  }

  method WriteLeft(out: array<byte>, ghost near: seq<byte>, ghost far: seq<byte>, ghost before: seq<byte>, i: nat, p: byte)
    requires i < |near| == |far| && Done(near, far, before, out[..], 2 * i) && p == Left(near, far, i)
    modifies out
    ensures Done(near, far, before, out[..], 2 * i + 1)
  {
    ghost var was := out[..];
    out[2 * i] := p;
    ghost var now, n := out[..], 2 * i + 1;
    forall j | 0 <= j < |near| ensures PairOk(near, far, now, n, j) {
      assert PairOk(near, far, was, 2 * i, j);
    }
  }

  method WriteRight(out: array<byte>, ghost near: seq<byte>, ghost far: seq<byte>, ghost before: seq<byte>, i: nat, p: byte)
    requires i < |near| == |far| && Done(near, far, before, out[..], 2 * i + 1) && p == Right(near, far, i)
    modifies out
    ensures Done(near, far, before, out[..], 2 * i + 2)
  {
    ghost var was := out[..];
    out[2 * i + 1] := p;
    ghost var now, n := out[..], 2 * i + 2;
    forall j | 0 <= j < |near| ensures PairOk(near, far, now, n, j) {
      assert PairOk(near, far, was, 2 * i + 1, j);
    }
  }

  lemma DivExact(t: nat, u: nat)
    requires t <= 1020 && u <= 1020
    ensures Div16(3 * t + u + 8) == Mix(t, u) && Div4(t + 2) == (t + 2) / 4
  {
  }

  /** The two pixels between input pixels i - 1 and i. */
  method WriteBetween(out: array<byte>, ghost near: seq<byte>, ghost far: seq<byte>, ghost before: seq<byte>, i: nat, t0: nat, t1: nat)
    requires 1 <= i < |near| == |far| && t0 == Column(near, far, i - 1) && t1 == Column(near, far, i)
    requires Done(near, far, before, out[..], 2 * i - 1)
    modifies out
    ensures Done(near, far, before, out[..], 2 * i + 1)
  {
    BetweenAre(near, far, i, t0, t1);
    WriteRight(out, near, far, before, i - 1, Div16(3 * t0 + t1 + 8));
    WriteLeft(out, near, far, before, i, Div16(3 * t1 + t0 + 8));
  }

  lemma BetweenAre(near: seq<byte>, far: seq<byte>, i: nat, t0: nat, t1: nat)
    requires 1 <= i < |near| == |far| && t0 == Column(near, far, i - 1) && t1 == Column(near, far, i)
    ensures Div16(3 * t0 + t1 + 8) == Right(near, far, i - 1) && Div16(3 * t1 + t0 + 8) == Left(near, far, i)
  {
    DivExact(t0, t1);
    DivExact(t1, t0);
  }

  /** A row of one input pixel. */
  method OnePixel(out: array<byte>, near: seq<byte>, far: seq<byte>)
    requires |near| == |far| == 1 && out.Length >= 2
    modifies out
    ensures Done(near, far, old(out[..]), out[..], 2)
  {
    ghost var before := out[..];
    var p := Div4(Tap(near[0], far[0]) + 2);
    DivExact(Column(near, far, 0), 0);
    WriteLeft(out, near, far, before, 0, p);
    WriteRight(out, near, far, before, 0, p);
  }

  method ResampleRowHv2(out: array<byte>, near: seq<byte>, far: seq<byte>, w: nat)
    requires |near| == |far| == w >= 1 && out.Length >= 2 * w
    modifies out
    ensures Done(near, far, old(out[..]), out[..], 2 * w)
  {
    ghost var before := out[..];
    if w == 1 {
      OnePixel(out, near, far);
      return;
    }
    var t1 := Tap(near[0], far[0]);
    DivExact(t1, 0);
    WriteLeft(out, near, far, before, 0, Div4(t1 + 2));
    Between(out, near, far, before, w, 1, t1);
  }

  /** The loop over the pixel pairs from input pixel start on, and the last output pixel. */
  method Between(out: array<byte>, near: seq<byte>, far: seq<byte>, ghost before: seq<byte>, w: nat, start: nat, t: nat)
    requires |near| == |far| == w && 1 <= start <= w && t == Column(near, far, start - 1)
    requires Done(near, far, before, out[..], 2 * start - 1)
    modifies out
    ensures Done(near, far, before, out[..], 2 * w)
  {
    var t1 := t;
    for i := start to w
      invariant t1 == Column(near, far, i - 1)
      invariant Done(near, far, before, out[..], 2 * i - 1)
    {
      var t0 := t1;
      t1 := Tap(near[i], far[i]);
      WriteBetween(out, near, far, before, i, t0, t1);
    }
    LastIs(near, far, t1);
    WriteRight(out, near, far, before, w - 1, Div4(t1 + 2));
  }

  lemma LastIs(near: seq<byte>, far: seq<byte>, t: nat)
    requires |near| == |far| > 0 && t == Column(near, far, |near| - 1)
    ensures Div4(t + 2) == Right(near, far, |near| - 1)
  {
    DivExact(t, 0);
  }

  // ----- eight lanes of sixteen bits -----

  function AddLane(a: nat, b: nat): nat {
    (a + b) % 0x10000
  }

  /** Lane differences wrap around. */
  function SubLane(a: nat, b: nat): nat
    requires b < 0x10000
  {
    (a + 0x10000 - b) % 0x10000
  }

  function Shl2Lane(a: nat): nat {
    a * 4 % 0x10000
  }

  type m128 = v: seq<nat> | |v| == 8 && forall k :: 0 <= k < 8 ==> v[k] < 0x10000 witness [0, 0, 0, 0, 0, 0, 0, 0]

  /** Eight bytes, each widened to a lane. */
  function Load8(s: seq<byte>, i: nat): m128
    requires i + 8 <= |s|
  {
    seq(8, k requires 0 <= k < 8 => s[i + k])
  }

  function Add(a: m128, b: m128): m128 {
    seq(8, k requires 0 <= k < 8 => AddLane(a[k], b[k]))
  }

  function Sub(a: m128, b: m128): m128 {
    seq(8, k requires 0 <= k < 8 => SubLane(a[k], b[k]))
  }

  function Shl2(a: m128): m128 {
    seq(8, k requires 0 <= k < 8 => Shl2Lane(a[k]))
  }

  function Shr4(a: m128): m128 {
    seq(8, k requires 0 <= k < 8 => a[k] / 16)
  }

  /** The whole register shifted by one lane. */
  function LanesUp(a: m128): m128 {
    seq(8, k requires 0 <= k < 8 => if k == 0 then 0 else a[k - 1])
  }

  function LanesDown(a: m128): m128 {
    seq(8, k requires 0 <= k < 8 => if k == 7 then 0 else a[k + 1])
  }

  function Insert(a: m128, x: nat, k: nat): m128
    requires k < 8
  {
    a[k := x % 0x10000]
  }

  function Splat(x: nat): m128 {
    seq(8, _ => x % 0x10000)
  }

  /** Interleaves the low, or the high, four lanes of a and b. */
  function UnpackLo(a: m128, b: m128): m128 {
    [a[0], b[0], a[1], b[1], a[2], b[2], a[3], b[3]]
  }

  function UnpackHi(a: m128, b: m128): m128 {
    [a[4], b[4], a[5], b[5], a[6], b[6], a[7], b[7]]
  }

  /** A lane taken as a signed number and clamped to a byte. */
  function Saturate(x: nat): byte {
    if x >= 0x8000 then 0 else if x > 255 then 255 else x
  }

  function Pack(a: m128, b: m128): (r: seq<byte>)
    ensures |r| == 16 && forall k :: 0 <= k < 16 ==> r[k] == Saturate(if k < 8 then a[k] else b[k - 8])
  {
    seq<byte>(16, k requires 0 <= k < 16 => Saturate(if k < 8 then a[k] else b[k - 8]))
  }

  function Curr(near: seq<byte>, far: seq<byte>, i: nat): m128
    requires |near| == |far| && i + 8 <= |near|
  {
    Add(Shl2(Load8(near, i)), Sub(Load8(far, i), Load8(near, i)))
  }

  /** The neighbour lanes of one side: curr shifted by a lane with the missing pixel inserted. */
  function Phase(curr: m128, side: m128): m128 {
    Add(Sub(side, curr), Add(Shl2(curr), Splat(8)))
  }

  /** The sixteen output pixels of the eight input pixels from i on. */
  function Group(near: seq<byte>, far: seq<byte>, i: nat, t1: nat): seq<byte>
    requires |near| == |far| && i + 8 < |near|
  {
    var curr := Curr(near, far, i);
    var even := Phase(curr, Insert(LanesUp(curr), t1, 0));
    var odd := Phase(curr, Insert(LanesDown(curr), Tap(near[i + 8], far[i + 8]), 7));
    Pack(Shr4(UnpackLo(even, odd)), Shr4(UnpackHi(even, odd)))
  }

  /** The wrapped difference of the vertical pass is made good by the sum. */
  lemma CurrIsColumn(near: seq<byte>, far: seq<byte>, i: nat, k: nat)
    requires |near| == |far| && i + 8 <= |near| && k < 8
    ensures Curr(near, far, i)[k] == Column(near, far, i + k)
  {
    LaneTap(Load8(near, i), Load8(far, i), k);
  }

  lemma LaneTap(a: m128, b: m128, k: nat)
    requires k < 8 && a[k] < 256 && b[k] < 256
    ensures Add(Shl2(a), Sub(b, a))[k] == Tap(a[k], b[k])
  {
    CurrLane(a, b, k);
    ColumnLane(a[k], b[k]);
  }

  lemma CurrLane(a: m128, b: m128, k: nat)
    requires k < 8
    ensures Add(Shl2(a), Sub(b, a))[k] == AddLane(Shl2Lane(a[k]), SubLane(b[k], a[k]))
  {
  }

  lemma ColumnLane(n: byte, f: byte)
    ensures AddLane(Shl2Lane(n), SubLane(f, n)) == Tap(n, f)
  {
  }

  /** So is that of the horizontal pass: the lane ends up with the exact sum, which is below 2^14, so
      that neither the lane nor the saturation cuts anything off. */
  lemma PhaseIsMix(curr: m128, side: m128, k: nat)
    requires k < 8 && curr[k] <= 1020 && side[k] <= 1020
    ensures Phase(curr, side)[k] == 3 * curr[k] + side[k] + 8 < 0x4000
    ensures Saturate(Phase(curr, side)[k] / 16) == Mix(curr[k], side[k])
  {
    LaneSum(curr[k], side[k]);
    assert Phase(curr, side)[k] == AddLane(SubLane(side[k], curr[k]), AddLane(Shl2Lane(curr[k]), 8));
  }

  lemma LaneSum(c: nat, s: nat)
    requires c <= 1020 && s <= 1020
    ensures AddLane(SubLane(s, c), AddLane(Shl2Lane(c), 8)) == 3 * c + s + 8
  {
    assert AddLane(Shl2Lane(c), 8) == 4 * c + 8;
    assert SubLane(s, c) == if s >= c then s - c else s - c + 0x10000;
  }

  lemma Above(curr: m128, near: seq<byte>, far: seq<byte>, i: nat, t1: nat, k: nat)
    requires |near| == |far| && i + 8 < |near| && k < 8
    requires t1 == Column(near, far, if i == 0 then 0 else i - 1)
    requires k > 0 ==> curr[k - 1] == Column(near, far, i + k - 1)
    ensures Insert(LanesUp(curr), t1, 0)[k] == Column(near, far, if i + k == 0 then 0 else i + k - 1)
  {
    ColumnSmall(near, far, if i == 0 then 0 else i - 1);
  }

  lemma Below(curr: m128, near: seq<byte>, far: seq<byte>, i: nat, k: nat)
    requires |near| == |far| && i + 8 < |near| && k < 8
    requires k < 7 ==> curr[k + 1] == Column(near, far, i + k + 1)
    ensures Insert(LanesDown(curr), Tap(near[i + 8], far[i + 8]), 7)[k] == Column(near, far, i + k + 1)
  {
    ColumnSmall(near, far, i + 8);
  }

  lemma ColumnSmall(near: seq<byte>, far: seq<byte>, i: nat)
    requires i < |near| == |far|
    ensures Column(near, far, i) == Tap(near[i], far[i]) <= 1020
  {
  }

  /** At the start of the row the pixel mixes with itself. */
  lemma LeftIsMix(near: seq<byte>, far: seq<byte>, i: nat)
    requires i < |near| == |far|
    ensures Left(near, far, i) == Mix(Column(near, far, i), Column(near, far, if i == 0 then 0 else i - 1))
  {
    MixSelf(Column(near, far, i));
  }

  lemma MixSelf(t: nat)
    ensures Mix(t, t) == (t + 2) / 4
  {
    assert (4 * (t + 2)) / 16 == (t + 2) / 4;
  }

  lemma MixIsSides(near: seq<byte>, far: seq<byte>, i: nat)
    requires i + 1 < |near| == |far|
    ensures Mix(Column(near, far, i), Column(near, far, if i == 0 then 0 else i - 1)) == Left(near, far, i)
    ensures Mix(Column(near, far, i), Column(near, far, i + 1)) == Right(near, far, i)
  {
  }

  lemma GroupIsPixels(near: seq<byte>, far: seq<byte>, i: nat, t1: nat, k: nat)
    requires |near| == |far| && i + 8 < |near| && k < 8
    requires t1 == Column(near, far, if i == 0 then 0 else i - 1)
    ensures |Group(near, far, i, t1)| == 16
    ensures Group(near, far, i, t1)[2 * k] == Left(near, far, i + k)
    ensures Group(near, far, i, t1)[2 * k + 1] == Right(near, far, i + k)
  {
    var curr := Curr(near, far, i);
    var prev := Insert(LanesUp(curr), t1, 0);
    var next := Insert(LanesDown(curr), Tap(near[i + 8], far[i + 8]), 7);
    forall j | 0 <= j < 8 ensures curr[j] == Column(near, far, i + j) { CurrIsColumn(near, far, i, j); }
    Above(curr, near, far, i, t1, k);
    Below(curr, near, far, i, k);
    GroupLane(curr, prev, next, k);
    MixIsSides(near, far, i + k);
  }

  lemma GroupLane(curr: m128, prev: m128, next: m128, k: nat)
    requires k < 8 && curr[k] <= 1020 && prev[k] <= 1020 && next[k] <= 1020
    ensures var even, odd := Phase(curr, prev), Phase(curr, next);
            var r := Pack(Shr4(UnpackLo(even, odd)), Shr4(UnpackHi(even, odd)));
            r[2 * k] == Mix(curr[k], prev[k]) && r[2 * k + 1] == Mix(curr[k], next[k])
  {
    PhaseIsMix(curr, prev, k);
    PhaseIsMix(curr, next, k);
    Interleaved(Phase(curr, prev), Phase(curr, next), k);
  }

  lemma Interleaved(even: m128, odd: m128, k: nat)
    requires k < 8
    ensures var r := Pack(Shr4(UnpackLo(even, odd)), Shr4(UnpackHi(even, odd)));
            r[2 * k] == Saturate(even[k] / 16) && r[2 * k + 1] == Saturate(odd[k] / 16)
  {
    if k < 4 {
      assert UnpackLo(even, odd)[2 * k] == even[k] && UnpackLo(even, odd)[2 * k + 1] == odd[k];
    } else {
      assert UnpackHi(even, odd)[2 * k - 8] == even[k] && UnpackHi(even, odd)[2 * k - 7] == odd[k];
    }
  }

  ghost predicate GroupOk(outv: seq<byte>, near: seq<byte>, far: seq<byte>, i: nat, k: nat)
    requires |near| == |far| && i + 8 < |near| && |outv| == 16 && k < 8
  {
    outv[2 * k] == Left(near, far, i + k) && outv[2 * k + 1] == Right(near, far, i + k)
  }

  method WriteGroup(out: array<byte>, near: seq<byte>, far: seq<byte>, ghost before: seq<byte>, i: nat, t1: nat)
    requires |near| == |far| && i + 8 < |near| && t1 == Column(near, far, if i == 0 then 0 else i - 1)
    requires Done(near, far, before, out[..], 2 * i)
    modifies out
    ensures Done(near, far, before, out[..], 2 * i + 16)
  {
    var outv := Group(near, far, i, t1);
    forall k | 0 <= k < 8 ensures |outv| == 16 && GroupOk(outv, near, far, i, k) {
      GroupIsPixels(near, far, i, t1, k);
    }
    StoreGroup(out, outv, near, far, before, i);
  }

  method StoreGroup(out: array<byte>, outv: seq<byte>, ghost near: seq<byte>, ghost far: seq<byte>, ghost before: seq<byte>, i: nat)
    requires |near| == |far| && i + 8 < |near| && |outv| == 16
    requires forall k :: 0 <= k < 8 ==> GroupOk(outv, near, far, i, k)
    requires Done(near, far, before, out[..], 2 * i)
    modifies out
    ensures Done(near, far, before, out[..], 2 * i + 16)
  {
    ghost var was := out[..];
    forall k | 0 <= k < 16 { out[2 * i + k] := outv[k]; }
    ghost var now, n := out[..], 2 * i + 16;
    forall j | 0 <= j < |near| ensures PairOk(near, far, now, n, j) {
      assert PairOk(near, far, was, 2 * i, j);
      if i <= j < i + 8 {
        var k := j - i;
        assert GroupOk(outv, near, far, i, k);
        assert out[2 * i + 2 * k] == outv[2 * k] && out[2 * i + (2 * k + 1)] == outv[2 * k + 1];
      }
    }
  }

  /** The SSE2 row writes the same bytes as the scalar one, for every width. */
  method ResampleRowHv2Simd(out: array<byte>, near: seq<byte>, far: seq<byte>, w: nat)
    requires |near| == |far| == w >= 1 && out.Length >= 2 * w
    modifies out
    ensures Done(near, far, old(out[..]), out[..], 2 * w)
  {
    ghost var before := out[..];
    if w == 1 {
      OnePixel(out, near, far);
      return;
    }
    var i, t1, limit := 0, Tap(near[0], far[0]), (w - 1) / 8 * 8;
    ghost var g := 0;
    while i < limit
      invariant i == 8 * g && g <= (w - 1) / 8
      invariant t1 == Column(near, far, if i == 0 then 0 else i - 1)
      invariant Done(near, far, before, out[..], 2 * i)
    {
      WriteGroup(out, near, far, before, i, t1);
      t1 := Tap(near[i + 7], far[i + 7]);
      i, g := i + 8, g + 1;
    }
    Tail(out, near, far, before, w, i, t1);
  }

  /** The scalar rest of the row, from input pixel start on. */
  method Tail(out: array<byte>, near: seq<byte>, far: seq<byte>, ghost before: seq<byte>, w: nat, start: nat, t: nat)
    requires |near| == |far| == w && start < w && t == Column(near, far, if start == 0 then 0 else start - 1)
    requires Done(near, far, before, out[..], 2 * start)
    modifies out
    ensures Done(near, far, before, out[..], 2 * w)
  {
    var t1 := Tap(near[start], far[start]);
    FirstOfTail(near, far, start, t1, t);
    WriteLeft(out, near, far, before, start, Div16(3 * t1 + t + 8));
    Between(out, near, far, before, w, start + 1, t1);
  }

  lemma FirstOfTail(near: seq<byte>, far: seq<byte>, start: nat, t1: nat, t: nat)
    requires start < |near| == |far| && t == Column(near, far, if start == 0 then 0 else start - 1) && t1 == Column(near, far, start)
    ensures Div16(3 * t1 + t + 8) == Left(near, far, start)
  {
    DivExact(t1, t);
    LeftIsMix(near, far, start);
  }

  /** Done fixes the whole result, so two rows computed from the same input are the same. */
  lemma DoneDetermines(near: seq<byte>, far: seq<byte>, before: seq<byte>, out1: seq<byte>, out2: seq<byte>)
    requires Done(near, far, before, out1, 2 * |near|) && Done(near, far, before, out2, 2 * |near|)
    ensures out1 == out2
  {
    forall k | 0 <= k < |out1| ensures out1[k] == out2[k] {
      if k < 2 * |near| {
        assert PairOk(near, far, out1, 2 * |near|, k / 2) && PairOk(near, far, out2, 2 * |near|, k / 2);
      }
    }
  }

  /** Every output pixel in numbers: with weights 9, 3, 3 and 1 of the input pixel in the near and the far row
      and of its neighbour on that side in both, in sixteenths, rounded to the nearest; where there is no
      neighbour, with weights 3 and 1, in quarters. */
  lemma OutputPixel(near: seq<byte>, far: seq<byte>, before: seq<byte>, out: seq<byte>, j: nat)
    requires Done(near, far, before, out, 2 * |near|) && j < |out|
    ensures if j >= 2 * |near| then out[j] == before[j]
            else
              var i, side: int := j / 2, if j % 2 == 0 then j / 2 - 1 else j / 2 + 1;
              out[j] == if 0 <= side < |near| then Sixteenths(near[i], far[i], near[side], far[side]) else Quarters(near[i], far[i])
  {
    if j < 2 * |near| { assert PairOk(near, far, out, 2 * |near|, j / 2); }
  }

  function Sixteenths(a: nat, b: nat, c: nat, d: nat): nat { (9 * a + 3 * b + 3 * c + d + 8) / 16 }

  function Quarters(a: nat, b: nat): nat { (3 * a + b + 2) / 4 }
}
