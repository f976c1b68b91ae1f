// The box prefilter of oversampled glyphs: stbtt__h_prefilter and stbtt__v_prefilter of
// 3rdparty/stb/stb_truetype.h.
//
// Each pixel of a row (or column) becomes the average of itself and the kernel_width - 1 pixels before
// it, in place, with a running total and a ring buffer of eight slots.
module Prefilter {
  type Byte = x: nat | x < 256

  /** A pixel of a line; beyond either end everything is 0. */
  function At(line: seq<Byte>, i: int): Byte { if 0 <= i < |line| then line[i] else 0 }

  /** The sum of the k pixels that end at i. */
  function Window(line: seq<Byte>, i: int, k: nat): nat
    decreases k
  {
    if k == 0 then 0 else Sum(At(line, i), Window(line, i - 1, k - 1))
  }

  function Sum(a: nat, b: nat): nat { a + b }

  lemma {:induction false} WindowBound(line: seq<Byte>, i: int, k: nat)
    ensures Window(line, i, k) <= 255 * k
    decreases k
  {
    if k > 0 { WindowBound(line, i - 1, k - 1); }
  }

  lemma {:induction false} WindowBefore(line: seq<Byte>, i: int, k: nat)
    requires i < 0
    ensures Window(line, i, k) == 0
    decreases k
  {
    if k > 0 { WindowBefore(line, i - 1, k - 1); }
  }

  /** Moving the window by one brings one pixel in and drops one. */
  lemma {:induction false} WindowSlides(line: seq<Byte>, i: int, k: nat)
    requires k >= 1
    ensures Window(line, i, k) == Window(line, i - 1, k) + At(line, i) - At(line, i - k)
    decreases k
  {
    if k > 1 { WindowSlides(line, i - 1, k - 1); }
  }

  /** The floor average, always a byte. */
  function Average(line: seq<Byte>, i: int, k: nat): Byte
    requires k >= 1
  {
    WindowBound(line, i, k);
    DivBound(Window(line, i, k), k);
    Window(line, i, k) / k
  }

  lemma DivBound(a: nat, k: nat)
    requires k >= 1 && a <= 255 * k
    ensures 0 <= a / k <= 255
  {
    assert a == k * (a / k) + a % k;
    QuotientBound(a, k, a / k);
  }

  lemma QuotientBound(a: nat, k: nat, q: int)
    requires k >= 1 && k * q <= a < k * q + k && a <= 255 * k
    ensures 0 <= q <= 255
  {
    if q > 255 { MulLe(k, 256, q); }
    if q < 0 { MulLe(k, q + 1, 0); }
  }

  lemma MulLe(k: nat, p: int, q: int)
    requires p <= q
    ensures k * p <= k * q
  {
  }

  lemma ByteOfAverage(line: seq<Byte>, i: int, k: nat, total: nat)
    requires k >= 1 && total == Window(line, i, k)
    ensures (total / k) % 256 == Average(line, i, k)
  {
  }

  // ----- the ring buffer -----

  /** The slot that step m will read holds the pixel that leaves the window then. */
  ghost predicate SlotHolds(line: seq<Byte>, buffer: seq<Byte>, m: nat, k: nat)
    requires |buffer| == 8
  {
    buffer[m % 8] == At(line, m - k)
  }

  /** Before step i the total is the window before i and the slots of the next steps, up to `end`, are
      right. */
  ghost predicate Ring(line: seq<Byte>, buffer: seq<Byte>, total: nat, i: nat, k: nat, end: nat) {
    && |buffer| == 8 && 1 <= k <= 8
    && total == Window(line, i - 1, k)
    && forall m :: i <= m < end ==> SlotHolds(line, buffer, m, k)
  }

  lemma RingStart(line: seq<Byte>, buffer: seq<Byte>, k: nat)
    requires |buffer| == 8 && 1 <= k <= 8 && forall m :: 0 <= m < k ==> buffer[m] == 0
    ensures Ring(line, buffer, 0, 0, k, k)
  {
    WindowBefore(line, -1, k);
    forall m | 0 <= m < k ensures SlotHolds(line, buffer, m, k) {
      assert m % 8 == m;
    }
  }

  lemma SlotsApart(m: nat, n: nat)
    requires m < n < m + 8
    ensures m % 8 != n % 8
  {
  }

  /** A step that stores its pixel for the step that will drop it. */
  lemma RingStep(line: seq<Byte>, buffer: seq<Byte>, total: nat, i: nat, k: nat)
    requires Ring(line, buffer, total, i, k, i + k) && i < |line|
    ensures var next := total + line[i] - buffer[i % 8];
            0 <= next < 0x1_0000_0000 && next == Window(line, i, k)
            && Ring(line, buffer[(i + k) % 8 := line[i]], next, i + 1, k, i + 1 + k)
  {
    assert SlotHolds(line, buffer, i, k);
    WindowSlides(line, i, k);
    WindowBound(line, i, k);
    RingStore(line, buffer, i, k, buffer[(i + k) % 8 := line[i]]);
  }

  lemma RingStore(line: seq<Byte>, buffer: seq<Byte>, i: nat, k: nat, after: seq<Byte>)
    requires |buffer| == 8 && i < |line| && after == buffer[(i + k) % 8 := line[i]]
    requires 1 <= k <= 8 && forall m :: i <= m < i + k ==> SlotHolds(line, buffer, m, k)
    ensures forall m :: i + 1 <= m < i + 1 + k ==> SlotHolds(line, after, m, k)
  {
    forall m | i + 1 <= m < i + 1 + k ensures SlotHolds(line, after, m, k) {
      if m < i + k {
        assert SlotHolds(line, buffer, m, k);
        SlotsApart(m, i + k);
      }
    }
  }

  /** A step over a pixel that is 0. */
  lemma RingDrop(line: seq<Byte>, buffer: seq<Byte>, total: nat, i: nat, k: nat, end: nat)
    requires Ring(line, buffer, total, i, k, end) && i < end && At(line, i) == 0
    ensures var next := total - buffer[i % 8];
            0 <= next < 0x1_0000_0000 && next == Window(line, i, k) && Ring(line, buffer, next, i + 1, k, end)
  {
    assert SlotHolds(line, buffer, i, k);
    WindowSlides(line, i, k);
    WindowBound(line, i, k);
  }

  // ----- one row or column in place -----

  /** Where pixel i of a line lies. */
  function Place(base: nat, step: nat, i: nat): nat {
    if i == 0 then base else Place(base, step, i - 1) + step
  }

  lemma {:induction false} PlaceMono(base: nat, step: nat, i: nat, j: nat)
    requires i < j && step >= 1
    ensures Place(base, step, i) + step <= Place(base, step, j)
  {
    if i + 1 < j { PlaceMono(base, step, i, j - 1); }
  }

  lemma {:induction false} PlaceIs(base: nat, step: nat, i: nat)
    ensures Place(base, step, i) == base + i * step
  {
    if i > 0 {
      PlaceIs(base, step, i - 1);
      assert i * step == (i - 1) * step + step;
    }
  }

  predicate IsPlace(base: nat, step: nat, i: nat, d: nat) { Place(base, step, i) == d }

  ghost predicate OnLine(base: nat, step: nat, n: nat, d: nat) {
    exists i :: 0 <= i < n && IsPlace(base, step, i, d)
  }

  /** Pixel i of the line has value v. */
  ghost predicate Shows(s: seq<Byte>, base: nat, step: nat, i: nat, v: Byte) {
    Place(base, step, i) < |s| && s[Place(base, step, i)] == v
  }

  /** The pixels of a line before any change. */
  ghost predicate IsLine(s: seq<Byte>, base: nat, step: nat, line: seq<Byte>) {
    forall i :: 0 <= i < |line| ==> Shows(s, base, step, i, line[i])
  }

  /** What a line is to become. */
  function Averages(line: seq<Byte>, k: nat): (r: seq<Byte>)
    requires k >= 1
    ensures |r| == |line| && forall i :: 0 <= i < |line| ==> r[i] == Average(line, i, k)
  {
    seq(|line|, i => Average(line, i, k))
  }

  /** The pixels before i are as wanted, the others as they were. */
  ghost predicate Filtered(s: seq<Byte>, before: seq<Byte>, base: nat, step: nat, line: seq<Byte>, want: seq<Byte>, i: nat) {
    && |s| == |before| && |want| == |line|
    && (forall m :: 0 <= m < i && m < |line| ==> Shows(s, base, step, m, want[m]))
    && (forall m :: i <= m < |line| ==> Shows(s, base, step, m, line[m]))
    && (forall d :: 0 <= d < |s| && !OnLine(base, step, |line|, d) ==> s[d] == before[d])
  }

  lemma FilteredNext(s: seq<Byte>, before: seq<Byte>, base: nat, step: nat, line: seq<Byte>, want: seq<Byte>, i: nat)
    requires step >= 1 && i < |line| && Filtered(s, before, base, step, line, want, i)
    ensures Place(base, step, i) < |s|
    ensures Filtered(s[Place(base, step, i) := want[i]], before, base, step, line, want, i + 1)
  {
    assert Shows(s, base, step, i, line[i]);
    var t := s[Place(base, step, i) := want[i]];
    forall m | 0 <= m < i ensures Shows(t, base, step, m, want[m]) {
      assert Shows(s, base, step, m, want[m]);
      ShowsKept(s, base, step, m, i, want[m], want[i]);
    }
    forall m | i < m < |line| ensures Shows(t, base, step, m, line[m]) {
      assert Shows(s, base, step, m, line[m]);
      ShowsKept(s, base, step, m, i, line[m], want[i]);
    }
    assert IsPlace(base, step, i, Place(base, step, i));
  }

  lemma ShowsKept(s: seq<Byte>, base: nat, step: nat, m: nat, i: nat, v: Byte, x: Byte)
    requires step >= 1 && m != i && Shows(s, base, step, m, v) && Place(base, step, i) < |s|
    ensures Shows(s[Place(base, step, i) := x], base, step, m, v)
  {
    if m < i { PlaceMono(base, step, m, i); } else { PlaceMono(base, step, i, m); }
  }

  /** Between two pixels of a line: the ring buffer and the pixels. */
  ghost predicate Between(s: seq<Byte>, before: seq<Byte>, base: nat, step: nat, line: seq<Byte>, buffer: seq<Byte>, total: nat,
                          i: nat, k: nat, end: nat)
  {
    Ring(line, buffer, total, i, k, end) && Filtered(s, before, base, step, line, Averages(line, k), i)
  }

  /** The last k - 1 pixels are 0. */
  ghost predicate Padded(line: seq<Byte>, k: nat) {
    forall i :: 0 <= i < |line| && i + k > |line| ==> line[i] == 0
  }

  method Memset(buffer: array<Byte>, k: nat)
    requires k <= buffer.Length
    modifies buffer
    ensures forall m :: 0 <= m < k ==> buffer[m] == 0
    ensures forall m :: k <= m < buffer.Length ==> buffer[m] == old(buffer[m])
  {
    for i := 0 to k
      invariant forall m :: 0 <= m < i ==> buffer[m] == 0
      invariant forall m :: i <= m < buffer.Length ==> buffer[m] == old(buffer[m])
    {
      buffer[i] := 0;
    }
  }

  /** One line.  The total is an unsigned 32-bit integer, and the buffer is left as it is for the next
      line. */
  method FilterLine(pixels: array<Byte>, base: nat, step: nat, n: nat, k: nat, buffer: array<Byte>, ghost line: seq<Byte>)
    requires 1 <= k <= 8 && buffer.Length == 8 && pixels != buffer && step >= 1
    requires |line| == n && IsLine(pixels[..], base, step, line) && Padded(line, k)
    modifies pixels, buffer
    ensures Filtered(pixels[..], old(pixels[..]), base, step, line, Averages(line, k), n)
  {
    ghost var before := pixels[..];
    var safe: int := n - k;
    Memset(buffer, k);
    var total: nat := 0;
    RingStart(line, buffer[..], k);
    var i: nat := 0;
    while i <= safe
      invariant i <= safe + 1 || i == 0
      invariant Ring(line, buffer[..], total, i, k, i + k)
      invariant Filtered(pixels[..], before, base, step, line, Averages(line, k), i)
    {
      total := SlidePixel(pixels, base, step, i, k, buffer, total, line, before);
      i := i + 1;
    }
    FilterRest(pixels, base, step, n, k, buffer, line, before, i, total);
  }

  /** The second loop: the pixels that are left are 0, and nothing more is stored in the buffer. */
  method FilterRest(pixels: array<Byte>, base: nat, step: nat, n: nat, k: nat, buffer: array<Byte>, ghost line: seq<Byte>,
                    ghost before: seq<Byte>, start: nat, total0: nat)
    requires 1 <= k <= 8 && buffer.Length == 8 && pixels != buffer && step >= 1 && |line| == n && Padded(line, k)
    requires start <= n < start + k
    requires Between(pixels[..], before, base, step, line, buffer[..], total0, start, k, start + k)
    modifies pixels
    ensures Filtered(pixels[..], before, base, step, line, Averages(line, k), n)
  {
    ghost var ring := buffer[..];
    var i, total := start, total0;
    while i < n
      invariant start <= i <= n && buffer[..] == ring
      invariant Between(pixels[..], before, base, step, line, ring, total, i, k, start + k)
    {
      total := DropPixel(pixels, base, step, i, k, buffer, total, line, before, start + k, ring);
      i := i + 1;
    }
  }

  method SlidePixel(pixels: array<Byte>, base: nat, step: nat, i: nat, k: nat, buffer: array<Byte>, total: nat,
                    ghost line: seq<Byte>, ghost before: seq<Byte>) returns (total': nat)
    requires 1 <= k <= 8 && buffer.Length == 8 && pixels != buffer && step >= 1 && i < |line|
    requires Ring(line, buffer[..], total, i, k, i + k) && Filtered(pixels[..], before, base, step, line, Averages(line, k), i)
    modifies pixels, buffer
    ensures Ring(line, buffer[..], total', i + 1, k, i + 1 + k) && Filtered(pixels[..], before, base, step, line, Averages(line, k), i + 1)
  {
    ghost var s, b := pixels[..], buffer[..];
    PlaceIs(base, step, i);
    RingStep(line, b, total, i, k);
    FilteredNext(s, before, base, step, line, Averages(line, k), i);
    var at := base + i * step;
    total' := (total + pixels[at] - buffer[i % 8]) % 0x1_0000_0000;
    ByteOfAverage(line, i, k, total');
    buffer[(i + k) % 8] := pixels[at];
    pixels[at] := (total' / k) % 256;
    assert pixels[..] == s[Place(base, step, i) := Average(line, i, k)];
    assert buffer[..] == b[(i + k) % 8 := line[i]];
  }

  method DropPixel(pixels: array<Byte>, base: nat, step: nat, i: nat, k: nat, buffer: array<Byte>, total: nat,
                   ghost line: seq<Byte>, ghost before: seq<Byte>, ghost end: nat, ghost ring: seq<Byte>) returns (total': nat)
    requires 1 <= k <= 8 && buffer.Length == 8 && pixels != buffer && step >= 1 && i < |line| && i < end && line[i] == 0
    requires buffer[..] == ring && Between(pixels[..], before, base, step, line, ring, total, i, k, end)
    modifies pixels
    ensures buffer[..] == ring && Between(pixels[..], before, base, step, line, ring, total', i + 1, k, end)
  {
    ghost var s := pixels[..];
    PlaceIs(base, step, i);
    RingDrop(line, ring, total, i, k, end);
    FilteredNext(s, before, base, step, line, Averages(line, k), i);
    total' := (total - buffer[i % 8]) % 0x1_0000_0000;
    ByteOfAverage(line, i, k, total');
    pixels[base + i * step] := (total' / k) % 256;
    assert pixels[..] == s[Place(base, step, i) := Average(line, i, k)];
  }

  // ----- the whole image -----

  /** Pixel x of row y. */
  function Cell(x: nat, y: nat, stride: nat): nat { Place(x, stride, y) }

  /** Row y, or column x, of an image. */
  function Row(s: seq<Byte>, y: nat, w: nat, stride: nat): (r: seq<Byte>)
    requires forall x :: 0 <= x < w ==> Cell(x, y, stride) < |s|
    ensures |r| == w && forall x :: 0 <= x < w ==> r[x] == s[Cell(x, y, stride)]
  {
    seq(w, x requires 0 <= x < w => s[Cell(x, y, stride)])
  }

  function Column(s: seq<Byte>, x: nat, h: nat, stride: nat): (r: seq<Byte>)
    requires forall y :: 0 <= y < h ==> Cell(x, y, stride) < |s|
    ensures |r| == h && forall y :: 0 <= y < h ==> r[y] == s[Cell(x, y, stride)]
  {
    seq(h, y requires 0 <= y < h => s[Cell(x, y, stride)])
  }

  /** The image lies in the pixels. */
  ghost predicate Fits(s: seq<Byte>, w: nat, h: nat, stride: nat) {
    w <= stride && 1 <= stride && forall x, y :: 0 <= x < w && 0 <= y < h ==> Cell(x, y, stride) < |s|
  }

  lemma CellApart(x: nat, y: nat, x': nat, y': nat, stride: nat)
    requires x < stride && x' < stride && Cell(x, y, stride) == Cell(x', y', stride)
    ensures x == x' && y == y'
  {
    PlaceShift(x, stride, y);
    PlaceShift(x', stride, y');
    if y < y' { PlaceMono(0, stride, y, y'); }
    if y' < y { PlaceMono(0, stride, y', y); }
  }

  lemma {:induction false} PlaceShift(x: nat, stride: nat, y: nat)
    ensures Place(x, stride, y) == x + Place(0, stride, y)
  {
    if y > 0 { PlaceShift(x, stride, y - 1); }
  }

  lemma {:induction false} PlaceByOne(base: nat, i: nat)
    ensures Place(base, 1, i) == base + i
  {
    if i > 0 { PlaceByOne(base, i - 1); }
  }

  /** Rows before `rows` are averaged along the row, the others as before; what is no pixel of the
      image is as before. */
  ghost predicate RowsDone(s: seq<Byte>, before: seq<Byte>, w: nat, h: nat, stride: nat, k: nat, rows: nat)
    requires k >= 1 && Fits(before, w, h, stride)
  {
    && |s| == |before|
    && (forall x, y :: 0 <= x < w && 0 <= y < h ==>
          s[Cell(x, y, stride)] == if y < rows then Average(Row(before, y, w, stride), x, k) else before[Cell(x, y, stride)])
    && (forall d :: 0 <= d < |s| && !IsCell(d, w, h, stride) ==> s[d] == before[d])
  }

  ghost predicate IsCell(d: nat, w: nat, h: nat, stride: nat) {
    exists x, y :: 0 <= x < w && 0 <= y < h && Cell(x, y, stride) == d
  }

  ghost predicate ColumnsDone(s: seq<Byte>, before: seq<Byte>, w: nat, h: nat, stride: nat, k: nat, columns: nat)
    requires k >= 1 && Fits(before, w, h, stride)
  {
    && |s| == |before|
    && (forall x, y :: 0 <= x < w && 0 <= y < h ==>
          s[Cell(x, y, stride)] == if x < columns then Average(Column(before, x, h, stride), y, k) else before[Cell(x, y, stride)])
    && (forall d :: 0 <= d < |s| && !IsCell(d, w, h, stride) ==> s[d] == before[d])
  }

  lemma RowNext(s: seq<Byte>, t: seq<Byte>, before: seq<Byte>, w: nat, h: nat, stride: nat, k: nat, j: nat)
    requires k >= 1 && Fits(before, w, h, stride) && RowsDone(s, before, w, h, stride, k, j) && j < h
    requires Filtered(t, s, Cell(0, j, stride), 1, Row(before, j, w, stride), Averages(Row(before, j, w, stride), k), w)
    ensures RowsDone(t, before, w, h, stride, k, j + 1)
  {
    var row := Row(before, j, w, stride);
    forall x, y | 0 <= x < w && 0 <= y < h
      ensures t[Cell(x, y, stride)] == if y < j + 1 then Average(Row(before, y, w, stride), x, k) else before[Cell(x, y, stride)]
    {
      if y == j {
        PlaceByOne(Cell(0, j, stride), x);
        PlaceShift(x, stride, j);
        assert t[Place(Cell(0, j, stride), 1, x)] == Average(row, x, k);
      } else {
        forall i | 0 <= i < w ensures Place(Cell(0, j, stride), 1, i) != Cell(x, y, stride) {
          PlaceByOne(Cell(0, j, stride), i);
          PlaceShift(i, stride, j);
          if Cell(i, j, stride) == Cell(x, y, stride) { CellApart(i, j, x, y, stride); }
        }
        assert !OnLine(Cell(0, j, stride), 1, w, Cell(x, y, stride));
      }
    }
    forall d | 0 <= d < |t| && !IsCell(d, w, h, stride) ensures t[d] == before[d] {
      forall i | 0 <= i < w ensures Place(Cell(0, j, stride), 1, i) != d {
        PlaceByOne(Cell(0, j, stride), i);
        PlaceShift(i, stride, j);
        assert Cell(i, j, stride) != d;
      }
      assert !OnLine(Cell(0, j, stride), 1, w, d);
    }
  }

  lemma ColumnNext(s: seq<Byte>, t: seq<Byte>, before: seq<Byte>, w: nat, h: nat, stride: nat, k: nat, j: nat)
    requires k >= 1 && Fits(before, w, h, stride) && ColumnsDone(s, before, w, h, stride, k, j) && j < w
    requires Filtered(t, s, j, stride, Column(before, j, h, stride), Averages(Column(before, j, h, stride), k), h)
    ensures ColumnsDone(t, before, w, h, stride, k, j + 1)
  {
    var column := Column(before, j, h, stride);
    forall x, y | 0 <= x < w && 0 <= y < h
      ensures t[Cell(x, y, stride)] == if x < j + 1 then Average(Column(before, x, h, stride), y, k) else before[Cell(x, y, stride)]
    {
      if x == j {
        assert t[Place(j, stride, y)] == Average(column, y, k);
      } else {
        forall i | 0 <= i < h ensures Place(j, stride, i) != Cell(x, y, stride) {
          if Cell(j, i, stride) == Cell(x, y, stride) { CellApart(j, i, x, y, stride); }
        }
        assert !OnLine(j, stride, h, Cell(x, y, stride));
      }
    }
    forall d | 0 <= d < |t| && !IsCell(d, w, h, stride) ensures t[d] == before[d] {
      forall i | 0 <= i < h ensures Place(j, stride, i) != d {
        assert Cell(j, i, stride) != d;
      }
      assert !OnLine(j, stride, h, d);
    }
  }

  method HPrefilter(pixels: array<Byte>, w: nat, h: nat, stride: nat, k: nat)
    requires 1 <= k <= 8 && Fits(pixels[..], w, h, stride)
    requires forall y :: 0 <= y < h ==> Padded(Row(pixels[..], y, w, stride), k)
    modifies pixels
    ensures Fits(old(pixels[..]), w, h, stride) && RowsDone(pixels[..], old(pixels[..]), w, h, stride, k, h)
  {
    ghost var before := pixels[..];
    var buffer := new Byte[8](_ => 0);
    var base := 0;
    for j := 0 to h
      invariant base == Cell(0, j, stride) && RowsDone(pixels[..], before, w, h, stride, k, j)
      invariant fresh(buffer)
    {
      ghost var s, row := pixels[..], Row(before, j, w, stride);
      RowIsLine(s, before, w, h, stride, k, j);
      FilterLine(pixels, base, 1, w, k, buffer, row);
      RowNext(s, pixels[..], before, w, h, stride, k, j);
      base := base + stride;
    }
  }

  lemma RowIsLine(s: seq<Byte>, before: seq<Byte>, w: nat, h: nat, stride: nat, k: nat, j: nat)
    requires k >= 1 && Fits(before, w, h, stride) && RowsDone(s, before, w, h, stride, k, j) && j < h
    ensures IsLine(s, Cell(0, j, stride), 1, Row(before, j, w, stride))
  {
    forall i | 0 <= i < w ensures var d := Place(Cell(0, j, stride), 1, i); d < |s| && s[d] == before[Cell(i, j, stride)] {
      PlaceByOne(Cell(0, j, stride), i);
      PlaceShift(i, stride, j);
      assert Cell(i, j, stride) < |before|;
    }
  }

  method VPrefilter(pixels: array<Byte>, w: nat, h: nat, stride: nat, k: nat)
    requires 1 <= k <= 8 && Fits(pixels[..], w, h, stride)
    requires forall x :: 0 <= x < w ==> Padded(Column(pixels[..], x, h, stride), k)
    modifies pixels
    ensures Fits(old(pixels[..]), w, h, stride) && ColumnsDone(pixels[..], old(pixels[..]), w, h, stride, k, w)
  {
    ghost var before := pixels[..];
    var buffer := new Byte[8](_ => 0);
    for j := 0 to w
      invariant ColumnsDone(pixels[..], before, w, h, stride, k, j)
      invariant fresh(buffer)
    {
      ghost var s, column := pixels[..], Column(before, j, h, stride);
      assert forall i :: 0 <= i < h ==> Place(j, stride, i) == Cell(j, i, stride);
      FilterLine(pixels, j, stride, h, k, buffer, column);
      ColumnNext(s, pixels[..], before, w, h, stride, k, j);
    }
  }

  // ----- the averages in numbers -----

  /** The pixel j places before place i of a line, if the window of k pixels reaches it. */
  function Back(line: seq<Byte>, i: nat, k: nat, j: nat): nat {
    if j < k && j <= i < |line| then line[i - j] else 0
  }

  /** A pixel becomes the sum of itself and the k - 1 pixels before it, divided by k and rounded down;
      there is nothing before the line. */
  lemma AverageInFull(line: seq<Byte>, i: nat, k: nat)
    requires 1 <= k <= 8 && i < |line|
    ensures Average(line, i, k) as nat
         == (Back(line, i, k, 0) + Back(line, i, k, 1) + Back(line, i, k, 2) + Back(line, i, k, 3)
             + Back(line, i, k, 4) + Back(line, i, k, 5) + Back(line, i, k, 6) + Back(line, i, k, 7)) / k
  {
    WindowParts(line, i, k);
  }

  lemma WindowParts(line: seq<Byte>, i: nat, k: nat)
    requires 1 <= k <= 8 && i < |line|
    ensures Window(line, i, k)
         == Back(line, i, k, 0) + Back(line, i, k, 1) + Back(line, i, k, 2) + Back(line, i, k, 3)
            + Back(line, i, k, 4) + Back(line, i, k, 5) + Back(line, i, k, 6) + Back(line, i, k, 7)
  {
    WindowStep(line, i, k, 0);
    WindowStep(line, i, k, 1);
    WindowStep(line, i, k, 2);
    WindowStep(line, i, k, 3);
    WindowStep(line, i, k, 4);
    WindowStep(line, i, k, 5);
    WindowStep(line, i, k, 6);
    WindowStep(line, i, k, 7);
  }

  lemma WindowStep(line: seq<Byte>, i: nat, k: nat, j: nat)
    requires i < |line|
    ensures Window(line, i - j, if j < k then k - j else 0)
         == Back(line, i, k, j) + Window(line, i - j - 1, if j + 1 < k then k - j - 1 else 0)
  {
  }

  /** Pixel x of row y is at y stride + x. */
  lemma CellIs(x: nat, y: nat, stride: nat)
    ensures Cell(x, y, stride) == y * stride + x
  {
    PlaceIs(x, stride, y);
  }

  ghost predicate PixelIs(s: seq<Byte>, at: nat, v: nat) {
    at < |s| && s[at] == v
  }

  /** A row is averaged with the pixels to the left of each. */
  lemma RowPixel(t: seq<Byte>, before: seq<Byte>, w: nat, h: nat, stride: nat, k: nat, x: nat, y: nat)
    requires 1 <= k <= 8 && Fits(before, w, h, stride) && RowsDone(t, before, w, h, stride, k, h) && x < w && y < h
    ensures PixelIs(t, Cell(x, y, stride), Average(Row(before, y, w, stride), x, k))
    ensures forall j: nat :: j < k && j <= x ==> PixelIs(before, Cell(x - j, y, stride), Back(Row(before, y, w, stride), x, k, j))
  {
    forall j: nat | j < k && j <= x ensures PixelIs(before, Cell(x - j, y, stride), Back(Row(before, y, w, stride), x, k, j)) {
      assert Row(before, y, w, stride)[x - j] == before[Cell(x - j, y, stride)];
    }
  }

  /** A column with the pixels above each. */
  lemma ColumnPixel(t: seq<Byte>, before: seq<Byte>, w: nat, h: nat, stride: nat, k: nat, x: nat, y: nat)
    requires 1 <= k <= 8 && Fits(before, w, h, stride) && ColumnsDone(t, before, w, h, stride, k, w) && x < w && y < h
    ensures PixelIs(t, Cell(x, y, stride), Average(Column(before, x, h, stride), y, k))
    ensures forall j: nat :: j < k && j <= y ==> PixelIs(before, Cell(x, y - j, stride), Back(Column(before, x, h, stride), y, k, j))
  {
    forall j: nat | j < k && j <= y ensures PixelIs(before, Cell(x, y - j, stride), Back(Column(before, x, h, stride), y, k, j)) {
      assert Column(before, x, h, stride)[y - j] == before[Cell(x, y - j, stride)];
    }
  }
}
