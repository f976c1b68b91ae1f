// Adam7 de-interlacing: stbi__create_png_image of 3rdparty/stb/stb_image.h.
//
// An interlaced image is stored as seven smaller images; each pass scatters its pixels over a grid of
// its own into the full image.
module Adam7 {
  import opened Wrappers
  import opened PngFilter

  /** Origin and spacing of a pass. */
  datatype Pass = Pass(xorig: nat, yorig: nat, xspc: nat, yspc: nat)

  function PassOf(p: nat): Pass {
    match p
    case 0 => Pass(0, 0, 8, 8)
    case 1 => Pass(4, 0, 8, 8)
    case 2 => Pass(0, 4, 4, 8)
    case 3 => Pass(2, 0, 4, 4)
    case 4 => Pass(0, 2, 2, 4)
    case 5 => Pass(1, 0, 2, 2)
    case _ => Pass(0, 1, 1, 2)
  }

  /** The number of grid points of a pass along one axis, in 32-bit unsigned arithmetic. */
  function Size(n: nat, orig: nat, spc: nat): nat
    requires spc > 0
  {
    (n - orig + spc - 1) % 0x1_0000_0000 / spc
  }

  function Width(p: nat, w: nat): nat { Size(w, PassOf(p).xorig, PassOf(p).xspc) }

  function Height(p: nat, h: nat): nat { Size(h, PassOf(p).yorig, PassOf(p).yspc) }

  /** A pixel of a pass: its pass, column and row. */
  datatype Point = Point(p: nat, i: nat, j: nat)

  datatype Pixel = Pixel(x: nat, y: nat)

  function Dest(t: Point): Pixel {
    Pixel(t.i * PassOf(t.p).xspc + PassOf(t.p).xorig, t.j * PassOf(t.p).yspc + PassOf(t.p).yorig)
  }

  /** The pass that paints a pixel, by the place of the pixel in its 8 by 8 block. */
  function PassAt(x: nat, y: nat): nat {
    if y % 2 == 1 then 6
    else if x % 2 == 1 then 5
    else if y % 4 == 2 then 4
    else if x % 4 == 2 then 3
    else if y % 8 == 4 then 2
    else if x % 8 == 4 then 1
    else 0
  }

  function Source(q: Pixel): Point {
    var p := PassAt(q.x, q.y);
    Point(p, q.x / PassOf(p).xspc, q.y / PassOf(p).yspc)
  }

  /** The point lies on the grid of its pass over a w by h image. */
  predicate OnGrid(t: Point, w: nat, h: nat) {
    t.p < 7 && t.i < Width(t.p, w) && t.j < Height(t.p, h)
  }

  predicate Inside(q: Pixel, w: nat, h: nat) { q.x < w && q.y < h }

  /** The count of points along an axis is right, and the unsigned arithmetic does not wrap. */
  lemma SizeCounts(n: nat, orig: nat, spc: nat, i: nat)
    requires n <= 0x100_0000 && orig < spc && (spc == 1 || spc == 2 || spc == 4 || spc == 8)
    ensures i < Size(n, orig, spc) <==> i * spc + orig < n
  {
    assert (n - orig + spc - 1) % 0x1_0000_0000 == n - orig + spc - 1;
  }

  /** A grid point is painted inside the image, and only grid points are. */
  lemma GridIsInside(t: Point, w: nat, h: nat)
    requires t.p < 7 && w <= 0x100_0000 && h <= 0x100_0000
    ensures OnGrid(t, w, h) <==> Inside(Dest(t), w, h)
  {
    var a := PassOf(t.p);
    SizeCounts(w, a.xorig, a.xspc, t.i);
    SizeCounts(h, a.yorig, a.yspc, t.j);
  }

  /** No two points paint the same pixel. */
  lemma SourceOfDest(t: Point)
    requires t.p < 7
    ensures Source(Dest(t)) == t
  {
    match t.p {
      case 0 => AxisOfDest(t.i, 8, 0); AxisOfDest(t.j, 8, 0);
      case 1 => AxisOfDest(t.i, 8, 4); AxisOfDest(t.j, 8, 0);
      case 2 => AxisOfDest(t.i, 4, 0); AxisOfDest(t.j, 8, 4);
      case 3 => AxisOfDest(t.i, 4, 2); AxisOfDest(t.j, 4, 0);
      case 4 => AxisOfDest(t.i, 2, 0); AxisOfDest(t.j, 4, 2);
      case 5 => AxisOfDest(t.i, 2, 1); AxisOfDest(t.j, 2, 0);
      case _ => AxisOfDest(t.i, 1, 0); AxisOfDest(t.j, 2, 1);
    }
  }

  lemma AxisOfDest(i: nat, spc: nat, orig: nat)
    requires orig < spc && (spc == 1 || spc == 2 || spc == 4 || spc == 8)
    ensures (i * spc + orig) / spc == i && (i * spc + orig) % spc == orig
    ensures spc >= 2 ==> (i * spc + orig) % 2 == orig % 2
    ensures spc >= 4 ==> (i * spc + orig) % 4 == orig % 4
  {
    if spc == 1 {} else if spc == 2 { AxisOf2(i, orig); } else if spc == 4 { AxisOf4(i, orig); } else { AxisOf8(i, orig); }
  }

  lemma AxisOf2(i: nat, orig: nat)
    requires orig < 2
    ensures (i * 2 + orig) / 2 == i && (i * 2 + orig) % 2 == orig
  {
  }

  lemma AxisOf4(i: nat, orig: nat)
    requires orig < 4
    ensures (i * 4 + orig) / 4 == i && (i * 4 + orig) % 4 == orig && (i * 4 + orig) % 2 == orig % 2
  {
    AxisOf2(i * 2 + orig / 2, orig % 2);
  }

  lemma AxisOf8(i: nat, orig: nat)
    requires orig < 8
    ensures (i * 8 + orig) / 8 == i && (i * 8 + orig) % 8 == orig
    ensures (i * 8 + orig) % 4 == orig % 4 && (i * 8 + orig) % 2 == orig % 2
  {
    AxisOf4(i * 2 + orig / 4, orig % 4);
  }

  /** Every pixel is painted by some point. */
  lemma DestOfSource(q: Pixel)
    ensures Source(q).p < 7 && Dest(Source(q)) == q
  {
    AxisOfSource(q.x);
    AxisOfSource(q.y);
  }

  lemma AxisOfSource(x: nat)
    ensures x == x / 8 * 8 + x % 8 && x == x / 4 * 4 + x % 4 && x == x / 2 * 2 + x % 2
    ensures x % 8 % 4 == x % 4 && x % 4 % 2 == x % 2
  {
    ModOfSum(x / 8, 8, x % 8, 4);
    ModOfSum(x / 4, 4, x % 4, 2);
  }

  lemma ModOfSum(q: nat, n: nat, r: nat, m: nat)
    requires (n == 8 && m == 4) || (n == 4 && m == 2)
    ensures (n * q + r) % m == r % m
  {
  }

  /** The seven grids partition the image: painting maps the grid points of all passes one to one onto
      all pixels. */
  lemma Partition(q: Pixel, w: nat, h: nat)
    requires Inside(q, w, h) && w <= 0x100_0000 && h <= 0x100_0000
    ensures OnGrid(Source(q), w, h) && Dest(Source(q)) == q
    ensures forall t: Point :: OnGrid(t, w, h) && Dest(t) == q ==> t == Source(q)
  {
    DestOfSource(q);
    GridIsInside(Source(q), w, h);
    forall t: Point | OnGrid(t, w, h) && Dest(t) == q ensures t == Source(q) {
      SourceOfDest(t);
    }
  }

  // ----- the passes in numbers -----

  /** Some point of pass p paints the pixel. */
  ghost predicate IsOfPass(p: nat, q: Pixel) {
    exists i: nat, j: nat :: Dest(Point(p, i, j)) == q
  }

  /** Section 8.2 of the PNG Specification, Second Edition: the pixels of each pass, by their place in the
      8 by 8 blocks of the image. */
  lemma PixelsOfPass(q: Pixel)
    ensures IsOfPass(0, q) <==> q.x % 8 == 0 && q.y % 8 == 0
    ensures IsOfPass(1, q) <==> q.x % 8 == 4 && q.y % 8 == 0
    ensures IsOfPass(2, q) <==> q.x % 4 == 0 && q.y % 8 == 4
    ensures IsOfPass(3, q) <==> q.x % 4 == 2 && q.y % 4 == 0
    ensures IsOfPass(4, q) <==> q.x % 2 == 0 && q.y % 4 == 2
    ensures IsOfPass(5, q) <==> q.x % 2 == 1 && q.y % 2 == 0
    ensures IsOfPass(6, q) <==> q.y % 2 == 1
  {
    forall p | 0 <= p < 7 ensures IsOfPass(p, q) <==> PassAt(q.x, q.y) == p { IsOfPassAt(p, q); }
    Remainders(q.x);
    Remainders(q.y);
  }

  lemma IsOfPassAt(p: nat, q: Pixel)
    requires p < 7
    ensures IsOfPass(p, q) <==> PassAt(q.x, q.y) == p
  {
    DestOfSource(q);
    assert Dest(Point(Source(q).p, Source(q).i, Source(q).j)) == q;
    if IsOfPass(p, q) {
      var i: nat, j: nat :| Dest(Point(p, i, j)) == q;
      SourceOfDest(Point(p, i, j));
    }
  }

  lemma Remainders(x: nat)
    ensures x % 8 == 0 ==> x % 4 == 0
    ensures x % 8 == 4 ==> x % 4 == 0
    ensures x % 4 == 0 ==> x % 2 == 0 && (x % 8 == 0 || x % 8 == 4)
    ensures x % 4 == 2 ==> x % 2 == 0
    ensures x % 2 == 0 ==> x % 4 == 0 || x % 4 == 2
  {
  }

  /** The points of a pass are numbered from left to right and from top to bottom. */
  lemma NumberedInOrder(s: Point, t: Point)
    requires s.p == t.p < 7
    ensures s.i < t.i <==> Dest(s).x < Dest(t).x
    ensures s.j < t.j <==> Dest(s).y < Dest(t).y
  {
    var a := PassOf(s.p);
    AlongAxis(s.i, t.i, a.xspc, a.xorig);
    AlongAxis(s.j, t.j, a.yspc, a.yorig);
  }

  lemma AlongAxis(i: nat, j: nat, spc: nat, orig: nat)
    requires spc == 1 || spc == 2 || spc == 4 || spc == 8
    ensures i < j <==> i * spc + orig < j * spc + orig
  {
  }

  // ----- painting -----

  /** The order of painting. */
  predicate Earlier(s: Point, t: Point) {
    s.p < t.p || (s.p == t.p && (s.j < t.j || (s.j == t.j && s.i < t.i)))
  }

  /** The number of a pixel in an image of width w. */
  function Index(x: nat, y: nat, w: nat): nat { Off(y, w) + x }

  lemma IndexInjective(q: Pixel, r: Pixel, w: nat)
    requires q.x < w && r.x < w && Index(q.x, q.y, w) == Index(r.x, r.y, w)
    ensures q == r
  {
    if q.y < r.y { OffMono(q.y, r.y, w); }
    if r.y < q.y { OffMono(r.y, q.y, w); }
  }

  lemma IndexBound(x: nat, y: nat, w: nat, h: nat)
    requires x < w && y < h
    ensures Index(x, y, w) < Off(h, w)
  {
    OffMono(y, h, w);
  }

  lemma IndexOffset(x: nat, y: nat, w: nat, ob: nat)
    ensures y * w * ob + x * ob == Off(Index(x, y, w), ob) && (y * w + x) * ob == Off(Index(x, y, w), ob)
  {
    OffIsProduct(y, w);
    OffIsProduct(Index(x, y, w), ob);
    Distribute(y * w, x, ob);
  }

  lemma Distribute(a: nat, b: nat, c: nat)
    ensures (a + b) * c == a * c + b * c
  {
  }

  lemma PixelFits(x: nat, y: nat, w: nat, h: nat, ob: nat)
    requires x < w && y < h
    ensures y * w * ob + x * ob == Off(Index(x, y, w), ob) && (y * w + x) * ob == Off(Index(x, y, w), ob)
    ensures Off(Index(x, y, w), ob) + ob <= Off(Off(h, w), ob)
  {
    IndexOffset(x, y, w, ob);
    IndexBound(x, y, w, h);
    OffMono(Index(x, y, w), Off(h, w), ob);
  }

  /** Pixel t of one image is pixel s of the other. */
  ghost predicate SamePixel(final: seq<byte>, t: nat, img: seq<byte>, s: nat, ob: nat) {
    && Off(t, ob) + ob <= |final| && Off(s, ob) + ob <= |img|
    && final[Off(t, ob)..Off(t, ob) + ob] == img[Off(s, ob)..Off(s, ob) + ob]
  }

  /** A pixel that is due was painted once, from its point; one that is not due was not painted. */
  ghost predicate Cell(final: seq<byte>, count: seq<nat>, images: seq<seq<byte>>, w: nat, ob: nat, q: Pixel, now: Point) {
    var s, t := Source(q), Index(q.x, q.y, w);
    && s.p < |images| && t < |count|
    && if Earlier(s, now) then count[t] == 1 && SamePixel(final, t, images[s.p], Index(s.i, s.j, Width(s.p, w)), ob)
       else count[t] == 0
  }

  ghost predicate Painted(final: seq<byte>, count: seq<nat>, images: seq<seq<byte>>, w: nat, h: nat, ob: nat, now: Point) {
    && |images| == 7 && |count| == Off(h, w)
    && forall q: Pixel :: Inside(q, w, h) ==> Cell(final, count, images, w, ob, q, now)
  }

  /** Nothing but pixel t changed. */
  ghost predicate KeptOutside(final: seq<byte>, final': seq<byte>, t: nat, ob: nat) {
    |final'| == |final| && forall k :: 0 <= k < |final| && !(Off(t, ob) <= k < Off(t, ob) + ob) ==> final'[k] == final[k]
  }

  lemma PaintedNext(final: seq<byte>, count: seq<nat>, images: seq<seq<byte>>, w: nat, h: nat, ob: nat, now: Point, final': seq<byte>, d: Pixel)
    requires Painted(final, count, images, w, h, ob, now) && OnGrid(now, w, h) && w <= 0x100_0000 && h <= 0x100_0000 && d == Dest(now)
    requires SamePixel(final', Index(d.x, d.y, w), images[now.p], Index(now.i, now.j, Width(now.p, w)), ob)
    requires KeptOutside(final, final', Index(d.x, d.y, w), ob)
    ensures Index(d.x, d.y, w) < |count|
    ensures Painted(final', count[Index(d.x, d.y, w) := count[Index(d.x, d.y, w)] + 1], images, w, h, ob, now.(i := now.i + 1))
  {
    var t := Index(d.x, d.y, w);
    GridIsInside(now, w, h);
    SourceOfDest(now);
    assert Cell(final, count, images, w, ob, d, now);
    forall q: Pixel | Inside(q, w, h) ensures Cell(final', count[t := count[t] + 1], images, w, ob, q, now.(i := now.i + 1)) {
      if q != d { CellKept(final, count, images, w, ob, now, final', q, count[t := count[t] + 1], d); }
    }
  }

  lemma CellKept(final: seq<byte>, count: seq<nat>, images: seq<seq<byte>>, w: nat, ob: nat, now: Point, final': seq<byte>, q: Pixel,
                 count': seq<nat>, d: Pixel)
    requires Cell(final, count, images, w, ob, q, now) && q.x < w && now.p < 7 && d == Dest(now) && q != d && d.x < w
    requires var t := Index(d.x, d.y, w);
             t < |count| && count' == count[t := count[t] + 1] && KeptOutside(final, final', t, ob)
    ensures Cell(final', count', images, w, ob, q, now.(i := now.i + 1))
  {
    var t, u := Index(d.x, d.y, w), Index(q.x, q.y, w);
    DueKept(q, now);
    if t == u { IndexInjective(q, d, w); }
    if Earlier(Source(q), now) {
      var s := Source(q);
      SamePixelKept(final, final', t, u, images[s.p], Index(s.i, s.j, Width(s.p, w)), ob);
    }
  }

  lemma DueKept(q: Pixel, now: Point)
    requires now.p < 7 && q != Dest(now)
    ensures Earlier(Source(q), now.(i := now.i + 1)) <==> Earlier(Source(q), now)
  {
    DestOfSource(q);
    OrderStep(Source(q), now);
  }

  lemma OrderStep(s: Point, now: Point)
    requires s != now
    ensures Earlier(s, now.(i := now.i + 1)) <==> Earlier(s, now)
  {
  }

  lemma SamePixelKept(final: seq<byte>, final': seq<byte>, t: nat, u: nat, img: seq<byte>, s: nat, ob: nat)
    requires SamePixel(final, u, img, s, ob) && t != u && KeptOutside(final, final', t, ob)
    ensures SamePixel(final', u, img, s, ob)
  {
    if t < u { OffMono(t, u, ob); } else { OffMono(u, t, ob); }
    assert final'[Off(u, ob)..Off(u, ob) + ob] == final[Off(u, ob)..Off(u, ob) + ob];
  }

  /** At the end of a row the next row is due, and at the end of a pass the next pass. */
  lemma PaintedTurn(final: seq<byte>, count: seq<nat>, images: seq<seq<byte>>, w: nat, h: nat, ob: nat, now: Point, next: Point)
    requires Painted(final, count, images, w, h, ob, now) && w <= 0x100_0000 && h <= 0x100_0000
    requires || (now.i >= Width(now.p, w) && next == Point(now.p, 0, now.j + 1))
             || (now.i == 0 && now.j >= Height(now.p, h) && next == Point(now.p + 1, 0, 0))
             || (now.i == 0 && Width(now.p, w) == 0 && next == Point(now.p + 1, 0, 0))
    ensures Painted(final, count, images, w, h, ob, next)
  {
    forall q: Pixel | Inside(q, w, h) ensures Cell(final, count, images, w, ob, q, next) {
      DestOfSource(q);
      GridIsInside(Source(q), w, h);
      assert Cell(final, count, images, w, ob, q, now);
    }
  }

  /** One memcpy. */
  method CopyPixel(final: array<byte>, dst: nat, img: seq<byte>, src: nat, ob: nat)
    requires dst + ob <= final.Length && src + ob <= |img|
    modifies final
    ensures final[dst..dst + ob] == img[src..src + ob]
    ensures forall k :: 0 <= k < final.Length && !(dst <= k < dst + ob) ==> final[k] == old(final[k])
  {
    for k := 0 to ob
      invariant final[dst..dst + k] == img[src..src + k]
      invariant forall m :: 0 <= m < final.Length && !(dst <= m < dst + ob) ==> final[m] == old(final[m])
    {
      final[dst + k] := img[src + k];
    }
  }

  /** Copies pixel (i, j) of an x by y image to pixel (out_x, out_y) of a w by h one. */
  method CopyTo(final: array<byte>, out_x: nat, out_y: nat, w: nat, ghost h: nat, img: seq<byte>, i: nat, j: nat, x: nat, ghost y: nat,
                ob: nat)
    requires out_x < w && out_y < h && i < x && j < y
    requires final.Length == Off(Off(h, w), ob) && |img| == Off(Off(y, x), ob)
    modifies final
    ensures SamePixel(final[..], Index(out_x, out_y, w), img, Index(i, j, x), ob)
    ensures KeptOutside(old(final[..]), final[..], Index(out_x, out_y, w), ob)
  {
    PixelFits(out_x, out_y, w, h, ob);
    PixelFits(i, j, x, y, ob);
    CopyPixel(final, out_y * w * ob + out_x * ob, img, (j * x + i) * ob, ob);
  }

  /** Paints one pixel of a pass. */
  method PaintPixel(final: array<byte>, img: seq<byte>, p: nat, i: nat, j: nat, x: nat, w: nat, h: nat, ob: nat,
                    ghost count: seq<nat>, ghost images: seq<seq<byte>>) returns (ghost count': seq<nat>)
    requires OnGrid(Point(p, i, j), w, h) && x == Width(p, w) && w <= 0x100_0000 && h <= 0x100_0000
    requires final.Length == Off(Off(h, w), ob) && |img| == Off(Off(Height(p, h), x), ob)
    requires Painted(final[..], count, images, w, h, ob, Point(p, i, j)) && images[p] == img
    modifies final
    ensures Painted(final[..], count', images, w, h, ob, Point(p, i + 1, j))
  {
    ghost var was := final[..];
    var out_y, out_x := j * PassOf(p).yspc + PassOf(p).yorig, i * PassOf(p).xspc + PassOf(p).xorig;
    GridIsInside(Point(p, i, j), w, h);
    CopyTo(final, out_x, out_y, w, h, img, i, j, x, Height(p, h), ob);
    PaintedNext(was, count, images, w, h, ob, Point(p, i, j), final[..], Pixel(out_x, out_y));
    ghost var t := Index(out_x, out_y, w);
    count' := count[t := count[t] + 1];
  }

  /** Paints one pass. */
  method PaintPass(final: array<byte>, img: seq<byte>, p: nat, x: nat, y: nat, w: nat, h: nat, ob: nat,
                   ghost count: seq<nat>, ghost images: seq<seq<byte>>) returns (ghost count': seq<nat>)
    requires p < 7 && x == Width(p, w) && y == Height(p, h) && w <= 0x100_0000 && h <= 0x100_0000
    requires final.Length == Off(Off(h, w), ob) && |img| == Off(Off(y, x), ob)
    requires Painted(final[..], count, images, w, h, ob, Point(p, 0, 0)) && images[p] == img
    modifies final
    ensures Painted(final[..], count', images, w, h, ob, Point(p + 1, 0, 0))
  {
    count' := count;
    for j := 0 to y
      invariant Painted(final[..], count', images, w, h, ob, Point(p, 0, j))
    {
      for i := 0 to x
        invariant Painted(final[..], count', images, w, h, ob, Point(p, i, j))
      {
        count' := PaintPixel(final, img, p, i, j, x, w, h, ob, count', images);
      }
      PaintedTurn(final[..], count', images, w, h, ob, Point(p, x, j), Point(p, 0, j + 1));
    }
    PaintedTurn(final[..], count', images, w, h, ob, Point(p, 0, y), Point(p + 1, 0, 0));
  }

  // ----- the whole interlaced image -----

  /** Bytes of filtered data that a pass takes. */
  function PassLength(p: nat, w: nat, h: nat, fb: nat): nat {
    if Width(p, w) == 0 || Height(p, h) == 0 then 0 else Off(Height(p, h), Off(Width(p, w), fb) + 1)
  }

  /** The rows of one pass; none for an empty pass, which takes no data. */
  function DecodePass(raw: seq<byte>, p: nat, w: nat, h: nat, fb: nat): Option<seq<seq<byte>>>
    requires fb >= 1
  {
    if Width(p, w) == 0 || Height(p, h) == 0 then Some([])
    else Decode(raw, Height(p, h), Off(Width(p, w), fb), fb, Zeros(Off(Width(p, w), fb)))
  }

  /** The rows of the passes from p on. */
  function DecodePasses(raw: seq<byte>, p: nat, w: nat, h: nat, fb: nat): Option<seq<seq<seq<byte>>>>
    requires fb >= 1 && p <= 7
    decreases 7 - p
  {
    if p == 7 then Some([])
    else
      var d := DecodePass(raw, p, w, h, fb);
      if d.None? || |raw| < PassLength(p, w, h, fb) then None
      else
        var rest := DecodePasses(raw[PassLength(p, w, h, fb)..], p + 1, w, h, fb);
        if rest.None? then None else Some([d.value] + rest.value)
  }

  /** The image of a pass shows its decoded rows, if there are any. */
  ghost predicate PassShown(img: seq<byte>, rows: seq<seq<byte>>, p: nat, w: nat, f: Format) {
    rows != [] ==>
      && (f.bytes == 2 ==> |img| % 2 == 0)
      && ImageSoFar(Ordered(img, f.bytes), rows, Width(p, w), f.fb, f.ob, Off(Width(p, w), f.ob))
  }

  ghost predicate PassesShown(images: seq<seq<byte>>, passes: seq<seq<seq<byte>>>, w: nat, f: Format) {
    |passes| <= |images| && forall p :: 0 <= p < |passes| ==> PassShown(images[p], passes[p], p, w, f)
  }

  ghost function After(passes: seq<seq<seq<byte>>>, d: Option<seq<seq<seq<byte>>>>): Option<seq<seq<seq<byte>>>> {
    if d.None? then None else Some(passes + d.value)
  }

  lemma SizeOfPass(y: nat, x: nat, ob: nat)
    ensures Off(y, Off(x, ob)) == Off(Off(y, x), ob)
  {
    OffIsProduct(y, Off(x, ob));
    OffIsProduct(x, ob);
    OffIsProduct(Off(y, x), ob);
    OffIsProduct(y, x);
    Associate(y, x, ob);
  }

  lemma Associate(a: nat, b: nat, c: nat)
    ensures a * (b * c) == a * b * c
  {
  }

  /** One pass, if it has pixels: decode it, paint it, skip its data. */
  method DecodeAndPaint(final: array<byte>, raw: seq<byte>, p: nat, f: Format, w: nat, h: nat,
                        ghost count: seq<nat>, ghost images: seq<seq<byte>>, ghost passes: seq<seq<seq<byte>>>)
    returns (ok: bool, rest: seq<byte>, ghost count': seq<nat>, ghost images': seq<seq<byte>>, ghost passes': seq<seq<seq<byte>>>)
    requires f.Valid() && p < 7 && |passes| == p && w <= 0x100_0000 && h <= 0x100_0000
    requires final.Length == Off(Off(h, w), f.ob)
    requires Painted(final[..], count, images, w, h, f.ob, Point(p, 0, 0))
    requires PassesShown(images, passes, w, f)
    modifies final
    ensures ok <==> DecodePass(raw, p, w, h, f.fb).Some?
    ensures ok ==> |raw| >= PassLength(p, w, h, f.fb) && rest == raw[PassLength(p, w, h, f.fb)..]
    ensures ok ==> passes' == passes + [DecodePass(raw, p, w, h, f.fb).value]
    ensures ok ==> Painted(final[..], count', images', w, h, f.ob, Point(p + 1, 0, 0))
    ensures ok ==> PassesShown(images', passes', w, f)
  {
    var x, y := Width(p, w), Height(p, h);
    rest, count', images', passes' := raw, count, images, passes;
    if x != 0 && y != 0 {
      var img;
      ok, img := DecodeImage(raw, p, f, w, h);
      if !ok { return; }
      images', passes' := images[p := img], passes + [DecodePass(raw, p, w, h, f.fb).value];
      PaintedElsewhere(final[..], count, images, w, h, f.ob, p, img);
      count' := PaintPass(final, img, p, x, y, w, h, f.ob, count, images');
      rest := AfterPass(raw, p, x, y, w, h, f.fb);
    } else {
      ok := true;
      passes' := passes + [[]];
      PaintedTurn(final[..], count, images, w, h, f.ob, Point(p, 0, 0), Point(p + 1, 0, 0));
    }
  }

  /** The data behind that of a pass. */
  method AfterPass(raw: seq<byte>, ghost p: nat, x: nat, y: nat, ghost w: nat, ghost h: nat, fb: nat) returns (rest: seq<byte>)
    requires x == Width(p, w) != 0 && y == Height(p, h) != 0 && |raw| >= PassLength(p, w, h, fb)
    ensures rest == raw[PassLength(p, w, h, fb)..]
  {
    var img_len := Times(x, fb);
    img_len := Times(y, img_len + 1);
    rest := raw[img_len..];
  }

  method DecodeImage(raw: seq<byte>, p: nat, f: Format, w: nat, h: nat) returns (ok: bool, img: seq<byte>)
    requires f.Valid() && p < 7 && Width(p, w) != 0 && Height(p, h) != 0
    ensures ok <==> DecodePass(raw, p, w, h, f.fb).Some?
    ensures ok ==> |raw| >= PassLength(p, w, h, f.fb) && PassShown(img, DecodePass(raw, p, w, h, f.fb).value, p, w, f)
    ensures |img| == Off(Off(Height(p, h), Width(p, w)), f.ob)
  {
    var out;
    ok, out := CreatePngImageRaw(raw, f, Width(p, w), Height(p, h));
    img := out[..];
    SizeOfPass(Height(p, h), Width(p, w), f.ob);
    NonEmptyPass(raw, p, w, h, f.fb);
  }

  lemma NonEmptyPass(raw: seq<byte>, p: nat, w: nat, h: nat, fb: nat)
    requires fb >= 1 && Width(p, w) != 0 && Height(p, h) != 0
    ensures var n := Off(Width(p, w), fb);
            DecodePass(raw, p, w, h, fb) == Decode(raw, Height(p, h), n, fb, Zeros(n))
    ensures DecodePass(raw, p, w, h, fb).Some? ==> |raw| >= PassLength(p, w, h, fb)
  {
    EnoughForPass(raw, Height(p, h), Off(Width(p, w), fb), fb);
  }

  lemma EnoughForPass(raw: seq<byte>, y: nat, n: nat, fb: nat)
    requires fb >= 1
    ensures Decode(raw, y, n, fb, Zeros(n)).Some? ==> |raw| >= Off(y, n + 1)
  {
    if Decode(raw, y, n, fb, Zeros(n)).Some? { DecodeNeedsBytes(raw, y, n, fb, Zeros(n)); }
  }

  /** Before its pass starts, the image of a pass does not matter. */
  lemma PaintedElsewhere(final: seq<byte>, count: seq<nat>, images: seq<seq<byte>>, w: nat, h: nat, ob: nat, p: nat, img: seq<byte>)
    requires Painted(final, count, images, w, h, ob, Point(p, 0, 0)) && p < 7
    ensures Painted(final, count, images[p := img], w, h, ob, Point(p, 0, 0))
  {
    forall q: Pixel | Inside(q, w, h) ensures Cell(final, count, images[p := img], w, ob, q, Point(p, 0, 0)) {
      assert Cell(final, count, images, w, ob, q, Point(p, 0, 0));
    }
  }

  /** Every pixel was painted exactly once, from the point of its pass. */
  ghost predicate Complete(final: seq<byte>, count: seq<nat>, images: seq<seq<byte>>, w: nat, h: nat, ob: nat) {
    && |images| == 7 && |count| == Off(h, w)
    && forall q: Pixel :: Inside(q, w, h) ==>
         && Index(q.x, q.y, w) < |count| && count[Index(q.x, q.y, w)] == 1
         && Source(q).p < 7
         && SamePixel(final, Index(q.x, q.y, w), images[Source(q).p],
                      Index(Source(q).i, Source(q).j, Width(Source(q).p, w)), ob)
  }

  /** Decodes an interlaced image. It succeeds exactly when every pass with pixels decodes from the data
      after the passes before it; then every pixel of the image is the pixel of its pass. */
  method CreatePngImage(raw: seq<byte>, f: Format, w: nat, h: nat)
    returns (ok: bool, final: array<byte>, ghost count: seq<nat>, ghost images: seq<seq<byte>>)
    requires f.Valid() && w <= 0x100_0000 && h <= 0x100_0000
    ensures ok <==> DecodePasses(raw, 0, w, h, f.fb).Some?
    ensures ok ==> var passes := DecodePasses(raw, 0, w, h, f.fb).value;
                   |passes| == 7 && PassesShown(images, passes, w, f)
    ensures ok ==> Complete(final[..], count, images, w, h, f.ob)
    ensures final.Length == Off(Off(h, w), f.ob)
  {
    var size := Times(h, w);
    size := Times(size, f.ob);
    final := new byte[size](_ => 0);
    ghost var zeros := seq(Off(h, w), _ => 0);
    ok, count, images := DecodePassesInto(final, raw, f, w, h, zeros);
    if ok { PaintedAll(final[..], count, images, w, h, f.ob); }
  }

  lemma PaintedAll(final: seq<byte>, count: seq<nat>, images: seq<seq<byte>>, w: nat, h: nat, ob: nat)
    requires Painted(final, count, images, w, h, ob, Point(7, 0, 0))
    ensures Complete(final, count, images, w, h, ob)
  {
    forall q: Pixel | Inside(q, w, h)
      ensures Source(q).p < 7 && Cell(final, count, images, w, ob, q, Point(7, 0, 0))
    {
      DestOfSource(q);
    }
  }

  lemma PaintedNone(final: seq<byte>, count: seq<nat>, images: seq<seq<byte>>, w: nat, h: nat, ob: nat)
    requires |images| == 7 && |count| == Off(h, w) && forall k :: 0 <= k < |count| ==> count[k] == 0
    ensures Painted(final, count, images, w, h, ob, Point(0, 0, 0))
  {
    forall q: Pixel | Inside(q, w, h) ensures Cell(final, count, images, w, ob, q, Point(0, 0, 0)) {
      DestOfSource(q);
      IndexBound(q.x, q.y, w, h);
    }
  }

  method DecodePassesInto(final: array<byte>, raw: seq<byte>, f: Format, w: nat, h: nat, ghost zeros: seq<nat>)
    returns (ok: bool, ghost count: seq<nat>, ghost images: seq<seq<byte>>)
    requires f.Valid() && w <= 0x100_0000 && h <= 0x100_0000 && final.Length == Off(Off(h, w), f.ob)
    requires |zeros| == Off(h, w) && forall k :: 0 <= k < |zeros| ==> zeros[k] == 0
    modifies final
    ensures var d := DecodePasses(raw, 0, w, h, f.fb);
            && (ok <==> d.Some?)
            && (ok ==> |d.value| == 7 && PassesShown(images, d.value, w, f))
            && (ok ==> Painted(final[..], count, images, w, h, f.ob, Point(7, 0, 0)))
  {
    ghost var d, passes := DecodePasses(raw, 0, w, h, f.fb), [];
    var image_data := raw;
    count, images := zeros, [[], [], [], [], [], [], []];
    PaintedNone(final[..], count, images, w, h, f.ob);
    AfterNone(d);
    for p := 0 to 7
      invariant |passes| == p && d == After(passes, DecodePasses(image_data, p, w, h, f.fb))
      invariant Painted(final[..], count, images, w, h, f.ob, Point(p, 0, 0))
      invariant PassesShown(images, passes, w, f)
    {
      AfterNext(d, passes, image_data, p, w, h, f.fb);
      ok, image_data, count, images, passes := DecodeAndPaint(final, image_data, p, f, w, h, count, images, passes);
      if !ok { return; }
    }
    assert passes + [] == passes;
    ok := true;
  }

  lemma AfterNone(d: Option<seq<seq<seq<byte>>>>)
    ensures d == After([], d)
  {
    if d.Some? { assert [] + d.value == d.value; }
  }

  lemma AfterNext(d: Option<seq<seq<seq<byte>>>>, passes: seq<seq<seq<byte>>>, raw: seq<byte>, p: nat, w: nat, h: nat, fb: nat)
    requires fb >= 1 && p < 7 && d == After(passes, DecodePasses(raw, p, w, h, fb))
    ensures var one := DecodePass(raw, p, w, h, fb);
            if one.None? || |raw| < PassLength(p, w, h, fb) then d.None?
            else d == After(passes + [one.value], DecodePasses(raw[PassLength(p, w, h, fb)..], p + 1, w, h, fb))
  {
    var one := DecodePass(raw, p, w, h, fb);
    if one.Some? && |raw| >= PassLength(p, w, h, fb) {
      var rest := DecodePasses(raw[PassLength(p, w, h, fb)..], p + 1, w, h, fb);
      if rest.Some? { assert passes + ([one.value] + rest.value) == passes + [one.value] + rest.value; }
    }
  }

  // ----- which byte of the data a byte of the image comes from -----

  /** The data of a pass comes behind that of the passes before it. */
  ghost function PassStart(p: nat, w: nat, h: nat, fb: nat): nat {
    if p == 0 then 0 else PassStart(p - 1, w, h, fb) + PassLength(p - 1, w, h, fb)
  }

  lemma {:induction false} StartMono(r: nat, p: nat, w: nat, h: nat, fb: nat)
    requires r <= p
    ensures PassStart(r, w, h, fb) <= PassStart(p, w, h, fb)
  {
    if r < p { StartMono(r, p - 1, w, h, fb); }
  }

  /** The rows of pass p are those its data stands for, start bytes into the data. */
  ghost predicate RowsFrom(raw: seq<byte>, start: int, p: nat, w: nat, h: nat, fb: nat, rows: seq<seq<byte>>) {
    fb >= 1 && 0 <= start <= |raw| && DecodePass(raw[start..], p, w, h, fb) == Some(rows)
  }

  /** They are, behind the data of the passes from r on. */
  ghost predicate RowsBehind(raw: seq<byte>, r: nat, p: nat, w: nat, h: nat, fb: nat, rows: seq<seq<byte>>)
    requires r <= p
    decreases p - r
  {
    if r == p then RowsFrom(raw, 0, p, w, h, fb, rows)
    else PassLength(r, w, h, fb) <= |raw| && RowsBehind(raw[PassLength(r, w, h, fb)..], r + 1, p, w, h, fb, rows)
  }

  lemma {:induction false} PassData(raw: seq<byte>, r: nat, p: nat, w: nat, h: nat, fb: nat, passes: seq<seq<seq<byte>>>)
    requires fb >= 1 && r <= p < 7 && DecodePasses(raw, r, w, h, fb) == Some(passes) && |passes| == 7 - r
    ensures RowsBehind(raw, r, p, w, h, fb, passes[p - r])
    decreases p - r
  {
    FirstOfPasses(raw, r, w, h, fb, passes);
    if r < p { PassData(raw[PassLength(r, w, h, fb)..], r + 1, p, w, h, fb, passes[1..]); }
  }

  lemma {:induction false} StartOfPass(raw: seq<byte>, r: nat, p: nat, w: nat, h: nat, fb: nat, rows: seq<seq<byte>>)
    requires r <= p && RowsBehind(raw, r, p, w, h, fb, rows)
    ensures RowsFrom(raw, PassStart(p, w, h, fb) - PassStart(r, w, h, fb), p, w, h, fb, rows)
    decreases p - r
  {
    if r < p {
      var n := PassLength(r, w, h, fb);
      StartOfPass(raw[n..], r + 1, p, w, h, fb, rows);
      StartMono(r + 1, p, w, h, fb);
      Further(raw, n, PassStart(p, w, h, fb) - PassStart(r + 1, w, h, fb), p, w, h, fb, rows);
    }
  }

  lemma FirstOfPasses(raw: seq<byte>, r: nat, w: nat, h: nat, fb: nat, passes: seq<seq<seq<byte>>>)
    requires fb >= 1 && r < 7 && DecodePasses(raw, r, w, h, fb) == Some(passes)
    ensures var n := PassLength(r, w, h, fb);
            && n <= |raw| && passes != [] && RowsFrom(raw, 0, r, w, h, fb, passes[0])
            && DecodePasses(raw[n..], r + 1, w, h, fb) == Some(passes[1..])
  {
    assert raw[0..] == raw;
  }

  lemma Further(raw: seq<byte>, n: nat, start: nat, p: nat, w: nat, h: nat, fb: nat, rows: seq<seq<byte>>)
    requires n <= |raw| && RowsFrom(raw[n..], start, p, w, h, fb, rows)
    ensures RowsFrom(raw, n + start, p, w, h, fb, rows)
  {
    assert raw[n..][start..] == raw[n + start..];
  }

  lemma {:induction false} PassCount(raw: seq<byte>, r: nat, w: nat, h: nat, fb: nat)
    requires fb >= 1 && r <= 7 && DecodePasses(raw, r, w, h, fb).Some?
    ensures |DecodePasses(raw, r, w, h, fb).value| == 7 - r
    decreases 7 - r
  {
    if r < 7 { PassCount(raw[PassLength(r, w, h, fb)..], r + 1, w, h, fb); }
  }

  /** Every byte of a decoded interlaced image: byte k of a pixel is that of its point in the decoded rows of
      its pass, and the alpha behind it is 255. */
  lemma InterlacedByte(raw: seq<byte>, final: seq<byte>, count: seq<nat>, images: seq<seq<byte>>, passes: seq<seq<seq<byte>>>,
                       w: nat, h: nat, f: Format, t: Point, k: nat)
    requires f.Valid() && w <= 0x100_0000 && h <= 0x100_0000 && OnGrid(t, w, h) && k < f.ob
    requires DecodePasses(raw, 0, w, h, f.fb) == Some(passes) && PassesShown(images, passes, w, f)
    requires Complete(final, count, images, w, h, f.ob) && (f.bytes == 2 ==> |final| % 2 == 0)
    ensures |passes| == 7 && RowsFrom(raw, PassStart(t.p, w, h, f.fb), t.p, w, h, f.fb, passes[t.p]) && t.j < |passes[t.p]|
    ensures PixelByte(Ordered(final, f.bytes), Dest(t), w, f.ob, passes[t.p][t.j], t.i, k, f.fb)
  {
    HasSizes(f);
    PointInPass(raw, passes, w, h, f.fb, t);
    InterlacedPoint(final, count, images, passes, w, h, f, t, k);
  }

  /** What is used of a format below. */
  ghost predicate Sizes(f: Format) {
    1 <= f.fb <= f.ob <= f.fb + 2 && (f.bytes == 2 ==> f.ob % 2 == 0)
  }

  lemma HasSizes(f: Format)
    requires f.Valid()
    ensures Sizes(f)
  {
    RoomForAlpha(f);
    if f.bytes == 2 { EvenPixel(f); }
  }

  lemma InterlacedPoint(final: seq<byte>, count: seq<nat>, images: seq<seq<byte>>, passes: seq<seq<seq<byte>>>,
                        w: nat, h: nat, f: Format, t: Point, k: nat)
    requires Sizes(f) && w <= 0x100_0000 && h <= 0x100_0000 && OnGrid(t, w, h) && k < f.ob
    requires |passes| == 7 && t.j < |passes[t.p]| && PassesShown(images, passes, w, f)
    requires Complete(final, count, images, w, h, f.ob) && (f.bytes == 2 ==> |final| % 2 == 0)
    ensures PixelByte(Ordered(final, f.bytes), Dest(t), w, f.ob, passes[t.p][t.j], t.i, k, f.fb)
  {
    GridIsInside(t, w, h);
    CompleteAt(final, count, images, w, h, f.ob, t);
    PointShownByte(final, Index(Dest(t).x, Dest(t).y, w), images[t.p], passes[t.p], w, f, t, k);
    InProducts(Ordered(final, f.bytes), Dest(t), w, f.ob, passes[t.p][t.j], t.i, k, f.fb);
  }

  /** Byte k of the pixel at q of an image with w pixels in a row is that of pixel i of the row, or alpha. */
  ghost predicate PixelByte(out: seq<byte>, q: Pixel, w: nat, ob: nat, row: seq<byte>, i: nat, k: nat, fb: nat) {
    ByteIs(out, (q.y * w + q.x) * ob + k, row, i * fb, k, fb)
  }

  lemma PointInPass(raw: seq<byte>, passes: seq<seq<seq<byte>>>, w: nat, h: nat, fb: nat, t: Point)
    requires fb >= 1 && OnGrid(t, w, h) && DecodePasses(raw, 0, w, h, fb) == Some(passes)
    ensures |passes| == 7 && RowsFrom(raw, PassStart(t.p, w, h, fb), t.p, w, h, fb, passes[t.p]) && t.j < |passes[t.p]|
  {
    PassCount(raw, 0, w, h, fb);
    PassData(raw, 0, t.p, w, h, fb, passes);
    StartOfPass(raw, 0, t.p, w, h, fb, passes[t.p]);
    RowsOfPass(raw[PassStart(t.p, w, h, fb)..], t.p, w, h, fb);
  }

  lemma PointShownByte(final: seq<byte>, m: nat, img: seq<byte>, rows: seq<seq<byte>>, w: nat, f: Format, t: Point, k: nat)
    requires Sizes(f) && t.i < Width(t.p, w) && t.j < |rows| && k < f.ob && (f.bytes == 2 ==> |final| % 2 == 0)
    requires SamePixel(final, m, img, Index(t.i, t.j, Width(t.p, w)), f.ob) && PassShown(img, rows, t.p, w, f)
    ensures ByteIs(Ordered(final, f.bytes), Off(m, f.ob) + k, rows[t.j], Off(t.i, f.fb), k, f.fb)
  {
    PassByte(img, rows, w, f, t, k);
    PixelOfImage(final, m, img, Index(t.i, t.j, Width(t.p, w)), rows[t.j], Off(t.i, f.fb), f.bytes, f.fb, f.ob, k);
  }

  lemma PassByte(img: seq<byte>, rows: seq<seq<byte>>, w: nat, f: Format, t: Point, k: nat)
    requires Sizes(f) && t.i < Width(t.p, w) && t.j < |rows| && k < f.ob && PassShown(img, rows, t.p, w, f)
    ensures f.bytes == 2 ==> |img| % 2 == 0
    ensures ByteIs(Ordered(img, f.bytes), Off(Index(t.i, t.j, Width(t.p, w)), f.ob) + k, rows[t.j], Off(t.i, f.fb), k, f.fb)
  {
    RowsByte(Ordered(img, f.bytes), rows, Width(t.p, w), f.fb, f.ob, t.j, t.i, k);
  }

  lemma CompleteAt(final: seq<byte>, count: seq<nat>, images: seq<seq<byte>>, w: nat, h: nat, ob: nat, t: Point)
    requires Complete(final, count, images, w, h, ob) && t.p < 7 && Inside(Dest(t), w, h)
    ensures SamePixel(final, Index(Dest(t).x, Dest(t).y, w), images[t.p], Index(t.i, t.j, Width(t.p, w)), ob)
  {
    SourceOfDest(t);
  }

  lemma PixelOfImage(final: seq<byte>, m: nat, img: seq<byte>, s: nat, row: seq<byte>, o: nat, bytes: nat, fb: nat, ob: nat, k: nat)
    requires SamePixel(final, m, img, s, ob) && (bytes == 2 ==> |final| % 2 == 0 && |img| % 2 == 0 && ob % 2 == 0) && k < ob
    requires ByteIs(Ordered(img, bytes), Off(s, ob) + k, row, o, k, fb)
    ensures ByteIs(Ordered(final, bytes), Off(m, ob) + k, row, o, k, fb)
  {
    OrderedByte(final, m, img, s, bytes, ob, k);
  }

  lemma OrderedByte(final: seq<byte>, t: nat, img: seq<byte>, s: nat, bytes: nat, ob: nat, k: nat)
    requires SamePixel(final, t, img, s, ob) && (bytes == 2 ==> |final| % 2 == 0 && |img| % 2 == 0 && ob % 2 == 0) && k < ob
    ensures SameByte(Ordered(final, bytes), Off(t, ob) + k, Ordered(img, bytes), Off(s, ob) + k)
  {
    SameOrdered(final, t, img, s, bytes, ob);
    SamePixelByte(Ordered(final, bytes), t, Ordered(img, bytes), s, ob, k);
  }

  lemma InProducts(out: seq<byte>, q: Pixel, w: nat, ob: nat, row: seq<byte>, i: nat, k: nat, fb: nat)
    requires ByteIs(out, Off(Index(q.x, q.y, w), ob) + k, row, Off(i, fb), k, fb)
    ensures PixelByte(out, q, w, ob, row, i, k, fb)
  {
    IndexOffset(q.x, q.y, w, ob);
    OffIsProduct(i, fb);
  }

  lemma RowsByte(out: seq<byte>, rows: seq<seq<byte>>, n: nat, fb: nat, ob: nat, j: nat, i: nat, k: nat)
    requires ImageSoFar(out, rows, n, fb, ob, Off(n, ob)) && fb <= ob <= fb + 2 && j < |rows| && i < n && k < ob
    ensures ByteIs(out, Off(Index(i, j, n), ob) + k, rows[j], Off(i, fb), k, fb)
  {
    ImageByte(out, rows, n, fb, ob, j, i, k);
    IndexOffset(i, j, n, ob);
    OffIsProduct(i, fb);
  }

  lemma RowsOfPass(raw: seq<byte>, p: nat, w: nat, h: nat, fb: nat)
    requires fb >= 1 && p < 7 && Width(p, w) > 0 && Height(p, h) > 0 && DecodePass(raw, p, w, h, fb).Some?
    ensures |DecodePass(raw, p, w, h, fb).value| == Height(p, h)
  {
    DecodeNeedsBytes(raw, Height(p, h), Off(Width(p, w), fb), fb, Zeros(Off(Width(p, w), fb)));
  }

  ghost predicate SameByte(a: seq<byte>, m: nat, b: seq<byte>, n: nat) {
    m < |a| && n < |b| && a[m] == b[n]
  }

  lemma SamePixelByte(final: seq<byte>, t: nat, img: seq<byte>, s: nat, ob: nat, k: nat)
    requires SamePixel(final, t, img, s, ob) && k < ob
    ensures SameByte(final, Off(t, ob) + k, img, Off(s, ob) + k)
  {
    SliceByte(final, Off(t, ob), img, Off(s, ob), ob, k);
  }

  // ----- decoding inverts encoding -----

  /** Rows of the right number and length for pass p. */
  ghost predicate FitsPass(rows: seq<seq<byte>>, filters: seq<nat>, p: nat, w: nat, h: nat, fb: nat) {
    && |filters| == |rows| == (if Width(p, w) == 0 then 0 else Height(p, h))
    && (forall j :: 0 <= j < |rows| ==> |rows[j]| == Off(Width(p, w), fb))
    && forall j :: 0 <= j < |filters| ==> filters[j] <= 4
  }

  ghost predicate FitsPasses(passes: seq<seq<seq<byte>>>, filters: seq<seq<nat>>, w: nat, h: nat, fb: nat) {
    |passes| == |filters| == 7 && forall p :: 0 <= p < 7 ==> FitsPass(passes[p], filters[p], p, w, h, fb)
  }

  ghost function EncodePass(filters: seq<nat>, rows: seq<seq<byte>>, p: nat, w: nat, h: nat, fb: nat): seq<byte>
    requires fb >= 1 && FitsPass(rows, filters, p, w, h, fb)
  {
    Encode(filters, rows, Off(Width(p, w), fb), fb, Zeros(Off(Width(p, w), fb)))
  }

  /** The filtered data of the passes from p on, one after the other. */
  ghost function EncodePasses(filters: seq<seq<nat>>, passes: seq<seq<seq<byte>>>, p: nat, w: nat, h: nat, fb: nat): seq<byte>
    requires fb >= 1 && p <= 7 && FitsPasses(passes, filters, w, h, fb)
    decreases 7 - p
  {
    if p == 7 then []
    else
      assert FitsPass(passes[p], filters[p], p, w, h, fb);
      EncodePass(filters[p], passes[p], p, w, h, fb) + EncodePasses(filters, passes, p + 1, w, h, fb)
  }

  lemma {:induction false} EncodeSize(filters: seq<nat>, rows: seq<seq<byte>>, n: nat, fb: nat, prior: seq<byte>)
    requires 1 <= fb && n == |prior| && |filters| == |rows|
    requires (forall j :: 0 <= j < |rows| ==> |rows[j]| == n) && forall j :: 0 <= j < |filters| ==> filters[j] <= 4
    ensures |Encode(filters, rows, n, fb, prior)| == Off(|rows|, n + 1)
    decreases |rows|
  {
    if rows != [] { EncodeSize(filters[1..], rows[1..], n, fb, rows[0]); }
  }

  /** Interlaced data decodes to the passes it was made from, whatever the sizes of the passes, the
      filters chosen and the bytes that follow. */
  lemma {:induction false} PassesRoundTrip(filters: seq<seq<nat>>, passes: seq<seq<seq<byte>>>, p: nat, w: nat, h: nat, fb: nat, more: seq<byte>)
    requires fb >= 1 && p <= 7 && FitsPasses(passes, filters, w, h, fb)
    ensures DecodePasses(EncodePasses(filters, passes, p, w, h, fb) + more, p, w, h, fb) == Some(passes[p..])
    decreases 7 - p
  {
    if p == 7 {
      assert passes[7..] == [];
    } else {
      var tail := EncodePasses(filters, passes, p + 1, w, h, fb);
      PassesRoundTrip(filters, passes, p + 1, w, h, fb, more);
      PassAndRest(filters, passes, p, w, h, fb, tail, more);
    }
  }

  lemma PassAndRest(filters: seq<seq<nat>>, passes: seq<seq<seq<byte>>>, p: nat, w: nat, h: nat, fb: nat, tail: seq<byte>, more: seq<byte>)
    requires fb >= 1 && p < 7 && FitsPasses(passes, filters, w, h, fb) && tail == EncodePasses(filters, passes, p + 1, w, h, fb)
    requires DecodePasses(tail + more, p + 1, w, h, fb) == Some(passes[p + 1..])
    ensures DecodePasses(EncodePasses(filters, passes, p, w, h, fb) + more, p, w, h, fb) == Some(passes[p..])
  {
    assert FitsPass(passes[p], filters[p], p, w, h, fb);
    var one := EncodePass(filters[p], passes[p], p, w, h, fb);
    OnePass(filters[p], passes[p], p, w, h, fb, tail + more);
    Parts(one, tail, more);
    FirstPass(one + tail + more, |one|, tail + more, passes[p], passes[p + 1..], p, w, h, fb);
    Front(passes, p);
  }

  lemma Front(passes: seq<seq<seq<byte>>>, p: nat)
    requires p < |passes|
    ensures [passes[p]] + passes[p + 1..] == passes[p..]
  {
  }

  /** The rest of the data begins at n. */
  ghost predicate RestAt(raw: seq<byte>, n: nat, rest: seq<byte>) {
    n <= |raw| && raw[n..] == rest
  }

  lemma Parts(one: seq<byte>, tail: seq<byte>, more: seq<byte>)
    ensures one + tail + more == one + (tail + more) && RestAt(one + tail + more, |one|, tail + more)
  {
  }

  lemma OnePass(filters: seq<nat>, rows: seq<seq<byte>>, p: nat, w: nat, h: nat, fb: nat, rest: seq<byte>)
    requires fb >= 1 && p < 7 && FitsPass(rows, filters, p, w, h, fb)
    ensures var one := EncodePass(filters, rows, p, w, h, fb);
            |one| == PassLength(p, w, h, fb) && DecodePass(one + rest, p, w, h, fb) == Some(rows)
  {
    var n := Off(Width(p, w), fb);
    EncodeSize(filters, rows, n, fb, Zeros(n));
    DecodeEncode(filters, rows, n, fb, Zeros(n), rest);
  }

  lemma FirstPass(raw: seq<byte>, n: nat, rest: seq<byte>, one: seq<seq<byte>>, others: seq<seq<seq<byte>>>, p: nat, w: nat, h: nat, fb: nat)
    requires fb >= 1 && p < 7 && n == PassLength(p, w, h, fb) && RestAt(raw, n, rest)
    requires DecodePass(raw, p, w, h, fb) == Some(one)
    requires DecodePasses(rest, p + 1, w, h, fb) == Some(others)
    ensures DecodePasses(raw, p, w, h, fb) == Some([one] + others)
  {
  }

  // ----- interlacing and back -----

  /** An image as a map from places to pixels of fb bytes. */
  type Image = Pixel -> seq<byte>

  ghost predicate IsImage(px: Image, fb: nat) { forall q: Pixel :: |px(q)| == fb }

  /** The first n pixels of row j of a pass. */
  ghost function PassRow(px: Image, p: nat, j: nat, n: nat): seq<byte> {
    if n == 0 then [] else PassRow(px, p, j, n - 1) + px(Dest(Point(p, n - 1, j)))
  }

  lemma {:induction false} PassRowAt(px: Image, p: nat, j: nat, n: nat, fb: nat)
    requires IsImage(px, fb)
    ensures |PassRow(px, p, j, n)| == Off(n, fb)
    ensures forall i :: 0 <= i < n ==> PixelIs(PassRow(px, p, j, n), i, fb, px(Dest(Point(p, i, j))))
    decreases n
  {
    if n > 0 {
      PassRowAt(px, p, j, n - 1, fb);
      assert |px(Dest(Point(p, n - 1, j)))| == fb;
      var row, front := PassRow(px, p, j, n), PassRow(px, p, j, n - 1);
      forall i | 0 <= i < n ensures PixelIs(row, i, fb, px(Dest(Point(p, i, j)))) {
        if i < n - 1 {
          assert PixelIs(front, i, fb, px(Dest(Point(p, i, j))));
          assert row[Off(i, fb)..Off(i, fb) + fb] == front[Off(i, fb)..Off(i, fb) + fb];
        }
      }
    }
  }

  /** Pixel i of a row. */
  ghost predicate PixelIs(row: seq<byte>, i: nat, fb: nat, v: seq<byte>) {
    Off(i, fb) + fb <= |row| && row[Off(i, fb)..Off(i, fb) + fb] == v
  }

  /** The rows of a pass over an image; a pass without columns has none. */
  ghost function PassRows(px: Image, p: nat, w: nat, h: nat): seq<seq<byte>> {
    seq(if Width(p, w) == 0 then 0 else Height(p, h), j requires 0 <= j => PassRow(px, p, j, Width(p, w)))
  }

  /** The image split into its seven passes. */
  ghost function Interlaced(px: Image, w: nat, h: nat): seq<seq<seq<byte>>> {
    seq(7, p requires 0 <= p => PassRows(px, p, w, h))
  }

  /** A filter for each row of each pass. */
  ghost predicate FiltersFit(filters: seq<seq<nat>>, w: nat, h: nat) {
    && |filters| == 7
    && forall p :: 0 <= p < 7 ==>
         && |filters[p]| == (if Width(p, w) == 0 then 0 else Height(p, h))
         && forall j :: 0 <= j < |filters[p]| ==> filters[p][j] <= 4
  }

  lemma InterlacedFits(px: Image, filters: seq<seq<nat>>, w: nat, h: nat, fb: nat)
    requires IsImage(px, fb) && FiltersFit(filters, w, h)
    ensures FitsPasses(Interlaced(px, w, h), filters, w, h, fb)
  {
    forall p | 0 <= p < 7 ensures FitsPass(Interlaced(px, w, h)[p], filters[p], p, w, h, fb) {
      forall j | 0 <= j < |PassRows(px, p, w, h)| ensures |PassRows(px, p, w, h)[j]| == Off(Width(p, w), fb) {
        PassRowAt(px, p, j, Width(p, w), fb);
      }
    }
  }

  /** Pixel t of the output has the samples v and, if there is room, an opaque alpha. */
  ghost predicate Shows(out: seq<byte>, t: nat, v: seq<byte>, fb: nat, ob: nat) {
    ShowsAt(out, Off(t, ob), v, fb, ob)
  }

  ghost predicate ShowsAt(out: seq<byte>, o: nat, v: seq<byte>, fb: nat, ob: nat) {
    && o + ob <= |out| && fb <= ob && out[o..o + fb] == v
    && forall k :: o + fb <= k < o + ob ==> out[k] == 255
  }

  /** A point of a pass shows its pixel in the decoded image of the pass. */
  lemma PointShown(img: seq<byte>, rows: seq<seq<byte>>, px: Image, t: Point, w: nat, h: nat, fb: nat, ob: nat)
    requires IsImage(px, fb) && fb <= ob <= fb + 2 && OnGrid(t, w, h) && rows == PassRows(px, t.p, w, h)
    requires ImageSoFar(img, rows, Width(t.p, w), fb, ob, Off(Width(t.p, w), ob)) && Off(Index(t.i, t.j, Width(t.p, w)), ob) + ob <= |img|
    ensures Shows(img, Index(t.i, t.j, Width(t.p, w)), px(Dest(t)), fb, ob)
  {
    var n := Width(t.p, w);
    var base := Off(t.j, Off(n, ob));
    assert rows[t.j] == PassRow(px, t.p, t.j, n) && RowAt(img, base, rows[t.j], n, fb, ob);
    PassRowAt(px, t.p, t.j, n, fb);
    assert PixelIs(rows[t.j], t.i, fb, px(Dest(t)));
    IndexOffset(t.i, t.j, n, ob);
    OffIsProduct(t.i, ob);
    OffIsProduct(t.j, Off(n, ob));
    OffIsProduct(n, ob);
    Associate(t.j, n, ob);
    RowShows(img, base, rows[t.j], n, t.i, px(Dest(t)), fb, ob);
  }

  lemma RowShows(img: seq<byte>, base: nat, row: seq<byte>, n: nat, i: nat, v: seq<byte>, fb: nat, ob: nat)
    requires fb <= ob <= fb + 2 && RowAt(img, base, row, n, fb, ob) && i < n && |row| == Off(n, fb)
    requires PixelIs(row, i, fb, v) && base + Off(i, ob) + ob <= |img|
    ensures ShowsAt(img, base + Off(i, ob), v, fb, ob)
  {
    if fb == ob {
      PlainShows(img, base, row, Off(i, fb), v, fb);
    } else {
      PixelShows(img, base, row, i, v, fb, ob);
    }
  }

  lemma PlainShows(img: seq<byte>, base: nat, row: seq<byte>, o: nat, v: seq<byte>, fb: nat)
    requires base + |row| <= |img| && img[base..base + |row|] == row && o + fb <= |row| && row[o..o + fb] == v
    ensures ShowsAt(img, base + o, v, fb, fb)
  {
    Subslice(img, base, row, o, fb);
  }

  lemma PixelShows(img: seq<byte>, base: nat, row: seq<byte>, i: nat, v: seq<byte>, fb: nat, ob: nat)
    requires fb < ob <= fb + 2 && PixelShown(img, base, row, i, fb, ob) && LowAlpha(img, base, i, fb, ob)
    requires PixelIs(row, i, fb, v) && base + Off(i, ob) + ob <= |img|
    ensures ShowsAt(img, base + Off(i, ob), v, fb, ob)
  {
    AlphaShows(img, base + Off(i, ob), fb, ob);
  }

  lemma AlphaShows(img: seq<byte>, o: nat, fb: nat, ob: nat)
    requires fb < ob <= fb + 2 && o + ob <= |img| && img[o + fb] == 255 && (ob == fb + 2 ==> img[o + fb + 1] == 255)
    ensures forall k :: o + fb <= k < o + ob ==> img[k] == 255
  {
  }

  lemma Subslice(s: seq<byte>, base: nat, row: seq<byte>, o: nat, n: nat)
    requires base + |row| <= |s| && s[base..base + |row|] == row && o + n <= |row|
    ensures s[base + o..base + o + n] == row[o..o + n]
  {
    var part, piece := s[base + o..base + o + n], row[o..o + n];
    forall k | 0 <= k < n ensures part[k] == piece[k] {
      assert s[base..base + |row|][o + k] == row[o + k];
    }
  }

  lemma ShownThrough(final: seq<byte>, t: nat, img: seq<byte>, s: nat, v: seq<byte>, fb: nat, ob: nat)
    requires SamePixel(final, t, img, s, ob) && Shows(img, s, v, fb, ob)
    ensures Shows(final, t, v, fb, ob)
  {
    SliceShows(final, Off(t, ob), img, Off(s, ob), v, fb, ob);
  }

  lemma SliceShows(final: seq<byte>, x: nat, img: seq<byte>, y: nat, v: seq<byte>, fb: nat, ob: nat)
    requires x + ob <= |final| && ShowsAt(img, y, v, fb, ob) && final[x..x + ob] == img[y..y + ob]
    ensures ShowsAt(final, x, v, fb, ob)
  {
    var a, b := final[x..x + ob], img[y..y + ob];
    Subslice(final, x, b, 0, fb);
    Subslice(img, y, b, 0, fb);
    forall k | x + fb <= k < x + ob ensures final[k] == 255 {
      assert a[k - x] == b[k - x];
    }
  }

  /** The same pixels are the same after their samples are put in big-endian order again. */
  lemma SameOrdered(final: seq<byte>, t: nat, img: seq<byte>, s: nat, bytes: nat, ob: nat)
    requires SamePixel(final, t, img, s, ob) && (bytes == 2 ==> |final| % 2 == 0 && |img| % 2 == 0 && ob % 2 == 0)
    ensures SamePixel(Ordered(final, bytes), t, Ordered(img, bytes), s, ob)
  {
    if bytes == 2 {
      OffEven(t, ob);
      OffEven(s, ob);
      SameSwapped(final, Off(t, ob), img, Off(s, ob), ob);
    }
  }

  lemma SameSwapped(a: seq<byte>, x: nat, b: seq<byte>, y: nat, n: nat)
    requires |a| % 2 == 0 && |b| % 2 == 0 && x % 2 == 0 && y % 2 == 0 && n % 2 == 0
    requires x + n <= |a| && y + n <= |b| && a[x..x + n] == b[y..y + n]
    ensures Swapped(a)[x..x + n] == Swapped(b)[y..y + n]
  {
    SwappedSlice(a, x, n);
    SwappedSlice(b, y, n);
  }

  lemma SwappedSlice(s: seq<byte>, o: nat, n: nat)
    requires |s| % 2 == 0 && o % 2 == 0 && n % 2 == 0 && o + n <= |s|
    ensures Swapped(s)[o..o + n] == Swapped(s[o..o + n])
  {
  }

  /** A complete painting of the passes of an image is the image. */
  lemma Reassembled(final: seq<byte>, count: seq<nat>, images: seq<seq<byte>>, px: Image, w: nat, h: nat, f: Format, q: Pixel)
    requires f.Valid() && IsImage(px, f.fb) && Inside(q, w, h) && w <= 0x100_0000 && h <= 0x100_0000
    requires PassesShown(images, Interlaced(px, w, h), w, f) && Complete(final, count, images, w, h, f.ob)
    requires f.bytes == 2 ==> |final| % 2 == 0
    ensures Shows(Ordered(final, f.bytes), Index(q.x, q.y, w), px(q), f.fb, f.ob)
  {
    var t := Source(q);
    var from, to, img := Index(t.i, t.j, Width(t.p, w)), Index(q.x, q.y, w), images[t.p];
    Partition(q, w, h);
    RoomForAlpha(f);
    assert PassShown(img, Interlaced(px, w, h)[t.p], t.p, w, f);
    if f.bytes == 2 { EvenPixel(f); }
    SameOrdered(final, to, img, from, f.bytes, f.ob);
    PointShown(Ordered(img, f.bytes), PassRows(px, t.p, w, h), px, t, w, h, f.fb, f.ob);
    ShownThrough(Ordered(final, f.bytes), to, Ordered(img, f.bytes), from, px(q), f.fb, f.ob);
  }

  /** The filtered data of the interlaced image. */
  ghost function EncodeImage(px: Image, filters: seq<seq<nat>>, w: nat, h: nat, fb: nat): seq<byte>
    requires fb >= 1 && IsImage(px, fb) && FiltersFit(filters, w, h)
  {
    InterlacedFits(px, filters, w, h, fb);
    EncodePasses(filters, Interlaced(px, w, h), 0, w, h, fb)
  }

  lemma ImageDecodes(px: Image, filters: seq<seq<nat>>, w: nat, h: nat, fb: nat, more: seq<byte>)
    requires fb >= 1 && IsImage(px, fb) && FiltersFit(filters, w, h)
    ensures DecodePasses(EncodeImage(px, filters, w, h, fb) + more, 0, w, h, fb) == Some(Interlaced(px, w, h))
  {
    InterlacedFits(px, filters, w, h, fb);
    PassesRoundTrip(filters, Interlaced(px, w, h), 0, w, h, fb, more);
    assert Interlaced(px, w, h)[0..] == Interlaced(px, w, h);
  }

  lemma EvenImage(f: Format, w: nat, h: nat)
    requires f.Valid() && f.bytes == 2
    ensures Off(Off(h, w), f.ob) % 2 == 0
  {
    EvenPixel(f);
    OffEven(Off(h, w), f.ob);
  }

  ghost predicate ImageShown(final: seq<byte>, px: Image, w: nat, h: nat, fb: nat, ob: nat) {
    forall q: Pixel :: Inside(q, w, h) ==> Shows(final, Index(q.x, q.y, w), px(q), fb, ob)
  }

  /** Splitting any image into its passes, filtering the rows in any way and decoding the result gives
      every pixel of the image back, with an opaque alpha if one is asked for and with 16-bit samples
      in native order. */
  method InterlaceRoundTrip(ghost px: Image, ghost filters: seq<seq<nat>>, raw: seq<byte>, ghost more: seq<byte>,
                            f: Format, w: nat, h: nat)
    returns (ok: bool, final: array<byte>)
    requires f.Valid() && w <= 0x100_0000 && h <= 0x100_0000 && IsImage(px, f.fb) && FiltersFit(filters, w, h)
    requires raw == EncodeImage(px, filters, w, h, f.fb) + more
    ensures ok && (f.bytes == 2 ==> final.Length % 2 == 0)
    ensures ImageShown(Ordered(final[..], f.bytes), px, w, h, f.fb, f.ob)
  {
    ImageDecodes(px, filters, w, h, f.fb, more);
    if f.bytes == 2 { EvenImage(f, w, h); }
    ghost var count, images;
    ok, final, count, images := CreatePngImage(raw, f, w, h);
    forall q: Pixel | Inside(q, w, h) ensures Shows(Ordered(final[..], f.bytes), Index(q.x, q.y, w), px(q), f.fb, f.ob) {
      Reassembled(final[..], count, images, px, w, h, f, q);
    }
  }
}
