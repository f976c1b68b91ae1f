/** Undoing the scanline filters of PNG, with the special first-row filters of stb_image and the
    path that inserts an alpha channel on the way. Samples are 8 or 16 bits deep. */
module PngFilter {
  import opened Wrappers

  type byte = x: nat | x < 256

  // ----- section 9 of the PNG Specification, Second Edition -----

  function Abs(x: int): nat {
    if x < 0 then -x else x
  }

  function Paeth(a: nat, b: nat, c: nat): nat {
    var p := a + b - c;
    var pa, pb, pc := Abs(p - a), Abs(p - b), Abs(p - c);
    if pa <= pb && pa <= pc then a else if pb <= pc then b else c
  }

  /** How far apart two numbers are. */
  function Distance(p: int, x: int): nat {
    if p < x then x - p else p - x
  }

  /** The Paeth predictor chooses the neighbour nearest to the sum of left and upper less upper left; of
      equally near ones the left one comes first, then the upper one. */
  lemma PaethIsNearest(a: nat, b: nat, c: nat)
    ensures var p, v := a + b - c, Paeth(a, b, c);
            && (v == a || v == b || v == c)
            && Distance(p, v) <= Distance(p, a) && Distance(p, v) <= Distance(p, b) && Distance(p, v) <= Distance(p, c)
            && (Distance(p, v) == Distance(p, a) ==> v == a)
            && (Distance(p, v) == Distance(p, b) ==> v == a || v == b)
  {
  }

  /** What filter type f predicts from the bytes to the left, above, and above to the left. */
  function Predict(f: nat, a: nat, b: nat, c: nat): (p: nat)
    ensures a < 256 && b < 256 && c < 256 ==> p < 256
  {
    if f == 0 then 0 else if f == 1 then a else if f == 2 then b else if f == 3 then (a + b) / 2 else Paeth(a, b, c)
  }

  /** The byte one pixel before place i, or zero at the start of the row. */
  function Before(s: seq<byte>, i: nat, bpp: nat): (b: nat)
    requires i <= |s| && 1 <= bpp
    ensures b < 256
  {
    if i < bpp then 0 else s[i - bpp]
  }

  function FilterByte(v: nat, p: nat): (r: nat)
    requires p < 256
    ensures r < 256
  {
    (v + 256 - p) % 256
  }

  function UnfilterByte(x: nat, p: nat): (r: nat)
    ensures r < 256
  {
    (x + p) % 256
  }

  /** The encoder: each byte less its prediction from the original row and the row above. */
  function Filter(f: nat, row: seq<byte>, prior: seq<byte>, bpp: nat): (r: seq<byte>)
    requires 1 <= bpp && |row| <= |prior|
    ensures |r| == |row|
  {
    if row == [] then []
    else
      var n := |row| - 1;
      Filter(f, row[..n], prior, bpp)
        + [FilterByte(row[n], Predict(f, Before(row, n, bpp), prior[n], Before(prior, n, bpp)))]
  }

  /** The decoder: each byte plus its prediction from what has been decoded. */
  function Unfilter(f: nat, filt: seq<byte>, prior: seq<byte>, bpp: nat): (r: seq<byte>)
    requires 1 <= bpp && |filt| <= |prior|
    ensures |r| == |filt|
  {
    if filt == [] then []
    else
      var n := |filt| - 1;
      var u := Unfilter(f, filt[..n], prior, bpp);
      u + [UnfilterByte(filt[n], Predict(f, Before(u, n, bpp), prior[n], Before(prior, n, bpp)))]
  }

  lemma ByteInverse(v: nat, p: nat)
    requires v < 256 && p < 256
    ensures UnfilterByte(FilterByte(v, p), p) == v && FilterByte(UnfilterByte(v, p), p) == v
  {
    var f, u := FilterByte(v, p), UnfilterByte(v, p);
    Wrapped(v + 256 - p);
    Wrapped(f + p);
    Wrapped(v + p);
    Wrapped(u + 256 - p);
  }

  lemma Wrapped(x: nat)
    requires x < 512
    ensures x % 256 == if x < 256 then x else x - 256
  {
  }

  /** Whatever the filter type, decoding a filtered row restores it. */
  lemma {:induction false} UnfilterFilter(f: nat, row: seq<byte>, prior: seq<byte>, bpp: nat)
    requires 1 <= bpp && |row| <= |prior|
    ensures Unfilter(f, Filter(f, row, prior, bpp), prior, bpp) == row
  {
    if row != [] {
      var n := |row| - 1;
      UnfilterFilter(f, row[..n], prior, bpp);
      var p := Predict(f, Before(row, n, bpp), prior[n], Before(prior, n, bpp));
      LastUnfiltered(f, Filter(f, row[..n], prior, bpp), FilterByte(row[n], p), row[..n], prior, bpp);
      assert Before(row, n, bpp) == Before(row[..n], n, bpp);
      ByteInverse(row[n], p);
      assert row == row[..n] + [row[n]];
    }
  }

  lemma LastUnfiltered(f: nat, filt: seq<byte>, x: byte, u: seq<byte>, prior: seq<byte>, bpp: nat)
    requires 1 <= bpp && |filt| < |prior| && Unfilter(f, filt, prior, bpp) == u
    ensures var n := |filt|;
            |u| == n && Unfilter(f, filt + [x], prior, bpp) == u + [UnfilterByte(x, Predict(f, Before(u, n, bpp), prior[n], Before(prior, n, bpp)))]
  {
    assert (filt + [x])[..|filt|] == filt;
  }

  /** And every row of bytes is the filtered form of the row it decodes to. */
  lemma {:induction false} FilterUnfilter(f: nat, filt: seq<byte>, prior: seq<byte>, bpp: nat)
    requires 1 <= bpp && |filt| <= |prior|
    ensures Filter(f, Unfilter(f, filt, prior, bpp), prior, bpp) == filt
  {
    if filt != [] {
      var n := |filt| - 1;
      FilterUnfilter(f, filt[..n], prior, bpp);
      var u := Unfilter(f, filt[..n], prior, bpp);
      var row := Unfilter(f, filt, prior, bpp);
      assert row[..n] == u;
      assert Before(row, n, bpp) == Before(u, n, bpp);
      ByteInverse(filt[n], Predict(f, Before(u, n, bpp), prior[n], Before(prior, n, bpp)));
      assert filt == filt[..n] + [filt[n]];
    }
  }

  lemma UnfilterStep(f: nat, filt: seq<byte>, prior: seq<byte>, bpp: nat, n: nat)
    requires 1 <= bpp && n < |filt| <= |prior|
    ensures var u := Unfilter(f, filt[..n], prior, bpp);
            Unfilter(f, filt[..n + 1], prior, bpp)
            == u + [UnfilterByte(filt[n], Predict(f, Before(u, n, bpp), prior[n], Before(prior, n, bpp)))]
  {
    assert filt[..n + 1][..n] == filt[..n];
  }

  // ----- the decoder's filter codes -----

  const F_NONE := 0
  const F_SUB := 1
  const F_UP := 2
  const F_AVG := 3
  const F_PAETH := 4
  const F_AVG_FIRST := 5
  const F_PAETH_FIRST := 6

  /** The first row uses codes that do not look at a row above. */
  function FirstRowCode(f: nat): nat {
    if f == F_UP then F_NONE else if f == F_AVG then F_AVG_FIRST else if f == F_PAETH then F_PAETH_FIRST else f
  }

  function CodeFor(f: nat, first: bool): nat {
    if first then FirstRowCode(f) else f
  }

  /** The per-byte switch of the main loops. */
  function CodePredict(code: nat, a: nat, b: nat, c: nat): nat {
    if code == F_NONE then 0
    else if code == F_SUB then a
    else if code == F_UP then b
    else if code == F_AVG then (a + b) / 2
    else if code == F_PAETH then Paeth(a, b, c)
    else if code == F_AVG_FIRST then a / 2
    else Paeth(a, 0, 0)
  }

  /** The switch for the first pixel of a row. */
  function FirstPredict(code: nat, b: nat): nat {
    if code == F_UP then b
    else if code == F_AVG then b / 2
    else if code == F_PAETH then Paeth(0, b, 0)
    else 0
  }

  /** The codes agree with the filter types: on the first row over a row of zeros, and at the first
      pixel with nothing to the left. */
  lemma CodesAgree(f: nat, first: bool, a: nat, b: nat, c: nat)
    requires f <= 4 && (first ==> b == c == 0)
    ensures CodePredict(CodeFor(f, first), a, b, c) == Predict(f, a, b, c)
    ensures a == c == 0 ==> FirstPredict(CodeFor(f, first), b) == Predict(f, a, b, c)
  {
  }

  // ----- decoding one row -----

  /** Where item i starts when items are size bytes apart. */
  function Off(i: nat, size: nat): nat {
    if i == 0 then 0 else Off(i - 1, size) + size
  }

  lemma {:induction false} OffMono(i: nat, j: nat, size: nat)
    requires i < j
    ensures Off(i, size) + size <= Off(j, size)
  {
    if i + 1 < j { OffMono(i, j - 1, size); }
  }

  function Zeros(n: nat): (z: seq<byte>)
    ensures |z| == n && forall k :: 0 <= k < n ==> z[k] == 0
  {
    seq(n, _ => 0)
  }

  /** The row above: zeros for the first row. */
  ghost predicate PriorAt(out: seq<byte>, prev: nat, first: bool, prior: seq<byte>) {
    if first then prior == Zeros(|prior|) else prev + |prior| <= |out| && out[prev..prev + |prior|] == prior
  }

  /** The first k bytes of a row are decoded and nothing but them has been written. */
  ghost predicate RowSoFar(before: seq<byte>, out: seq<byte>, base: nat, k: nat, f: nat, filt: seq<byte>, prior: seq<byte>, fb: nat) {
    && 1 <= fb && |out| == |before| && k <= |filt| <= |prior| && base + k <= |out|
    && out[base..base + k] == Unfilter(f, filt[..k], prior, fb)
    && forall j :: 0 <= j < |out| && !(base <= j < base + k) ==> out[j] == before[j]
  }

  method PutByte(out: array<byte>, base: nat, k: nat, b: byte,
                 ghost before: seq<byte>, ghost f: nat, ghost filt: seq<byte>, ghost prior: seq<byte>, ghost fb: nat)
    requires base + k < out.Length && k < |filt| && RowSoFar(before, out[..], base, k, f, filt, prior, fb)
    requires b == UnfilterByte(filt[k], Predict(f, Before(out[base..base + k], k, fb), prior[k], Before(prior, k, fb)))
    modifies out
    ensures RowSoFar(before, out[..], base, k + 1, f, filt, prior, fb)
  {
    UnfilterStep(f, filt, prior, fb, k);
    ghost var was := out[base..base + k];
    out[base + k] := b;
    assert out[..][base..base + k + 1] == was + [b];
  }

  /** A row without alpha: the byte loops over the first pixel and over the rest. */
  method PlainRow(out: array<byte>, base: nat, prev: nat, first: bool, raw: seq<byte>, pos: nat, f: nat, fb: nat, n: nat,
                  ghost prior: seq<byte>)
    requires 1 <= fb <= n == |prior| && f <= 4 && base + n <= out.Length && pos + n <= |raw|
    requires PriorAt(out[..], prev, first, prior) && (!first ==> prev + n <= base)
    modifies out
    ensures RowSoFar(old(out[..]), out[..], base, n, f, raw[pos..pos + n], prior, fb)
  {
    ghost var before, filt := out[..], raw[pos..pos + n];
    for k := 0 to fb
      invariant RowSoFar(before, out[..], base, k, f, filt, prior, fb)
    {
      FirstPixelByte(out, base, prev, first, raw[pos + k], f, k, before, filt, prior, fb);
    }
    RestOfRow(out, base, prev, first, raw, pos, f, fb, n, before, prior);
  }

  /** The loop over the bytes behind the first pixel. */
  method RestOfRow(out: array<byte>, base: nat, prev: nat, first: bool, raw: seq<byte>, pos: nat, f: nat, fb: nat, n: nat,
                   ghost before: seq<byte>, ghost prior: seq<byte>)
    requires 1 <= fb <= n == |prior| && f <= 4 && base + n <= out.Length && pos + n <= |raw|
    requires PriorAt(before, prev, first, prior) && (!first ==> prev + n <= base)
    requires RowSoFar(before, out[..], base, fb, f, raw[pos..pos + n], prior, fb)
    modifies out
    ensures RowSoFar(before, out[..], base, n, f, raw[pos..pos + n], prior, fb)
  {
    ghost var filt := raw[pos..pos + n];
    for k := fb to n
      invariant RowSoFar(before, out[..], base, k, f, filt, prior, fb)
    {
      NextByte(out, base, prev, first, raw[pos + k], f, k, before, filt, prior, fb);
    }
  }

  method FirstPixelByte(out: array<byte>, base: nat, prev: nat, first: bool, x: byte, f: nat, k: nat,
                        ghost before: seq<byte>, ghost filt: seq<byte>, ghost prior: seq<byte>, ghost fb: nat)
    requires RowSoFar(before, out[..], base, k, f, filt, prior, fb) && base + k < out.Length
    requires k < fb && k < |filt| && x == filt[k] && f <= 4
    requires PriorAt(before, prev, first, prior) && (!first ==> prev + |prior| <= base)
    modifies out
    ensures RowSoFar(before, out[..], base, k + 1, f, filt, prior, fb)
  {
    var up := Above(out, prev + k, first, before, base, prev, prior, k);
    CodesAgree(f, first, 0, up, 0);
    PutByte(out, base, k, UnfilterByte(x, FirstPredict(CodeFor(f, first), up)), before, f, filt, prior, fb);
  }

  method NextByte(out: array<byte>, base: nat, prev: nat, first: bool, x: byte, f: nat, k: nat,
                  ghost before: seq<byte>, ghost filt: seq<byte>, ghost prior: seq<byte>, fb: nat)
    requires RowSoFar(before, out[..], base, k, f, filt, prior, fb) && base + k < out.Length
    requires fb <= k < |filt| && x == filt[k] && f <= 4
    requires PriorAt(before, prev, first, prior) && (!first ==> prev + |prior| <= base)
    modifies out
    ensures RowSoFar(before, out[..], base, k + 1, f, filt, prior, fb)
  {
    var left := out[base + k - fb];
    assert left == out[base..base + k][k - fb];
    var up := Above(out, prev + k, first, before, base, prev, prior, k);
    var corner := Above(out, prev + k - fb, first, before, base, prev, prior, k - fb);
    CodesAgree(f, first, left, up, corner);
    PutByte(out, base, k, UnfilterByte(x, CodePredict(CodeFor(f, first), left, up, corner)), before, f, filt, prior, fb);
  }

  /** The byte of the row above at an index; the codes of the first row make no use of it. */
  method Above(out: array<byte>, index: nat, first: bool, ghost before: seq<byte>, ghost base: nat,
               ghost prev: nat, ghost prior: seq<byte>, ghost k: nat) returns (b: byte)
    requires PriorAt(before, prev, first, prior) && k < |prior| && index == prev + k && |before| == out.Length
    requires !first ==> prev + |prior| <= base && forall j :: 0 <= j < base && j < out.Length ==> out[j] == before[j]
    ensures b == prior[k]
  {
    if first { return 0; }
    b := out[index];
    assert before[prev..prev + |prior|][k] == before[index];
  }

  // ----- decoding one row and inserting an alpha channel -----

  lemma {:induction false} UnfilterPrefix(f: nat, filt: seq<byte>, prior: seq<byte>, bpp: nat, m: nat)
    requires 1 <= bpp && m <= |filt| <= |prior|
    ensures Unfilter(f, filt[..m], prior, bpp) == Unfilter(f, filt, prior, bpp)[..m]
    decreases |filt|
  {
    if m < |filt| {
      var n := |filt| - 1;
      assert filt[..n][..m] == filt[..m];
      UnfilterPrefix(f, filt[..n], prior, bpp, m);
    } else {
      assert filt[..m] == filt;
    }
  }

  /** Every byte of the decoded row is its filtered byte plus the prediction from the row itself. */
  lemma UnfilterAt(f: nat, filt: seq<byte>, prior: seq<byte>, bpp: nat, m: nat)
    requires 1 <= bpp && m < |filt| <= |prior|
    ensures var row := Unfilter(f, filt, prior, bpp);
            row[m] == UnfilterByte(filt[m], Predict(f, Before(row, m, bpp), prior[m], Before(prior, m, bpp)))
  {
    UnfilterPrefix(f, filt, prior, bpp, m);
    UnfilterPrefix(f, filt, prior, bpp, m + 1);
    UnfilterStep(f, filt, prior, bpp, m);
    var row := Unfilter(f, filt, prior, bpp);
    var u := row[..m];
    assert row[..m + 1] == u + [row[m]];
    assert Before(u, m, bpp) == Before(row, m, bpp);
  }

  /** The same for each filter type: a decoded byte is the filtered one alone, or with the left byte, the
      upper byte, half their sum rounded down, or the Paeth choice added, modulo 256. The left byte is the
      one a pixel before, and bytes before the start of the row are zero. */
  lemma FilterTypes(f: nat, filt: seq<byte>, prior: seq<byte>, bpp: nat, m: nat)
    requires 1 <= bpp && m < |filt| <= |prior| && f <= 4
    ensures var row := Unfilter(f, filt, prior, bpp);
            var left: nat, up: nat, corner: nat := if m < bpp then 0 else row[m - bpp], prior[m], if m < bpp then 0 else prior[m - bpp];
            && (f == 0 ==> row[m] == filt[m])
            && (f == 1 ==> row[m] == (filt[m] + left) % 256)
            && (f == 2 ==> row[m] == (filt[m] + up) % 256)
            && (f == 3 ==> row[m] == (filt[m] + (left + up) / 2) % 256)
            && (f == 4 ==> row[m] == (filt[m] + Paeth(left, up, corner)) % 256)
  {
    UnfilterAt(f, filt, prior, bpp, m);
  }

  /** Pixel i of the row is in place, with the top byte of an opaque alpha behind it. */
  ghost predicate PixelShown(out: seq<byte>, base: nat, row: seq<byte>, i: nat, fb: nat, ob: nat) {
    var o, p := base + Off(i, ob), Off(i, fb);
    o + fb < |out| && p + fb <= |row| && out[o..o + fb] == row[p..p + fb] && out[o + fb] == 255
  }

  /** Pixels before i are in place, and k bytes of pixel i. */
  ghost predicate PixelsSoFar(before: seq<byte>, out: seq<byte>, base: nat, row: seq<byte>, i: nat, k: nat, fb: nat, ob: nat) {
    && |out| == |before|
    && (forall j :: 0 <= j < i ==> PixelShown(out, base, row, j, fb, ob))
    && (forall j :: 0 <= j < base && j < |out| ==> out[j] == before[j])
    && var o, p := base + Off(i, ob), Off(i, fb);
       o + k <= |out| && p + k <= |row| && out[o..o + k] == row[p..p + k]
  }

  /** Writes at or behind byte k of pixel i disturb nothing that is in place. */
  lemma SoFarKept(before: seq<byte>, out: seq<byte>, out': seq<byte>, base: nat, row: seq<byte>, i: nat, k: nat, fb: nat, ob: nat)
    requires PixelsSoFar(before, out, base, row, i, k, fb, ob) && fb < ob && |out'| == |out|
    requires forall j :: 0 <= j < |out| && j < base + Off(i, ob) + k ==> out'[j] == out[j]
    ensures PixelsSoFar(before, out', base, row, i, k, fb, ob)
  {
    forall j | 0 <= j < i ensures PixelShown(out', base, row, j, fb, ob) {
      assert PixelShown(out, base, row, j, fb, ob);
      OffMono(j, i, ob);
      ShownKept(out, out', base, row, j, fb, ob);
    }
    SliceKept(out, out', base + Off(i, ob), base + Off(i, ob) + k);
  }

  lemma ShownKept(out: seq<byte>, out': seq<byte>, base: nat, row: seq<byte>, i: nat, fb: nat, ob: nat)
    requires PixelShown(out, base, row, i, fb, ob) && fb < ob && |out'| == |out|
    requires forall j :: 0 <= j < |out| && j < base + Off(i, ob) + ob ==> out'[j] == out[j]
    ensures PixelShown(out', base, row, i, fb, ob)
  {
    SliceKept(out, out', base + Off(i, ob), base + Off(i, ob) + fb);
  }

  lemma SliceKept(out: seq<byte>, out': seq<byte>, lo: nat, hi: nat)
    requires lo <= hi <= |out| == |out'| && forall j :: 0 <= j < hi ==> out'[j] == out[j]
    ensures out'[lo..hi] == out[lo..hi]
  {
  }

  method PutPixelByte(out: array<byte>, ghost base: nat, cur: nat, ghost i: nat, k: nat, b: byte,
                      ghost before: seq<byte>, ghost row: seq<byte>, ghost fb: nat, ghost ob: nat)
    requires PixelsSoFar(before, out[..], base, row, i, k, fb, ob) && fb < ob && cur == base + Off(i, ob)
    requires k < fb && cur + k < out.Length && Off(i, fb) + k < |row| && b == row[Off(i, fb) + k]
    modifies out
    ensures PixelsSoFar(before, out[..], base, row, i, k + 1, fb, ob)
    ensures forall j :: 0 <= j < out.Length && j != cur + k ==> out[j] == old(out[j])
  {
    ghost var was := out[..];
    out[cur + k] := b;
    SoFarKept(before, was, out[..], base, row, i, k, fb, ob);
    ghost var p := Off(i, fb);
    assert out[..][cur..cur + k + 1] == was[cur..cur + k] + [b];
    assert row[p..p + k + 1] == row[p..p + k] + [b];
  }

  /** The alpha byte behind the pixel completes it. */
  method PutAlpha(out: array<byte>, ghost base: nat, cur: nat, ghost i: nat, fb: nat,
                  ghost before: seq<byte>, ghost row: seq<byte>, ghost ob: nat)
    requires PixelsSoFar(before, out[..], base, row, i, fb, fb, ob) && fb < ob && cur == base + Off(i, ob)
    requires base + Off(i + 1, ob) <= out.Length
    modifies out
    ensures PixelsSoFar(before, out[..], base, row, i + 1, 0, fb, ob)
    ensures forall j :: 0 <= j < out.Length && j != cur + fb ==> out[j] == old(out[j])
  {
    ghost var was := out[..];
    out[cur + fb] := 255;
    SoFarKept(before, was, out[..], base, row, i, fb, fb, ob);
    assert PixelShown(out[..], base, row, i, fb, ob);
  }

  /** The row above in an image with alpha: zeros for the first row. */
  ghost predicate PriorShown(before: seq<byte>, base: nat, prev: nat, first: bool, prior: seq<byte>, x: nat, fb: nat, ob: nat) {
    && |prior| == Off(x, fb)
    && if first then prior == Zeros(|prior|)
       else prev + Off(x, ob) <= base && forall i :: 0 <= i < x ==> PixelShown(before, prev, prior, i, fb, ob)
  }

  /** Byte k of pixel i of the row above. */
  method AboveShown(out: array<byte>, index: nat, first: bool, ghost before: seq<byte>, ghost base: nat, ghost prev: nat,
                    ghost prior: seq<byte>, ghost x: nat, ghost i: nat, ghost k: nat, ghost fb: nat, ghost ob: nat)
    returns (b: byte)
    requires PriorShown(before, base, prev, first, prior, x, fb, ob) && i < x && k < fb < ob && base <= out.Length == |before|
    requires forall j :: 0 <= j < base ==> out[j] == before[j]
    requires index == prev + Off(i, ob) + k
    ensures Off(i, fb) + k < |prior| && b == prior[Off(i, fb) + k]
  {
    OffMono(i, x, fb);
    if first { return 0; }
    OffMono(i, x, ob);
    ShownByte(before, prev, prior, i, k, fb, ob);
    b := out[index];
  }

  /** One byte of the first pixel. */
  method FirstAlphaByte(out: array<byte>, base: nat, prev: nat, first: bool, xb: byte, f: nat, k: nat, fb: nat, ob: nat,
                        ghost before: seq<byte>, ghost filt: seq<byte>, ghost prior: seq<byte>, ghost x: nat)
    requires 1 <= fb < ob && x >= 1 && f <= 4 && k < fb && |filt| == Off(x, fb) && base + Off(x, ob) <= out.Length
    requires PriorShown(before, base, prev, first, prior, x, fb, ob)
    requires PixelsSoFar(before, out[..], base, Unfilter(f, filt, prior, fb), 0, k, fb, ob)
    requires k < |filt| && xb == filt[k]
    modifies out
    ensures PixelsSoFar(before, out[..], base, Unfilter(f, filt, prior, fb), 0, k + 1, fb, ob)
    ensures forall j :: 0 <= j < out.Length && j != base + k ==> out[j] == old(out[j])
  {
    OffMono(0, x, ob);
    var up := AboveShown(out, prev + k, first, before, base, prev, prior, x, 0, k, fb, ob);
    UnfilterAt(f, filt, prior, fb, k);
    CodesAgree(f, first, 0, up, 0);
    PutPixelByte(out, base, base, 0, k, UnfilterByte(xb, FirstPredict(CodeFor(f, first), up)), before,
                 Unfilter(f, filt, prior, fb), fb, ob);
  }

  /** One byte of a later pixel. */
  method NextAlphaByte(out: array<byte>, base: nat, prev: nat, first: bool, xb: byte, f: nat, cur: nat, above: nat,
                       ghost i: nat, k: nat, fb: nat, ob: nat,
                       ghost before: seq<byte>, ghost filt: seq<byte>, ghost prior: seq<byte>, ghost x: nat)
    requires 1 <= fb < ob && 1 <= i < x && f <= 4 && k < fb && |filt| == Off(x, fb) && base + Off(x, ob) <= out.Length
    requires PriorShown(before, base, prev, first, prior, x, fb, ob)
    requires PixelsSoFar(before, out[..], base, Unfilter(f, filt, prior, fb), i, k, fb, ob)
    requires cur == base + Off(i, ob) && above == prev + Off(i, ob)
    requires Off(i, fb) + k < |filt| && xb == filt[Off(i, fb) + k]
    modifies out
    ensures PixelsSoFar(before, out[..], base, Unfilter(f, filt, prior, fb), i, k + 1, fb, ob)
    ensures forall j :: 0 <= j < out.Length && j != cur + k ==> out[j] == old(out[j])
  {
    OffMono(i, x, ob);
    var b := NextAlphaValue(out, base, prev, first, xb, f, cur, above, i, k, fb, ob, before, filt, prior, x);
    PutPixelByte(out, base, cur, i, k, b, before, Unfilter(f, filt, prior, fb), fb, ob);
  }

  /** Its value: the left neighbour is a whole output pixel back. */
  method NextAlphaValue(out: array<byte>, base: nat, prev: nat, first: bool, xb: byte, f: nat, cur: nat, above: nat,
                        ghost i: nat, k: nat, fb: nat, ob: nat,
                        ghost before: seq<byte>, ghost filt: seq<byte>, ghost prior: seq<byte>, ghost x: nat)
    returns (b: byte)
    requires 1 <= fb < ob && 1 <= i < x && f <= 4 && k < fb && |filt| == Off(x, fb) && base + Off(x, ob) <= out.Length
    requires PriorShown(before, base, prev, first, prior, x, fb, ob)
    requires PixelsSoFar(before, out[..], base, Unfilter(f, filt, prior, fb), i, k, fb, ob)
    requires cur == base + Off(i, ob) && above == prev + Off(i, ob)
    requires Off(i, fb) + k < |filt| && xb == filt[Off(i, fb) + k]
    ensures b == Unfilter(f, filt, prior, fb)[Off(i, fb) + k]
  {
    var left, up, corner := Neighbours(out, base, prev, first, cur, above, i, k, fb, ob, before, Unfilter(f, filt, prior, fb), prior, x);
    UnfilterAt(f, filt, prior, fb, Off(i, fb) + k);
    CodesAgree(f, first, left, up, corner);
    b := UnfilterByte(xb, CodePredict(CodeFor(f, first), left, up, corner));
  }

  /** The bytes to the left, above, and above to the left. */
  method Neighbours(out: array<byte>, base: nat, prev: nat, first: bool, cur: nat, above: nat, ghost i: nat, k: nat, fb: nat, ob: nat,
                    ghost before: seq<byte>, ghost row: seq<byte>, ghost prior: seq<byte>, ghost x: nat)
    returns (left: byte, up: byte, corner: byte)
    requires 1 <= fb < ob && 1 <= i < x && k < fb && |row| == Off(x, fb) && base + Off(x, ob) <= out.Length
    requires PriorShown(before, base, prev, first, prior, x, fb, ob) && PixelsSoFar(before, out[..], base, row, i, k, fb, ob)
    requires cur == base + Off(i, ob) && above == prev + Off(i, ob)
    ensures |prior| == Off(x, fb) && fb <= Off(i, fb) && Off(i, fb) + k < |row|
    ensures left == row[Off(i, fb) + k - fb] && up == prior[Off(i, fb) + k] && corner == prior[Off(i, fb) + k - fb]
  {
    OffMono(i, x, ob);
    OffMono(i, x, fb);
    assert Off(i, ob) == Off(i - 1, ob) + ob && Off(i, fb) == Off(i - 1, fb) + fb;
    left := out[cur - ob + k];
    ShownByte(out[..], base, row, i - 1, k, fb, ob);
    up, corner := AboveBoth(out, above, first, before, base, prev, prior, x, i, k, fb, ob);
  }

  method AboveBoth(out: array<byte>, above: nat, first: bool, ghost before: seq<byte>, ghost base: nat, ghost prev: nat,
                   ghost prior: seq<byte>, ghost x: nat, ghost i: nat, k: nat, fb: nat, ob: nat)
    returns (up: byte, corner: byte)
    requires PriorShown(before, base, prev, first, prior, x, fb, ob) && 1 <= i < x && k < fb < ob && base <= out.Length == |before|
    requires forall j :: 0 <= j < base ==> out[j] == before[j]
    requires above == prev + Off(i, ob)
    ensures Off(i, fb) == Off(i - 1, fb) + fb && Off(i, fb) + k < |prior|
    ensures up == prior[Off(i, fb) + k] && corner == prior[Off(i - 1, fb) + k]
  {
    assert Off(i, ob) == Off(i - 1, ob) + ob && Off(i, fb) == Off(i - 1, fb) + fb;
    up := AboveShown(out, above + k, first, before, base, prev, prior, x, i, k, fb, ob);
    corner := AboveShown(out, above - ob + k, first, before, base, prev, prior, x, i - 1, k, fb, ob);
  }

  lemma ShownByte(out: seq<byte>, base: nat, row: seq<byte>, i: nat, k: nat, fb: nat, ob: nat)
    requires k < fb && PixelShown(out, base, row, i, fb, ob)
    ensures base + Off(i, ob) + k < |out| && Off(i, fb) + k < |row|
    ensures out[base + Off(i, ob) + k] == row[Off(i, fb) + k]
  {
    SliceByte(out, base + Off(i, ob), row, Off(i, fb), fb, k);
  }

  lemma SliceByte(s: seq<byte>, o: nat, t: seq<byte>, p: nat, n: nat, k: nat)
    requires k < n && o + n <= |s| && p + n <= |t| && s[o..o + n] == t[p..p + n]
    ensures s[o + k] == t[p + k]
  {
    assert s[o..o + n][k] == t[p..p + n][k];
  }

  /** The whole row with its alpha channel. */
  ghost predicate RowShown(out: seq<byte>, base: nat, row: seq<byte>, x: nat, fb: nat, ob: nat) {
    forall i :: 0 <= i < x ==> PixelShown(out, base, row, i, fb, ob) && LowAlpha(out, base, i, fb, ob)
  }

  /** Sixteen-bit alpha has a second byte. */
  ghost predicate LowAlpha(out: seq<byte>, base: nat, i: nat, fb: nat, ob: nat) {
    ob == fb + 2 ==> base + Off(i, ob) + fb + 1 < |out| && out[base + Off(i, ob) + fb + 1] == 255
  }

  /** The second alpha byte of pixel j, which belongs to no pixel's samples. */
  method PutLow(out: array<byte>, ghost base: nat, cur: nat, ghost j: nat, fb: nat, ghost ob: nat,
                ghost before: seq<byte>, ghost row: seq<byte>, ghost n: nat)
    requires fb + 2 == ob && j < n && cur == base + Off(j, ob) && base + Off(n, ob) <= out.Length
    requires PixelsSoFar(before, out[..], base, row, n, 0, fb, ob)
    modifies out
    ensures PixelsSoFar(before, out[..], base, row, n, 0, fb, ob)
    ensures cur + fb + 1 < out.Length && out[cur + fb + 1] == 255
    ensures forall d :: 0 <= d < out.Length && d != cur + fb + 1 ==> out[d] == old(out[d])
  {
    OffMono(j, n, ob);
    ghost var was := out[..];
    out[cur + fb + 1] := 255;
    forall i | 0 <= i < n ensures PixelShown(out[..], base, row, i, fb, ob) {
      assert PixelShown(was, base, row, i, fb, ob);
      if i < j { OffMono(i, j, ob); } else if j < i { OffMono(j, i, ob); }
      LowByteApart(was, out[..], base, row, i, cur + fb + 1, fb, ob);
    }
  }

  lemma LowByteApart(out: seq<byte>, out': seq<byte>, base: nat, row: seq<byte>, i: nat, at: nat, fb: nat, ob: nat)
    requires PixelShown(out, base, row, i, fb, ob) && |out'| == |out|
    requires forall d :: 0 <= d < |out| && d != at ==> out'[d] == out[d]
    requires !(base + Off(i, ob) <= at <= base + Off(i, ob) + fb)
    ensures PixelShown(out', base, row, i, fb, ob)
  {
  }

  /** The second loop over a sixteen-bit row. */
  method LowBytes(out: array<byte>, base: nat, fb: nat, ob: nat, x: nat, ghost before: seq<byte>, ghost row: seq<byte>)
    requires fb + 2 == ob && base + Off(x, ob) <= out.Length
    requires PixelsSoFar(before, out[..], base, row, x, 0, fb, ob)
    modifies out
    ensures PixelsSoFar(before, out[..], base, row, x, 0, fb, ob)
    ensures forall i :: 0 <= i < x ==> LowAlpha(out[..], base, i, fb, ob)
    ensures forall j :: base + Off(x, ob) <= j < out.Length ==> out[j] == old(out[j])
  {
    var cur := base;
    for i := 0 to x
      invariant cur == base + Off(i, ob)
      invariant PixelsSoFar(before, out[..], base, row, x, 0, fb, ob)
      invariant forall j :: 0 <= j < i ==> LowAlpha(out[..], base, j, fb, ob)
      invariant forall j :: base + Off(x, ob) <= j < out.Length ==> out[j] == old(out[j])
    {
      ghost var was := out[..];
      OffMono(i, x, ob);
      PutLow(out, base, cur, i, fb, ob, before, row, x);
      forall j | 0 <= j < i + 1 ensures LowAlpha(out[..], base, j, fb, ob) {
        if j < i {
          assert LowAlpha(was, base, j, fb, ob);
          OffMono(j, i, ob);
        }
      }
      cur := cur + ob;
    }
  }

  method FirstAlphaPixel(out: array<byte>, base: nat, prev: nat, first: bool, raw: seq<byte>, pos: nat, f: nat,
                         fb: nat, ob: nat, ghost before: seq<byte>, ghost filt: seq<byte>, ghost prior: seq<byte>, ghost x: nat)
    requires 1 <= fb < ob <= fb + 2 && x >= 1 && f <= 4 && |filt| == Off(x, fb) && base + Off(x, ob) <= out.Length
    requires pos + |filt| <= |raw| && filt == raw[pos..pos + |filt|] && before == out[..]
    requires PriorShown(before, base, prev, first, prior, x, fb, ob)
    modifies out
    ensures PixelsSoFar(before, out[..], base, Unfilter(f, filt, prior, fb), 1, 0, fb, ob)
    ensures forall j :: base + Off(x, ob) <= j < out.Length ==> out[j] == before[j]
  {
    FirstSamples(out, base, prev, first, raw, pos, f, fb, ob, before, filt, prior, x);
    OffMono(0, x, ob);
    PutAlpha(out, base, base, 0, fb, before, Unfilter(f, filt, prior, fb), ob);
    if ob == fb + 2 { PutLow(out, base, base, 0, fb, ob, before, Unfilter(f, filt, prior, fb), 1); }
  }

  method FirstSamples(out: array<byte>, base: nat, prev: nat, first: bool, raw: seq<byte>, pos: nat, f: nat,
                      fb: nat, ob: nat, ghost before: seq<byte>, ghost filt: seq<byte>, ghost prior: seq<byte>, ghost x: nat)
    requires 1 <= fb < ob && x >= 1 && f <= 4 && |filt| == Off(x, fb) && base + Off(x, ob) <= out.Length
    requires pos + |filt| <= |raw| && filt == raw[pos..pos + |filt|] && before == out[..]
    requires PriorShown(before, base, prev, first, prior, x, fb, ob)
    modifies out
    ensures PixelsSoFar(before, out[..], base, Unfilter(f, filt, prior, fb), 0, fb, fb, ob)
    ensures forall j :: base + Off(x, ob) <= j < out.Length ==> out[j] == before[j]
  {
    OffMono(0, x, fb);
    OffMono(0, x, ob);
    for k := 0 to fb
      invariant PixelsSoFar(before, out[..], base, Unfilter(f, filt, prior, fb), 0, k, fb, ob)
      invariant forall j :: base + Off(x, ob) <= j < out.Length ==> out[j] == before[j]
    {
      FirstAlphaByte(out, base, prev, first, raw[pos + k], f, k, fb, ob, before, filt, prior, x);
    }
  }

  method NextAlphaPixel(out: array<byte>, base: nat, prev: nat, first: bool, raw: seq<byte>, rpos: nat, f: nat, cur: nat, above: nat,
                        ghost i: nat, fb: nat, ob: nat, ghost pos: nat,
                        ghost before: seq<byte>, ghost filt: seq<byte>, ghost prior: seq<byte>, ghost x: nat)
    requires 1 <= fb < ob && 1 <= i < x && f <= 4 && |filt| == Off(x, fb) && base + Off(x, ob) <= out.Length
    requires pos + |filt| <= |raw| && filt == raw[pos..pos + |filt|]
    requires PriorShown(before, base, prev, first, prior, x, fb, ob)
    requires PixelsSoFar(before, out[..], base, Unfilter(f, filt, prior, fb), i, 0, fb, ob)
    requires cur == base + Off(i, ob) && above == prev + Off(i, ob) && rpos == pos + Off(i, fb)
    requires forall j :: base + Off(x, ob) <= j < out.Length ==> out[j] == before[j]
    modifies out
    ensures PixelsSoFar(before, out[..], base, Unfilter(f, filt, prior, fb), i + 1, 0, fb, ob)
    ensures forall j :: base + Off(x, ob) <= j < out.Length ==> out[j] == before[j]
  {
    OffMono(i, x, fb);
    OffMono(i, x, ob);
    for k := 0 to fb
      invariant PixelsSoFar(before, out[..], base, Unfilter(f, filt, prior, fb), i, k, fb, ob)
      invariant forall j :: base + Off(x, ob) <= j < out.Length ==> out[j] == before[j]
    {
      NextAlphaByte(out, base, prev, first, raw[rpos + k], f, cur, above, i, k, fb, ob, before, filt, prior, x);
    }
    PutAlpha(out, base, cur, i, fb, before, Unfilter(f, filt, prior, fb), ob);
  }

  /** A row that gets an opaque alpha: 8 bits (ob == fb + 1) or 16 bits (ob == fb + 2). */
  method AlphaRow(out: array<byte>, base: nat, prev: nat, first: bool, raw: seq<byte>, pos: nat, f: nat, fb: nat, ob: nat,
                  x: nat, ghost prior: seq<byte>)
    requires 1 <= fb && (ob == fb + 1 || ob == fb + 2) && x >= 1 && f <= 4
    requires base + Off(x, ob) <= out.Length && pos + Off(x, fb) <= |raw|
    requires PriorShown(out[..], base, prev, first, prior, x, fb, ob)
    modifies out
    ensures RowShown(out[..], base, Unfilter(f, raw[pos..pos + Off(x, fb)], prior, fb), x, fb, ob)
    ensures forall j :: 0 <= j < out.Length && !(base <= j < base + Off(x, ob)) ==> out[j] == old(out[j])
  {
    ghost var before, filt := out[..], raw[pos..pos + Off(x, fb)];
    FirstAlphaPixel(out, base, prev, first, raw, pos, f, fb, ob, before, filt, prior, x);
    var cur, above, rpos := base + ob, prev + ob, pos + fb;
    for i := 1 to x
      invariant cur == base + Off(i, ob) && above == prev + Off(i, ob) && rpos == pos + Off(i, fb)
      invariant PixelsSoFar(before, out[..], base, Unfilter(f, filt, prior, fb), i, 0, fb, ob)
      invariant forall j :: base + Off(x, ob) <= j < out.Length ==> out[j] == before[j]
    {
      NextAlphaPixel(out, base, prev, first, raw, rpos, f, cur, above, i, fb, ob, pos, before, filt, prior, x);
      cur, above, rpos := cur + ob, above + ob, rpos + fb;
    }
    if ob == fb + 2 { LowBytes(out, base, fb, ob, x, before, Unfilter(f, filt, prior, fb)); }
  }

  // ----- the whole image -----

  /** The rows that the filtered bytes stand for; no rows if a filter byte is out of range or bytes are
      missing. */
  function Decode(raw: seq<byte>, y: nat, n: nat, fb: nat, prior: seq<byte>): Option<seq<seq<byte>>>
    requires 1 <= fb && n == |prior|
    decreases y
  {
    if y == 0 then Some([])
    else if |raw| < n + 1 || raw[0] > 4 then None
    else
      var row := Unfilter(raw[0], raw[1..n + 1], prior, fb);
      var rest := Decode(raw[n + 1..], y - 1, n, fb, row);
      if rest.None? then None else Some([row] + rest.value)
  }

  /** The encoder: any filter type may be chosen for each row. */
  function Encode(filters: seq<nat>, rows: seq<seq<byte>>, n: nat, fb: nat, prior: seq<byte>): seq<byte>
    requires 1 <= fb && n == |prior| && |filters| == |rows|
    requires (forall j :: 0 <= j < |rows| ==> |rows[j]| == n) && forall j :: 0 <= j < |filters| ==> filters[j] <= 4
    decreases |rows|
  {
    if rows == [] then []
    else [filters[0]] + Filter(filters[0], rows[0], prior, fb) + Encode(filters[1..], rows[1..], n, fb, rows[0])
  }

  /** The row is decoded from the filter byte at pos and the n bytes behind it, below the row prior. */
  ghost predicate RowFrom(raw: seq<byte>, pos: nat, n: nat, fb: nat, prior: seq<byte>, row: seq<byte>) {
    && 1 <= fb && n == |prior| && pos + n < |raw| && raw[pos] <= 4
    && row == Unfilter(raw[pos], raw[pos + 1..pos + 1 + n], prior, fb)
  }

  /** What Decode makes of data that it accepts: the first row, and then the rest. */
  lemma DecodedFirst(raw: seq<byte>, y: nat, n: nat, fb: nat, prior: seq<byte>, rows: seq<seq<byte>>)
    requires 1 <= fb && n == |prior| && y > 0 && Decode(raw, y, n, fb, prior) == Some(rows)
    ensures rows != [] && RowFrom(raw, 0, n, fb, prior, rows[0]) && |rows[0]| == n
    ensures Decode(raw[n + 1..], y - 1, n, fb, rows[0]) == Some(rows[1..])
  {
    assert raw[0 + 1..0 + 1 + n] == raw[1..n + 1];
  }

  /** Row j is decoded from the data from its filter byte on, j (n + 1) bytes into the data, and from the
      row before it. */
  lemma {:induction false} DecodedRow(raw: seq<byte>, y: nat, n: nat, fb: nat, prior: seq<byte>, rows: seq<seq<byte>>, j: nat)
    requires 1 <= fb && n == |prior| && Decode(raw, y, n, fb, prior) == Some(rows) && j < y
    ensures |rows| == y && RowFrom(raw, Off(j, n + 1), n, fb, if j == 0 then prior else rows[j - 1], rows[j])
    decreases y
  {
    DecodedFirst(raw, y, n, fb, prior, rows);
    if j > 0 {
      DecodedRow(raw[n + 1..], y - 1, n, fb, rows[0], rows[1..], j - 1);
      LaterRow(raw, n, fb, rows, j);
    } else {
      DecodeNeedsBytes(raw, y, n, fb, prior);
    }
  }

  lemma LaterRow(raw: seq<byte>, n: nat, fb: nat, rows: seq<seq<byte>>, j: nat)
    requires n + 1 <= |raw| && 0 < j < |rows|
    requires RowFrom(raw[n + 1..], Off(j - 1, n + 1), n, fb, if j == 1 then rows[0] else rows[1..][j - 2], rows[1..][j - 1])
    ensures RowFrom(raw, Off(j, n + 1), n, fb, rows[j - 1], rows[j])
  {
    RowBehind(raw, n, Off(j - 1, n + 1), fb, rows[j - 1], rows[j]);
  }

  lemma RowBehind(raw: seq<byte>, n: nat, pos: nat, fb: nat, prior: seq<byte>, row: seq<byte>)
    requires n + 1 <= |raw| && RowFrom(raw[n + 1..], pos, n, fb, prior, row)
    ensures RowFrom(raw, pos + (n + 1), n, fb, prior, row)
  {
    assert raw[n + 1..][pos + 1..pos + 1 + n] == raw[pos + (n + 1) + 1..pos + (n + 1) + 1 + n];
  }

  /** The data stands for y rows exactly when there are enough bytes and every filter byte is in range. */
  lemma {:induction false} DecodesWhen(raw: seq<byte>, y: nat, n: nat, fb: nat, prior: seq<byte>)
    requires 1 <= fb && n == |prior|
    ensures Decode(raw, y, n, fb, prior).Some? <==> FiltersInRange(raw, y, n)
    decreases y
  {
    if y > 0 && |raw| >= n + 1 && raw[0] <= 4 {
      DecodesWhen(raw[n + 1..], y - 1, n, fb, Unfilter(raw[0], raw[1..n + 1], prior, fb));
      RangeStep(raw, y, n);
    } else if y > 0 {
      NotInRange(raw, y, n);
    }
  }

  lemma NotInRange(raw: seq<byte>, y: nat, n: nat)
    requires y > 0 && (|raw| < n + 1 || raw[0] > 4)
    ensures !FiltersInRange(raw, y, n)
  {
    RowsBefore(y, n);
    MulNonNegative(y - 1, n + 1);
    if |raw| >= n + 1 { assert !FilterInRange(raw, 0, n); }
  }

  lemma MulNonNegative(a: nat, b: nat)
    ensures a * b >= 0
  {
  }

  ghost predicate FiltersInRange(raw: seq<byte>, y: nat, n: nat) {
    y * (n + 1) <= |raw| && forall j :: 0 <= j < y ==> FilterInRange(raw, j, n)
  }

  /** The filter byte of row j, if the rows have n bytes. */
  ghost predicate FilterInRange(raw: seq<byte>, j: int, n: nat) {
    0 <= j * (n + 1) < |raw| && raw[j * (n + 1)] <= 4
  }

  lemma RangeStep(raw: seq<byte>, y: nat, n: nat)
    requires y > 0 && |raw| >= n + 1
    ensures FiltersInRange(raw, y, n) <==> raw[0] <= 4 && FiltersInRange(raw[n + 1..], y - 1, n)
  {
    var rest := raw[n + 1..];
    RowsBefore(y, n);
    if FiltersInRange(raw, y, n) {
      assert FilterInRange(raw, 0, n);
      forall j | 0 <= j < y - 1 ensures FilterInRange(rest, j, n) {
        RowsBefore(j + 1, n);
        assert FilterInRange(raw, j + 1, n);
        RowsInside(j, y - 1, n);
      }
    }
    if raw[0] <= 4 && FiltersInRange(rest, y - 1, n) {
      forall j | 0 <= j < y ensures FilterInRange(raw, j, n) {
        if j > 0 {
          RowsBefore(j, n);
          assert FilterInRange(rest, j - 1, n);
        }
      }
    }
  }

  lemma RowsBefore(y: nat, n: nat)
    requires y > 0
    ensures y * (n + 1) == (y - 1) * (n + 1) + n + 1
  {
  }

  lemma RowsInside(j: nat, y: nat, n: nat)
    requires j < y
    ensures 0 <= j * (n + 1) < y * (n + 1)
  {
    OffMono(j, y, n + 1);
    OffIsProduct(j, n + 1);
    OffIsProduct(y, n + 1);
  }

  /** Decoding inverts filtering, for every image, every choice of filters, and whatever follows. */
  lemma {:induction false} DecodeEncode(filters: seq<nat>, rows: seq<seq<byte>>, n: nat, fb: nat, prior: seq<byte>, more: seq<byte>)
    requires 1 <= fb && n == |prior| && |filters| == |rows|
    requires (forall j :: 0 <= j < |rows| ==> |rows[j]| == n) && forall j :: 0 <= j < |filters| ==> filters[j] <= 4
    ensures Decode(Encode(filters, rows, n, fb, prior) + more, |rows|, n, fb, prior) == Some(rows)
    decreases |rows|
  {
    if rows != [] {
      DecodeEncode(filters[1..], rows[1..], n, fb, rows[0], more);
      var rest := Encode(filters[1..], rows[1..], n, fb, rows[0]);
      EncodeFirst(filters, rows, n, fb, prior, rest);
      FilteredFirst(filters[0], rows[0], rows[1..], rest, more, n, fb, prior);
      FirstAndRest(rows);
    }
  }

  lemma EncodeFirst(filters: seq<nat>, rows: seq<seq<byte>>, n: nat, fb: nat, prior: seq<byte>, rest: seq<byte>)
    requires 1 <= fb && n == |prior| && |filters| == |rows| > 0
    requires (forall j :: 0 <= j < |rows| ==> |rows[j]| == n) && forall j :: 0 <= j < |filters| ==> filters[j] <= 4
    requires rest == Encode(filters[1..], rows[1..], n, fb, rows[0])
    ensures Encode(filters, rows, n, fb, prior) == [filters[0]] + Filter(filters[0], rows[0], prior, fb) + rest
  {
  }

  lemma FirstAndRest<T>(s: seq<T>)
    requires s != []
    ensures [s[0]] + s[1..] == s && |s[1..]| + 1 == |s|
  {
  }

  /** A filtered row before data that decodes to the other rows. */
  lemma FilteredFirst(f: byte, row: seq<byte>, rows: seq<seq<byte>>, rest: seq<byte>, more: seq<byte>, n: nat, fb: nat, prior: seq<byte>)
    requires 1 <= fb && n == |prior| == |row| && f <= 4 && Decode(rest + more, |rows|, n, fb, row) == Some(rows)
    ensures Decode([f] + Filter(f, row, prior, fb) + rest + more, |rows| + 1, n, fb, prior) == Some([row] + rows)
  {
    UnfilterFilter(f, row, prior, fb);
    RowFirst(f, Filter(f, row, prior, fb), row, rows, rest, more, n, fb, prior);
  }

  lemma RowFirst(f: byte, filt: seq<byte>, row: seq<byte>, rows: seq<seq<byte>>, rest: seq<byte>, more: seq<byte>, n: nat, fb: nat,
                 prior: seq<byte>)
    requires 1 <= fb && n == |prior| == |row| == |filt| && f <= 4 && Unfilter(f, filt, prior, fb) == row
    requires Decode(rest + more, |rows|, n, fb, row) == Some(rows)
    ensures Decode([f] + filt + rest + more, |rows| + 1, n, fb, prior) == Some([row] + rows)
  {
    Slices(f, filt, rest, more);
    DecodeFirst([f] + filt + rest + more, f, filt, rest + more, row, rows, n, fb, prior);
  }

  lemma Slices(f: byte, filt: seq<byte>, rest: seq<byte>, more: seq<byte>)
    ensures InParts([f] + filt + rest + more, f, filt, rest + more)
  {
  }

  ghost predicate InParts(raw: seq<byte>, f: nat, filt: seq<byte>, rest: seq<byte>) {
    |raw| > |filt| && raw[0] == f && raw[1..|filt| + 1] == filt && raw[|filt| + 1..] == rest
  }

  /** A row with its filter byte, before the rest of the data. */
  lemma DecodeFirst(raw: seq<byte>, f: nat, filt: seq<byte>, rest: seq<byte>, row: seq<byte>, rows: seq<seq<byte>>, n: nat, fb: nat,
                    prior: seq<byte>)
    requires 1 <= fb && n == |prior| == |row| == |filt| && f <= 4 && InParts(raw, f, filt, rest)
    requires Unfilter(f, filt, prior, fb) == row && Decode(rest, |rows|, n, fb, row) == Some(rows)
    ensures Decode(raw, |rows| + 1, n, fb, prior) == Some([row] + rows)
  {
  }

  lemma {:induction false} OffIsProduct(i: nat, size: nat)
    ensures Off(i, size) == i * size
  {
    if i > 0 { OffIsProduct(i - 1, size); }
  }

  /** A decoded row in the output image: plain, or with its alpha channel. */
  ghost predicate RowAt(out: seq<byte>, base: nat, row: seq<byte>, x: nat, fb: nat, ob: nat) {
    if fb == ob then base + |row| <= |out| && out[base..base + |row|] == row else RowShown(out, base, row, x, fb, ob)
  }

  lemma RowAtKept(out: seq<byte>, out': seq<byte>, base: nat, row: seq<byte>, x: nat, fb: nat, ob: nat, limit: nat)
    requires RowAt(out, base, row, x, fb, ob) && |row| == Off(x, fb) && fb <= ob && base + Off(x, ob) <= limit <= |out| == |out'|
    requires forall k :: 0 <= k < limit ==> out'[k] == out[k]
    ensures RowAt(out', base, row, x, fb, ob)
  {
    if fb == ob {
      SliceKept(out, out', base, base + |row|);
    } else {
      forall i | 0 <= i < x ensures PixelShown(out', base, row, i, fb, ob) && LowAlpha(out', base, i, fb, ob) {
        assert PixelShown(out, base, row, i, fb, ob) && LowAlpha(out, base, i, fb, ob);
        OffMono(i, x, ob);
        ShownKept(out, out', base, row, i, fb, ob);
      }
    }
  }

  lemma WholeRow(before: seq<byte>, out: seq<byte>, base: nat, f: nat, filt: seq<byte>, prior: seq<byte>, fb: nat, x: nat)
    requires RowSoFar(before, out, base, |filt|, f, filt, prior, fb)
    ensures RowAt(out, base, Unfilter(f, filt, prior, fb), x, fb, fb)
    ensures forall j :: 0 <= j < |out| && !(base <= j < base + |filt|) ==> out[j] == before[j]
  {
    assert filt[..|filt|] == filt;
  }

  /** One scanline, whichever path it takes. */
  method DecodeRow(out: array<byte>, base: nat, prev: nat, first: bool, raw: seq<byte>, pos: nat, f: nat, fb: nat, ob: nat,
                   x: nat, ghost prior: seq<byte>)
    requires 1 <= fb <= ob <= fb + 2 && x >= 1 && f <= 4 && |prior| == Off(x, fb)
    requires base + Off(x, ob) <= out.Length && pos + Off(x, fb) <= |raw|
    requires if first then prior == Zeros(|prior|) else prev + Off(x, ob) <= base && RowAt(out[..], prev, prior, x, fb, ob)
    modifies out
    ensures RowAt(out[..], base, Unfilter(f, raw[pos..pos + Off(x, fb)], prior, fb), x, fb, ob)
    ensures forall j :: 0 <= j < out.Length && !(base <= j < base + Off(x, ob)) ==> out[j] == old(out[j])
  {
    if fb == ob {
      var n := Times(x, fb);
      PlainRow(out, base, prev, first, raw, pos, f, fb, n, prior);
      WholeRow(old(out[..]), out[..], base, f, raw[pos..pos + n], prior, fb, x);
    } else {
      AlphaRow(out, base, prev, first, raw, pos, f, fb, ob, x, prior);
    }
  }

  /** The rows decoded so far are in the output, and the rest of the input stands for the rest. */
  ghost predicate ImageSoFar(out: seq<byte>, rows: seq<seq<byte>>, x: nat, fb: nat, ob: nat, stride: nat) {
    forall j :: 0 <= j < |rows| ==> |rows[j]| == Off(x, fb) && RowAt(out, Off(j, stride), rows[j], x, fb, ob)
  }

  ghost function Prefixed(rows: seq<seq<byte>>, d: Option<seq<seq<byte>>>): Option<seq<seq<byte>>> {
    if d.None? then None else Some(rows + d.value)
  }

  lemma {:induction false} DecodeNeedsBytes(raw: seq<byte>, y: nat, n: nat, fb: nat, prior: seq<byte>)
    requires 1 <= fb && n == |prior| && Decode(raw, y, n, fb, prior).Some?
    ensures |raw| >= Off(y, n + 1) && |Decode(raw, y, n, fb, prior).value| == y
    decreases y
  {
    if y > 0 { DecodeNeedsBytes(raw[n + 1..], y - 1, n, fb, Unfilter(raw[0], raw[1..n + 1], prior, fb)); }
  }

  ghost function LastRow(rows: seq<seq<byte>>, n: nat): seq<byte> {
    if rows == [] then Zeros(n) else rows[|rows| - 1]
  }

  lemma NoRow(raw: seq<byte>, pos: nat, y: nat, n: nat, fb: nat, rows: seq<seq<byte>>)
    requires 1 <= fb && pos < |raw| && y >= 1 && |LastRow(rows, n)| == n && raw[pos] > 4
    ensures Prefixed(rows, Decode(raw[pos..], y, n, fb, LastRow(rows, n))).None?
  {
  }

  /** One turn of the row loop in terms of the rows still to come. */
  lemma DecodeNext(raw: seq<byte>, pos: nat, y: nat, n: nat, fb: nat, rows: seq<seq<byte>>)
    requires 1 <= fb && pos + n + 1 <= |raw| && y >= 1 && |LastRow(rows, n)| == n && raw[pos] <= 4
    ensures var row := NextRow(raw, pos, n, fb, rows);
            Prefixed(rows, Decode(raw[pos..], y, n, fb, LastRow(rows, n)))
            == Prefixed(rows + [row], Decode(raw[pos + 1 + n..], y - 1, n, fb, row))
  {
    var r := raw[pos..];
    assert r[1..n + 1] == raw[pos + 1..pos + 1 + n] && r[n + 1..] == raw[pos + 1 + n..];
    var row := NextRow(raw, pos, n, fb, rows);
    var d := Decode(raw[pos + 1 + n..], y - 1, n, fb, row);
    if d.Some? { assert rows + ([row] + d.value) == rows + [row] + d.value; }
  }

  /** Samples and bytes of an input pixel and of an output pixel, with 8-bit (bytes == 1) or 16-bit samples. */
  datatype Format = Format(img_n: nat, out_n: nat, bytes: nat, fb: nat, ob: nat) {
    ghost predicate Valid() {
      && img_n >= 1 && (out_n == img_n || out_n == img_n + 1) && (bytes == 1 || bytes == 2)
      && fb == img_n * bytes && ob == out_n * bytes && 1 <= fb
    }
  }

  /** That byte of the output is byte k of the pixel at o in the row, or alpha. */
  ghost predicate ByteIs(out: seq<byte>, at: int, row: seq<byte>, o: int, k: nat, fb: nat) {
    0 <= at < |out| && 0 <= o && o + fb <= |row| && out[at] == if k < fb then row[o + k] else 255
  }

  /** Byte k of pixel i of row j of an image with w pixels in a row. */
  lemma ImageByte(out: seq<byte>, rows: seq<seq<byte>>, w: nat, fb: nat, ob: nat, j: nat, i: nat, k: nat)
    requires ImageSoFar(out, rows, w, fb, ob, Off(w, ob)) && fb <= ob <= fb + 2 && j < |rows| && i < w && k < ob
    ensures ByteIs(out, (j * w + i) * ob + k, rows[j], i * fb, k, fb)
  {
    PlaceInImage(j, i, w, ob);
    OffIsProduct(i, fb);
    OffMono(i, w, fb);
    assert RowAt(out, Off(j, Off(w, ob)), rows[j], w, fb, ob);
    RowByte(out, Off(j, Off(w, ob)), rows[j], w, i, k, fb, ob);
  }

  lemma PlaceInImage(j: nat, i: nat, w: nat, ob: nat)
    ensures Off(j, Off(w, ob)) + Off(i, ob) == (j * w + i) * ob
  {
    OffIsProduct(j, Off(w, ob));
    OffIsProduct(w, ob);
    OffIsProduct(i, ob);
    assert j * (w * ob) == (j * w) * ob;
    assert (j * w) * ob + i * ob == (j * w + i) * ob;
  }

  lemma RowByte(out: seq<byte>, base: nat, row: seq<byte>, w: nat, i: nat, k: nat, fb: nat, ob: nat)
    requires RowAt(out, base, row, w, fb, ob) && |row| == Off(w, fb) && fb <= ob <= fb + 2 && i < w && k < ob
    ensures ByteIs(out, base + Off(i, ob) + k, row, Off(i, fb), k, fb)
  {
    OffMono(i, w, fb);
    if fb == ob {
      SliceByte(out, base, row, 0, |row|, Off(i, fb) + k);
    } else {
      assert PixelShown(out, base, row, i, fb, ob) && LowAlpha(out, base, i, fb, ob);
      PixelByteShown(out, base, row, i, k, fb, ob);
    }
  }

  lemma PixelByteShown(out: seq<byte>, base: nat, row: seq<byte>, i: nat, k: nat, fb: nat, ob: nat)
    requires fb < ob <= fb + 2 && k < ob && PixelShown(out, base, row, i, fb, ob) && LowAlpha(out, base, i, fb, ob)
    ensures ByteIs(out, base + Off(i, ob) + k, row, Off(i, fb), k, fb)
  {
    if k < fb { ShownByte(out, base, row, i, k, fb, ob); }
  }

  /** The bytes of each two-byte sample exchanged. */
  function Swapped(s: seq<byte>): (r: seq<byte>)
    requires |s| % 2 == 0
    ensures |r| == |s| && forall i :: 0 <= i < |s| ==> r[i] == s[if i % 2 == 0 then i + 1 else i - 1]
  {
    seq(|s|, i requires 0 <= i < |s| => s[if i % 2 == 0 then i + 1 else i - 1])
  }

  /** The big-endian bytes of an image that holds native samples, on a little-endian machine. */
  function Ordered(s: seq<byte>, bytes: nat): seq<byte>
    requires bytes == 2 ==> |s| % 2 == 0
  {
    if bytes == 2 then Swapped(s) else s
  }

  lemma SwappedTwice(s: seq<byte>)
    requires |s| % 2 == 0
    ensures Swapped(Swapped(s)) == s
  {
  }

  lemma {:induction false} OffEven(i: nat, size: nat)
    requires size % 2 == 0
    ensures Off(i, size) % 2 == 0
  {
    if i > 0 {
      OffEven(i - 1, size);
      SumEven(Off(i - 1, size), size);
    }
  }

  lemma SumEven(a: nat, b: nat)
    requires a % 2 == 0 && b % 2 == 0
    ensures (a + b) % 2 == 0
  {
  }

  /** The separate pass that makes 16-bit samples native: afterwards the low byte of each comes first. */
  method ToNative(out: array<byte>)
    requires out.Length % 2 == 0
    modifies out
    ensures out[..] == Swapped(old(out[..]))
  {
    ghost var was := out[..];
    var cur := 0;
    while cur < out.Length
      invariant cur <= out.Length && cur % 2 == 0
      invariant forall k :: 0 <= k < out.Length ==> out[k] == if k < cur then Swapped(was)[k] else was[k]
    {
      var high: nat, low: nat := out[cur], out[cur + 1];
      var sample := 256 * high + low;
      out[cur], out[cur + 1] := sample % 256, sample / 256;
      cur := cur + 2;
    }
  }

  /** Decodes all scanlines of an image. It succeeds exactly on data that Decode accepts, and then the
      output holds the decoded rows, with an opaque alpha added when out_n is img_n + 1, and with
      16-bit samples in native order. */
  method CreatePngImageRaw(raw: seq<byte>, f: Format, x: nat, y: nat)
    returns (ok: bool, out: array<byte>)
    requires f.Valid() && x >= 1
    ensures out.Length == Off(y, Off(x, f.ob)) && (f.bytes == 2 ==> out.Length % 2 == 0)
    ensures var n := Off(x, f.fb); var d := Decode(raw, y, n, f.fb, Zeros(n));
            (ok <==> d.Some?)
            && (ok ==> |d.value| == y && ImageSoFar(Ordered(out[..], f.bytes), d.value, x, f.fb, f.ob, Off(x, f.ob)))
  {
    RoomForAlpha(f);
    var stride := Times(x, f.ob);
    var n := Times(x, f.fb);
    var size := Times(y, stride);
    var img_len := Times(y, n + 1);
    out := new byte[size](_ => 0);
    ok := |raw| >= img_len;
    if !ok {
      TooShort(raw, y, n, f.fb);
    } else {
      ok := DecodeRows(out, raw, f.fb, f.ob, x, y, n, stride);
    }
    if f.bytes == 2 { EvenSize(f, x, y); }
    if ok && f.bytes == 2 {
      SwappedTwice(out[..]);
      ToNative(out);
    }
  }

  lemma EvenPixel(f: Format)
    requires f.Valid() && f.bytes == 2
    ensures f.ob % 2 == 0
  {
  }

  lemma EvenSize(f: Format, x: nat, y: nat)
    requires f.Valid() && f.bytes == 2
    ensures f.ob % 2 == 0 && Off(y, Off(x, f.ob)) % 2 == 0
  {
    EvenPixel(f);
    OffEven(x, f.ob);
    OffEven(y, Off(x, f.ob));
  }

  lemma TooShort(raw: seq<byte>, y: nat, n: nat, fb: nat)
    requires 1 <= fb && |raw| < Off(y, n + 1)
    ensures Decode(raw, y, n, fb, Zeros(n)).None?
  {
    if Decode(raw, y, n, fb, Zeros(n)).Some? { DecodeNeedsBytes(raw, y, n, fb, Zeros(n)); }
  }

  method Times(i: nat, size: nat) returns (r: nat)
    ensures r == Off(i, size)
  {
    OffIsProduct(i, size);
    r := i * size;
  }

  lemma RoomForAlpha(f: Format)
    requires f.Valid()
    ensures f.fb <= f.ob <= f.fb + 2
  {
    OneMoreTime(f.img_n, f.bytes);
  }

  lemma OneMoreTime(a: nat, b: nat)
    ensures (a + 1) * b == a * b + b
  {
  }

  /** The rows before pos are decoded into the output. */
  ghost predicate RowsState(out: seq<byte>, raw: seq<byte>, d: Option<seq<seq<byte>>>, rows: seq<seq<byte>>, pos: nat, left: nat,
                            x: nat, fb: nat, ob: nat, n: nat)
  {
    && 1 <= fb && pos <= |raw| && |LastRow(rows, n)| == n
    && ImageSoFar(out, rows, x, fb, ob, Off(x, ob))
    && d == Prefixed(rows, Decode(raw[pos..], left, n, fb, LastRow(rows, n)))
  }

  lemma StartState(out: seq<byte>, raw: seq<byte>, y: nat, x: nat, fb: nat, ob: nat, n: nat)
    requires 1 <= fb
    ensures RowsState(out, raw, Decode(raw, y, n, fb, Zeros(n)), [], 0, y, x, fb, ob, n)
  {
    assert raw[0..] == raw;
    var d := Decode(raw, y, n, fb, Zeros(n));
    if d.Some? { assert [] + d.value == d.value; }
  }

  method DecodeRows(out: array<byte>, raw: seq<byte>, fb: nat, ob: nat, x: nat, y: nat, n: nat, stride: nat) returns (ok: bool)
    requires 1 <= fb <= ob <= fb + 2 && x >= 1 && n == Off(x, fb) && stride == Off(x, ob)
    requires out.Length == Off(y, stride) && |raw| >= Off(y, n + 1)
    modifies out
    ensures var d := Decode(raw, y, n, fb, Zeros(n));
            (ok <==> d.Some?) && (ok ==> |d.value| == y && ImageSoFar(out[..], d.value, x, fb, ob, stride))
  {
    ghost var d := Decode(raw, y, n, fb, Zeros(n));
    ghost var rows;
    StartState(out[..], raw, y, x, fb, ob, n);
    ok, rows := RowLoop(out, raw, fb, ob, x, y, n, stride, d);
    if ok { Finished(out[..], raw, d, rows, Off(y, n + 1), x, fb, ob, n); }
  }

  method RowLoop(out: array<byte>, raw: seq<byte>, fb: nat, ob: nat, x: nat, y: nat, n: nat, stride: nat, ghost d: Option<seq<seq<byte>>>)
    returns (ok: bool, ghost rows: seq<seq<byte>>)
    requires 1 <= fb <= ob <= fb + 2 && x >= 1 && n == Off(x, fb) && stride == Off(x, ob)
    requires out.Length == Off(y, stride) && |raw| >= Off(y, n + 1)
    requires RowsState(out[..], raw, d, [], 0, y, x, fb, ob, n)
    modifies out
    ensures ok ==> |rows| == y && RowsState(out[..], raw, d, rows, Off(y, n + 1), 0, x, fb, ob, n)
    ensures !ok ==> d.None?
  {
    rows := [];
    var pos: nat, base: nat, prev: nat := 0, 0, 0;
    for j := 0 to y
      invariant |rows| == j && At(j, pos, base, prev, n, stride)
      invariant RowsState(out[..], raw, d, rows, pos, y - j, x, fb, ob, n)
    {
      ok, rows, pos, base, prev := DecodeOneMore(out, base, prev, j == 0, raw, pos, fb, ob, x, y, rows, d, n, stride);
      if !ok { return; }
    }
    ok := true;
  }

  /** Where the row loop stands in the input and in the output before row j. */
  ghost predicate At(j: nat, pos: nat, base: nat, prev: nat, n: nat, stride: nat) {
    pos == Off(j, n + 1) && base == Off(j, stride) && (j > 0 ==> prev == Off(j - 1, stride))
  }

  lemma NextAt(j: nat, pos: nat, base: nat, prev: nat, n: nat, stride: nat, y: nat)
    requires At(j, pos, base, prev, n, stride) && j < y
    ensures At(j + 1, pos + 1 + n, base + stride, base, n, stride)
    ensures pos + 1 + n <= Off(y, n + 1) && base + stride <= Off(y, stride)
  {
    OffMono(j, y, n + 1);
    OffMono(j, y, stride);
  }

  lemma Finished(out: seq<byte>, raw: seq<byte>, d: Option<seq<seq<byte>>>, rows: seq<seq<byte>>, pos: nat, x: nat, fb: nat, ob: nat, n: nat)
    requires RowsState(out, raw, d, rows, pos, 0, x, fb, ob, n)
    ensures d == Some(rows) && ImageSoFar(out, rows, x, fb, ob, Off(x, ob))
  {
    assert rows + [] == rows;
  }

  /** One turn of the row loop. */
  method DecodeOneMore(out: array<byte>, base: nat, prev: nat, first: bool, raw: seq<byte>, pos: nat, fb: nat, ob: nat, x: nat, y: nat,
                       ghost rows: seq<seq<byte>>, ghost d: Option<seq<seq<byte>>>, n: nat, stride: nat)
    returns (ok: bool, ghost rows': seq<seq<byte>>, pos': nat, base': nat, prev': nat)
    requires 1 <= fb <= ob <= fb + 2 && x >= 1 && n == Off(x, fb) && stride == Off(x, ob)
    requires out.Length == Off(y, stride) && |raw| >= Off(y, n + 1) && |rows| < y
    requires At(|rows|, pos, base, prev, n, stride) && first == (|rows| == 0)
    requires RowsState(out[..], raw, d, rows, pos, y - |rows|, x, fb, ob, n)
    modifies out
    ensures ok ==> |rows'| == |rows| + 1 && At(|rows'|, pos', base', prev', n, stride)
    ensures ok ==> RowsState(out[..], raw, d, rows', pos', y - |rows'|, x, fb, ob, n)
    ensures !ok ==> d.None?
  {
    pos', base', prev' := pos + 1 + n, base + stride, base;
    NextAt(|rows|, pos, base, prev, n, stride, y);
    ok, rows' := DecodeNextRow(out, base, prev, first, raw, pos, fb, ob, x, rows, d, y - |rows|, n);
  }

  method DecodeNextRow(out: array<byte>, base: nat, prev: nat, first: bool, raw: seq<byte>, pos: nat, fb: nat, ob: nat, x: nat,
                       ghost rows: seq<seq<byte>>, ghost d: Option<seq<seq<byte>>>, ghost left: nat, n: nat)
    returns (ok: bool, ghost rows': seq<seq<byte>>)
    requires 1 <= fb <= ob <= fb + 2 && x >= 1 && left >= 1 && n == Off(x, fb)
    requires base == Off(|rows|, Off(x, ob)) && base + Off(x, ob) <= out.Length && pos + 1 + n <= |raw|
    requires first == (|rows| == 0) && (!first ==> prev == Off(|rows| - 1, Off(x, ob)))
    requires RowsState(out[..], raw, d, rows, pos, left, x, fb, ob, n)
    modifies out
    ensures ok ==> |rows'| == |rows| + 1 && RowsState(out[..], raw, d, rows', pos + 1 + n, left - 1, x, fb, ob, n)
    ensures !ok ==> d.None?
  {
    rows' := rows;
    var filter := raw[pos];
    if filter > 4 {
      NoRow(raw, pos, left, n, fb, rows);
      return false, rows;
    }
    DecodeInto(out, base, prev, first, raw, pos + 1, filter, fb, ob, x, rows, Off(x, ob));
    rows' := rows + [NextRow(raw, pos, n, fb, rows)];
    RowsNext(out[..], raw, d, rows, pos, left, x, fb, ob, n);
    ok := true;
  }

  /** The row whose filter byte is at pos. */
  ghost function NextRow(raw: seq<byte>, pos: nat, n: nat, fb: nat, rows: seq<seq<byte>>): seq<byte>
    requires 1 <= fb && pos + 1 + n <= |raw| && |LastRow(rows, n)| == n
  {
    Unfilter(raw[pos], raw[pos + 1..pos + 1 + n], LastRow(rows, n), fb)
  }

  lemma RowsNext(out: seq<byte>, raw: seq<byte>, d: Option<seq<seq<byte>>>, rows: seq<seq<byte>>, pos: nat, left: nat,
                 x: nat, fb: nat, ob: nat, n: nat)
    requires 1 <= fb && pos + 1 + n <= |raw| && raw[pos] <= 4 && left >= 1 && |LastRow(rows, n)| == n
    requires ImageSoFar(out, rows + [NextRow(raw, pos, n, fb, rows)], x, fb, ob, Off(x, ob))
    requires d == Prefixed(rows, Decode(raw[pos..], left, n, fb, LastRow(rows, n)))
    ensures RowsState(out, raw, d, rows + [NextRow(raw, pos, n, fb, rows)], pos + 1 + n, left - 1, x, fb, ob, n)
  {
    DecodeNext(raw, pos, left, n, fb, rows);
  }

  method DecodeInto(out: array<byte>, base: nat, prev: nat, first: bool, raw: seq<byte>, pos: nat, f: nat, fb: nat, ob: nat,
                       x: nat, ghost rows: seq<seq<byte>>, ghost stride: nat)
    requires 1 <= fb <= ob <= fb + 2 && x >= 1 && f <= 4 && stride == Off(x, ob)
    requires base == Off(|rows|, stride) && base + stride <= out.Length && pos + Off(x, fb) <= |raw|
    requires first == (|rows| == 0) && (!first ==> prev == Off(|rows| - 1, stride))
    requires ImageSoFar(out[..], rows, x, fb, ob, stride)
    modifies out
    ensures |LastRow(rows, Off(x, fb))| == Off(x, fb)
    ensures ImageSoFar(out[..], rows + [Unfilter(f, raw[pos..pos + Off(x, fb)], LastRow(rows, Off(x, fb)), fb)], x, fb, ob, stride)
  {
    ghost var was, prior := out[..], LastRow(rows, Off(x, fb));
    DecodeRow(out, base, prev, first, raw, pos, f, fb, ob, x, prior);
    forall j | 0 <= j < |rows| ensures RowAt(out[..], Off(j, stride), rows[j], x, fb, ob) {
      OffMono(j, |rows|, stride);
      RowAtKept(was, out[..], Off(j, stride), rows[j], x, fb, ob, base);
    }
  }
}
