/** PNG images with 1, 2 or 4 bits per sample: the scanlines are decoded into the right end of their rows
    and then expanded in place, first to one byte per sample from the left, then, where an alpha channel
    is added, from the right. */
module PngPacked {
  import opened Wrappers
  import opened PngFilter
  import Bits

  /** Samples in a byte. */
  function PerByte(depth: nat): (n: nat)
    ensures depth == 1 || depth == 2 || depth == 4 ==> n * depth == 8
  {
    if depth == 1 then 8 else if depth == 2 then 4 else 2
  }

  /** The k-th sample of a byte, the first one topmost, by shift and mask. */
  function Sample(b: byte, depth: nat, k: nat): nat {
    if depth == 4 then if k == 0 then b / 16 else b % 16
    else if depth == 2 then
      if k == 0 then b / 64 else if k == 1 then b / 16 % 4 else if k == 2 then b / 4 % 4 else b % 4
    else
      match k
      case 0 => b / 128
      case 1 => b / 64 % 2
      case 2 => b / 32 % 2
      case 3 => b / 16 % 2
      case 4 => b / 8 % 2
      case 5 => b / 4 % 2
      case 6 => b / 2 % 2
      case _ => b % 2
  }

  /** Sample k of a byte holds the bits from 8 - depth (k + 1) up, as a number of depth bits. */
  lemma SampleBits(b: byte, depth: nat, k: nat)
    requires (depth == 1 || depth == 2 || depth == 4) && k < PerByte(depth)
    ensures depth * (k + 1) <= 8
    ensures Sample(b, depth, k) == b / Bits.Pow2(8 - depth * (k + 1)) % Bits.Pow2(depth)
  {
    Powers();
    if depth == 4 {
      if k == 0 {} else {}
    } else if depth == 2 {
      if k == 0 {} else if k == 1 {} else if k == 2 {} else {}
    } else {
      EachBit(b, k);
    }
  }

  lemma EachBit(b: byte, k: nat)
    requires k < 8
    ensures Sample(b, 1, k) == b / Bits.Pow2(7 - k) % 2
  {
    Powers();
    if k == 0 {} else if k == 1 {} else if k == 2 {} else if k == 3 {} else if k == 4 {} else if k == 5 {} else if k == 6 {} else {}
  }

  lemma Powers()
    ensures Bits.Pow2(0) == 1 && Bits.Pow2(1) == 2 && Bits.Pow2(2) == 4 && Bits.Pow2(3) == 8
    ensures Bits.Pow2(4) == 16 && Bits.Pow2(5) == 32 && Bits.Pow2(6) == 64 && Bits.Pow2(7) == 128
  {
    assert Bits.Pow2(3) == 8;
  }

  /** What grey samples are multiplied by. */
  function DepthScale(depth: nat): nat {
    if depth == 1 then 0xff else if depth == 2 then 0x55 else 0x11
  }

  predicate Packed(depth: nat, scale: nat) {
    (depth == 1 || depth == 2 || depth == 4) && (scale == 1 || scale == DepthScale(depth))
  }

  /** A scaled sample is a byte, and the largest grey one is white. */
  lemma ScaledIsByte(b: byte, depth: nat, k: nat, scale: nat)
    requires Packed(depth, scale) && k < PerByte(depth)
    ensures scale * Sample(b, depth, k) <= 255
    ensures b == 255 && scale == DepthScale(depth) ==> scale * Sample(b, depth, k) == 255
  {
    if depth == 4 {
      assert Sample(b, depth, k) <= 15;
    } else if depth == 2 {
      assert Sample(b, depth, k) <= 3;
    } else {
      assert Sample(b, depth, k) <= 1;
    }
  }

  function Value(b: byte, depth: nat, k: nat, scale: nat): (v: byte)
    requires Packed(depth, scale) && k < PerByte(depth)
  {
    ScaledIsByte(b, depth, k, scale);
    scale * Sample(b, depth, k)
  }

  /** Bytes that n samples take. */
  function Bytes(n: nat, depth: nat): nat { (n * depth + 7) / 8 }

  /** In terms of whole bytes. */
  lemma BytesHold(n: nat, depth: nat, scale: nat)
    requires Packed(depth, scale) && n > 0
    ensures Bytes(n, depth) >= 1
    ensures var per := PerByte(depth); (Bytes(n, depth) - 1) * per < n <= Bytes(n, depth) * per
  {
    if depth == 1 {} else if depth == 2 {} else {}
  }

  /** The n samples of a packed row, one byte each. */
  function Unpacked(row: seq<byte>, depth: nat, scale: nat, n: nat): (s: seq<byte>)
    requires Packed(depth, scale) && n <= PerByte(depth) * |row|
    ensures |s| == n
  {
    seq<byte>(n, t requires 0 <= t < n => UnpackedAt(row, depth, scale, t))
  }

  function UnpackedAt(row: seq<byte>, depth: nat, scale: nat, t: nat): byte
    requires Packed(depth, scale) && t < PerByte(depth) * |row|
  {
    Value(row[t / PerByte(depth)], depth, t % PerByte(depth), scale)
  }

  // ----- one row to one byte per sample -----

  /** Byte q of the packed row still holds samples from t on. */
  predicate Unread(q: nat, per: nat, t: nat) { (q + 1) * per > t }

  /** The first t samples are expanded at base; the bytes at from that are not used up are the packed row's,
      and nothing outside the expansion has changed. */
  ghost predicate Expanding(before: seq<byte>, out: seq<byte>, base: nat, from: nat, row: seq<byte>, depth: nat, scale: nat,
                            n: nat, t: nat)
    requires Packed(depth, scale)
  {
    && |out| == |before| && t <= n <= PerByte(depth) * |row| && base + n <= from + |row| <= |out|
    && (forall u :: 0 <= u < t ==> out[base + u] == UnpackedAt(row, depth, scale, u))
    && (t < n ==> forall q :: 0 <= q < |row| && Unread(q, PerByte(depth), t) ==> out[from + q] == row[q])
    && forall k :: 0 <= k < |out| && !(base <= k < base + t) ==> out[k] == before[k]
  }

  /** The write of sample t falls short of every byte that is still to be read. */
  lemma WriteBehindRead(n: nat, t: nat, q: nat, per: nat, len: nat)
    requires per == 2 || per == 4 || per == 8
    requires t + 1 < n && (len - 1) * per < n <= len * per && q < len && Unread(q, per, t + 1)
    ensures t < n - len + q
  {
    if q + 1 < len {
      if per == 2 {} else if per == 4 {} else {}
    }
  }

  method WriteSample(out: array<byte>, cur: nat, v: byte, ghost before: seq<byte>, ghost base: nat, ghost from: nat,
                     ghost row: seq<byte>, ghost depth: nat, ghost scale: nat, ghost n: nat, ghost t: nat)
    returns (cur': nat, ghost t': nat)
    requires Packed(depth, scale) && n > 0 && |row| == Bytes(n, depth)
    requires Expanding(before, out[..], base, from, row, depth, scale, n, t) && t < n
    requires cur == base + t && v == UnpackedAt(row, depth, scale, t)
    modifies out
    ensures t' == t + 1 && cur' == cur + 1 && Expanding(before, out[..], base, from, row, depth, scale, n, t')
  {
    cur', t' := cur + 1, t + 1;
    ghost var was := out[..];
    out[cur] := v;
    OneExpanded(before, was, out[..], base, from, row, depth, scale, n, t);
  }

  lemma OneExpanded(before: seq<byte>, was: seq<byte>, now: seq<byte>, base: nat, from: nat, row: seq<byte>, depth: nat, scale: nat,
                    n: nat, t: nat)
    requires Packed(depth, scale) && n > 0 && |row| == Bytes(n, depth) && t < n
    requires Expanding(before, was, base, from, row, depth, scale, n, t)
    requires now == was[base + t := UnpackedAt(row, depth, scale, t)]
    ensures Expanding(before, now, base, from, row, depth, scale, n, t + 1)
  {
    if t + 1 < n {
      var per := PerByte(depth);
      forall q | 0 <= q < |row| && Unread(q, per, t + 1) ensures now[from + q] == row[q] {
        StillUnread(before, was, base, from, row, depth, scale, n, t, q);
      }
    }
  }

  lemma StillUnread(before: seq<byte>, was: seq<byte>, base: nat, from: nat, row: seq<byte>, depth: nat, scale: nat, n: nat, t: nat, q: nat)
    requires Packed(depth, scale) && n > 0 && |row| == Bytes(n, depth) && t + 1 < n && q < |row| && Unread(q, PerByte(depth), t + 1)
    requires Expanding(before, was, base, from, row, depth, scale, n, t)
    ensures base + t < from + q < |was| && was[from + q] == row[q]
  {
    BytesHold(n, depth, scale);
    WriteBehindRead(n, t, q, PerByte(depth), |row|);
    assert Unread(q, PerByte(depth), t);
  }

  /** The next samples of one byte; the unrolled statements of the source are one loop here. */
  method WriteSamples(out: array<byte>, cur: nat, at: nat, depth: nat, scale: nat, count: nat, ghost before: seq<byte>,
                      ghost base: nat, ghost from: nat, ghost row: seq<byte>, ghost n: nat, ghost q: nat, ghost t0: nat)
    returns (cur': nat, ghost t: nat)
    requires Packed(depth, scale) && n > 0 && |row| == Bytes(n, depth) && q < |row| && at == from + q
    requires cur == base + t0 && t0 == q * PerByte(depth) && count <= PerByte(depth) && t0 + count <= n
    requires Expanding(before, out[..], base, from, row, depth, scale, n, t0)
    modifies out
    ensures t == t0 + count && cur' == base + t && Expanding(before, out[..], base, from, row, depth, scale, n, t)
  {
    cur', t := cur, t0;
    for s := 0 to count
      invariant t == t0 + s && cur' == base + t && Expanding(before, out[..], base, from, row, depth, scale, n, t)
    {
      SampleAt(q, s, PerByte(depth));
      assert Unread(q, PerByte(depth), t);
      cur', t := WriteSample(out, cur', Value(out[at], depth, s, scale), before, base, from, row, depth, scale, n, t);
    }
  }

  lemma SampleAt(q: nat, s: nat, per: nat)
    requires (per == 2 || per == 4 || per == 8) && s < per
    ensures (q * per + s) / per == q && (q * per + s) % per == s && (q + 1) * per > q * per + s
  {
    if per == 2 {} else if per == 4 {} else {}
  }

  /** Expands the packed row at from to n bytes at base. */
  method ExpandRow(out: array<byte>, base: nat, from: nat, n: nat, depth: nat, scale: nat, ghost row: seq<byte>)
    requires Packed(depth, scale) && n > 0 && |row| == Bytes(n, depth)
    requires base + n <= from + |row| <= out.Length && out[from..from + |row|] == row
    modifies out
    ensures base + n <= out.Length && n <= PerByte(depth) * |row|
    ensures out[base..base + n] == Unpacked(row, depth, scale, n)
    ensures forall k :: 0 <= k < out.Length && !(base <= k < base + n) ==> out[k] == old(out[k])
  {
    ghost var before, q, t := out[..], 0, 0;
    BytesHold(n, depth, scale);
    Start(before, base, from, row, depth, scale, n);
    var per := PerByte(depth);
    var k, cur, at := n, base, from;
    while k >= per
      invariant k <= n && n - k == t == q * per && cur == base + t && at == from + q
      invariant Expanding(before, out[..], base, from, row, depth, scale, n, t)
    {
      ByteLeft(n, q, per, k, |row|);
      cur, t := WriteSamples(out, cur, at, depth, scale, per, before, base, from, row, n, q, t);
      k, at, q := k - per, at + 1, q + 1;
    }
    if k > 0 {
      ByteLeft(n, q, per, k, |row|);
      cur, t := WriteSamples(out, cur, at, depth, scale, k, before, base, from, row, n, q, t);
    }
    AllExpanded(before, out[..], base, from, row, depth, scale, n);
  }

  lemma Start(before: seq<byte>, base: nat, from: nat, row: seq<byte>, depth: nat, scale: nat, n: nat)
    requires Packed(depth, scale) && n <= PerByte(depth) * |row| && base + n <= from + |row| <= |before|
    requires before[from..from + |row|] == row
    ensures Expanding(before, before, base, from, row, depth, scale, n, 0)
  {
    forall q | 0 <= q < |row| ensures before[from + q] == row[q] { assert before[from..from + |row|][q] == row[q]; }
  }

  lemma ByteLeft(n: nat, q: nat, per: nat, k: nat, len: nat)
    requires 0 < k <= n <= len * per && n - k == q * per
    ensures q < len && (q + 1) * per == n - k + per
  {
    if q >= len { MulMono(len, q, per); }
  }

  lemma MulMono(a: nat, b: nat, c: nat)
    requires a <= b
    ensures a * c <= b * c
  {
  }

  lemma AllExpanded(before: seq<byte>, out: seq<byte>, base: nat, from: nat, row: seq<byte>, depth: nat, scale: nat, n: nat)
    requires Packed(depth, scale) && Expanding(before, out, base, from, row, depth, scale, n, n)
    ensures base + n <= |out| && out[base..base + n] == Unpacked(row, depth, scale, n)
  {
  }

  // ----- room for an alpha channel -----

  /** Moves one pixel of n samples up from src to dst, last sample first, and makes it opaque. */
  method SpreadPixel(out: array<byte>, src: nat, dst: nat, n: nat)
    requires src <= dst && dst + n < out.Length
    modifies out
    ensures out[dst..dst + n] == old(out[src..src + n]) && out[dst + n] == 255
    ensures forall k :: 0 <= k < out.Length && !(dst <= k <= dst + n) ==> out[k] == old(out[k])
  {
    ghost var before := out[..];
    out[dst + n] := 255;
    for c := n downto 0
      invariant forall k :: dst + c <= k < dst + n ==> out[k] == before[k - dst + src]
      invariant out[dst + n] == 255
      invariant forall k :: 0 <= k < out.Length && !(dst + c <= k <= dst + n) ==> out[k] == before[k]
    {
      out[dst + c] := out[src + c];
    }
    assert out[dst..dst + n] == before[src..src + n];
  }

  /** Spreads the x pixels of a row, last pixel first, so that none is overwritten before it has moved. */
  method SpreadRow(out: array<byte>, base: nat, x: nat, n: nat, ob: nat, ghost row: seq<byte>)
    requires n > 0 && ob == n + 1 && |row| == Off(x, n) && base + Off(x, ob) <= out.Length
    requires base + Off(x, n) <= out.Length && out[base..base + Off(x, n)] == row
    modifies out
    ensures RowShown(out[..], base, row, x, n, ob)
    ensures forall k :: 0 <= k < out.Length && !(base <= k < base + Off(x, ob)) ==> out[k] == old(out[k])
  {
    ghost var before := out[..];
    for q := x downto 0
      invariant Spread(before, out[..], base, row, x, n, ob, q)
    {
      SpreadTurn(out, base, x, q, n, ob, row, before);
    }
  }

  /** The pixels from q on are spread, those before are where they were. */
  ghost predicate Spread(before: seq<byte>, out: seq<byte>, base: nat, row: seq<byte>, x: nat, n: nat, ob: nat, q: nat) {
    && |out| == |before|
    && (forall i :: q <= i < x ==> PixelShown(out, base, row, i, n, ob))
    && forall k :: 0 <= k < |out| && !(base + Off(q, ob) <= k < base + Off(x, ob)) ==> out[k] == before[k]
  }

  method SpreadTurn(out: array<byte>, base: nat, ghost x: nat, q: nat, n: nat, ob: nat, ghost row: seq<byte>, ghost before: seq<byte>)
    requires n > 0 && ob == n + 1 && q < x && |row| == Off(x, n) && base + Off(x, ob) <= out.Length
    requires base + Off(x, n) <= |before| && before[base..base + Off(x, n)] == row && Spread(before, out[..], base, row, x, n, ob, q + 1)
    modifies out
    ensures Spread(before, out[..], base, row, x, n, ob, q)
  {
    SpreadFits(x, q, n, ob);
    var src := Times(q, n);
    var dst := Times(q, ob);
    ghost var was := out[..];
    Unmoved(before, was, base, row, x, n, ob, q);
    SpreadPixel(out, base + src, base + dst, n);
    OneSpread(before, was, out[..], base, row, x, n, ob, q, base + dst);
  }

  lemma SpreadFits(x: nat, q: nat, n: nat, ob: nat)
    requires q < x && ob == n + 1
    ensures Off(q, n) <= Off(q, ob) && Off(q, ob) + ob <= Off(x, ob) && Off(q, n) + n <= Off(x, n) && Off(q + 1, ob) == Off(q, ob) + ob
  {
    OffIsProduct(q, n);
    OffIsProduct(q, ob);
    OffMono(q, x, n);
    OffMono(q, x, ob);
  }

  lemma OneSpread(before: seq<byte>, was: seq<byte>, now: seq<byte>, base: nat, row: seq<byte>, x: nat, n: nat, ob: nat, q: nat, dst: nat)
    requires q < x && ob == n + 1 && Spread(before, was, base, row, x, n, ob, q + 1) && |now| == |was| && dst == base + Off(q, ob)
    requires dst + n < |now| && Off(q, n) + n <= |row| && now[dst..dst + n] == row[Off(q, n)..Off(q, n) + n] && now[dst + n] == 255
    requires forall k :: 0 <= k < |now| && !(dst <= k <= dst + n) ==> now[k] == was[k]
    ensures Spread(before, now, base, row, x, n, ob, q)
  {
    SpreadFits(x, q, n, ob);
    forall i | q <= i < x ensures PixelShown(now, base, row, i, n, ob) {
      if q < i {
        if q + 1 < i { OffMono(q + 1, i, ob); }
        ShownAbove(was, now, base, row, i, n, ob, dst + n + 1);
      }
    }
  }

  lemma Unmoved(before: seq<byte>, was: seq<byte>, base: nat, row: seq<byte>, x: nat, n: nat, ob: nat, q: nat)
    requires q < x && ob == n + 1 && Spread(before, was, base, row, x, n, ob, q + 1)
    requires |row| == Off(x, n) && base + Off(x, n) <= |before| && before[base..base + Off(x, n)] == row
    ensures Off(q, n) + n <= |row| && base + Off(q, n) + n <= |was|
    ensures was[base + Off(q, n)..base + Off(q, n) + n] == row[Off(q, n)..Off(q, n) + n]
  {
    SpreadFits(x, q, n, ob);
    SliceOfRow(before, was, base, row, Off(q, n), n);
  }

  lemma SliceOfRow(before: seq<byte>, was: seq<byte>, base: nat, row: seq<byte>, o: nat, n: nat)
    requires base + |row| <= |before| == |was| && before[base..base + |row|] == row && o + n <= |row|
    requires forall k :: 0 <= k < base + o + n ==> was[k] == before[k]
    ensures was[base + o..base + o + n] == row[o..o + n]
  {
    var a, b := was[base + o..base + o + n], row[o..o + n];
    forall u | 0 <= u < n ensures a[u] == b[u] { assert before[base..base + |row|][o + u] == row[o + u]; }
  }

  lemma ShownAbove(was: seq<byte>, now: seq<byte>, base: nat, row: seq<byte>, i: nat, n: nat, ob: nat, limit: nat)
    requires PixelShown(was, base, row, i, n, ob) && limit <= base + Off(i, ob) && |now| == |was|
    requires forall k :: limit <= k < |now| ==> now[k] == was[k]
    ensures PixelShown(now, base, row, i, n, ob)
  {
    SliceSame(was, now, base + Off(i, ob), base + Off(i, ob) + n);
  }

  // ----- the whole image -----

  /** A decoded row stands at the right end of its place. */
  ghost predicate RightRow(out: seq<byte>, row: seq<byte>, base: nat, shift: nat, len: nat) {
    |row| == len && base + shift + len <= |out| && out[base + shift..base + shift + len] == row
  }

  ghost predicate AtRight(out: seq<byte>, rows: seq<seq<byte>>, from: nat, shift: nat, stride: nat, len: nat) {
    stride == shift + len && forall j :: from <= j < |rows| ==> RightRow(out, rows[j], Off(j, stride), shift, len)
  }

  lemma SliceSame(s: seq<byte>, t: seq<byte>, lo: nat, hi: nat)
    requires lo <= hi <= |s| == |t| && forall k :: lo <= k < hi ==> t[k] == s[k]
    ensures t[lo..hi] == s[lo..hi]
  {
  }

  /** Writes into the place of row j leave the other rows alone. */
  lemma AtRightKept(out: seq<byte>, out': seq<byte>, rows: seq<seq<byte>>, from: nat, from': nat, shift: nat, stride: nat, len: nat, j: nat)
    requires AtRight(out, rows, from, shift, stride, len) && |out'| == |out| && from <= from'
    requires forall k :: 0 <= k < |out| && !(Off(j, stride) <= k < Off(j, stride) + stride) ==> out'[k] == out[k]
    requires j < from' || |rows| <= j
    ensures AtRight(out', rows, from', shift, stride, len)
  {
    forall r | from' <= r < |rows| ensures RightRow(out', rows[r], Off(r, stride), shift, len) {
      assert RightRow(out, rows[r], Off(r, stride), shift, len);
      if r < j { OffMono(r, j, stride); } else { OffMono(j, r, stride); }
      SliceSame(out, out', Off(r, stride) + shift, Off(r, stride) + stride);
    }
  }

  /** The state of the row loop before row j: the rows before pos are in the output, the rest of the data
      stands for the rest. */
  ghost predicate RowsSoFar(out: seq<byte>, raw: seq<byte>, d: Option<seq<seq<byte>>>, rows: seq<seq<byte>>, pos: nat, base: nat, prev: nat,
                            y: nat, shift: nat, stride: nat, len: nat)
  {
    && |rows| <= y && pos <= |raw| && |LastRow(rows, len)| == len && AtRight(out, rows, 0, shift, stride, len)
    && At(|rows|, pos, base, prev, len, stride)
    && d == Prefixed(rows, Decode(raw[pos..], y - |rows|, len, 1, LastRow(rows, len)))
  }

  /** Decodes the rows of packed bytes. */
  method DecodeRows(out: array<byte>, raw: seq<byte>, y: nat, shift: nat, stride: nat, len: nat, ghost d: Option<seq<seq<byte>>>)
    returns (ok: bool, ghost rows: seq<seq<byte>>)
    requires len >= 1 && stride == shift + len && out.Length == Off(y, stride) && |raw| >= Off(y, len + 1)
    requires RowsSoFar(out[..], raw, d, [], 0, 0, 0, y, shift, stride, len)
    modifies out
    ensures ok ==> |rows| == y && d == Some(rows) && AtRight(out[..], rows, 0, shift, stride, len)
    ensures !ok ==> d.None?
  {
    rows := [];
    ok := true;
    var pos: nat, base: nat, prev: nat := 0, 0, 0;
    for j := 0 to y
      invariant |rows| == j && RowsSoFar(out[..], raw, d, rows, pos, base, prev, y, shift, stride, len)
    {
      ok, rows, pos, base, prev := DecodeOneRow(out, base, prev, j == 0, raw, pos, y, shift, stride, len, rows, d);
      if !ok { return; }
    }
    AllRows(out[..], raw, d, rows, pos, base, prev, y, shift, stride, len);
  }

  lemma StartRows(out: seq<byte>, raw: seq<byte>, y: nat, shift: nat, stride: nat, len: nat)
    requires len >= 1 && stride == shift + len
    ensures RowsSoFar(out, raw, Decode(raw, y, len, 1, Zeros(len)), [], 0, 0, 0, y, shift, stride, len)
  {
    var d := Decode(raw, y, len, 1, Zeros(len));
    assert raw[0..] == raw;
    if d.Some? { assert [] + d.value == d.value; }
  }

  lemma AllRows(out: seq<byte>, raw: seq<byte>, d: Option<seq<seq<byte>>>, rows: seq<seq<byte>>, pos: nat, base: nat, prev: nat,
                y: nat, shift: nat, stride: nat, len: nat)
    requires RowsSoFar(out, raw, d, rows, pos, base, prev, y, shift, stride, len) && |rows| == y && len >= 1
    ensures d == Some(rows)
  {
    assert rows + [] == rows;
  }

  method DecodeOneRow(out: array<byte>, base: nat, prev: nat, first: bool, raw: seq<byte>, pos: nat, ghost y: nat, shift: nat, stride: nat,
                      len: nat, ghost rows: seq<seq<byte>>, ghost d: Option<seq<seq<byte>>>)
    returns (ok: bool, ghost rows': seq<seq<byte>>, pos': nat, base': nat, prev': nat)
    requires len >= 1 && |rows| < y && out.Length == Off(y, stride) && |raw| >= Off(y, len + 1) && first == (|rows| == 0)
    requires RowsSoFar(out[..], raw, d, rows, pos, base, prev, y, shift, stride, len)
    modifies out
    ensures ok ==> |rows'| == |rows| + 1 && RowsSoFar(out[..], raw, d, rows', pos', base', prev', y, shift, stride, len)
    ensures !ok ==> d.None?
  {
    NextAt(|rows|, pos, base, prev, len, stride, y);
    rows', pos', base', prev' := rows, pos + 1 + len, base + stride, base;
    var filter := raw[pos];
    if filter > 4 {
      NoRow(raw, pos, y - |rows|, len, 1, rows);
      ok := false;
      return;
    }
    ghost var was, row := out[..], NextRow(raw, pos, len, 1, rows);
    PriorAtRight(was, rows, prev, base, first, shift, stride, len);
    DecodeAtRight(out, base, prev, first, raw, pos, filter, shift, len, rows, row);
    rows' := rows + [row];
    RowPlaced(was, out[..], rows, row, rows', shift, stride, len);
    RowAdded(out[..], raw, d, rows, rows', pos, pos', base, base', y, shift, stride, len);
    ok := true;
  }

  /** A row of the data moves from what is to come to what is done. */
  lemma RowAdded(out: seq<byte>, raw: seq<byte>, d: Option<seq<seq<byte>>>, rows: seq<seq<byte>>, rows': seq<seq<byte>>, pos: nat, pos': nat,
                 base: nat, base': nat, y: nat, shift: nat, stride: nat, len: nat)
    requires len >= 1 && |rows| < y && pos' == pos + 1 + len <= |raw| && raw[pos] <= 4 && |LastRow(rows, len)| == len
    requires d == Prefixed(rows, Decode(raw[pos..], y - |rows|, len, 1, LastRow(rows, len)))
    requires rows' == rows + [NextRow(raw, pos, len, 1, rows)] && AtRight(out, rows', 0, shift, stride, len)
    requires At(|rows| + 1, pos', base', base, len, stride)
    ensures RowsSoFar(out, raw, d, rows', pos', base', base, y, shift, stride, len)
  {
    RestIsDecoded(raw, d, rows, rows', pos, pos', y - |rows|, len);
  }

  lemma RestIsDecoded(raw: seq<byte>, d: Option<seq<seq<byte>>>, rows: seq<seq<byte>>, rows': seq<seq<byte>>, pos: nat, pos': nat, left: nat,
                      len: nat)
    requires len >= 1 && left >= 1 && pos' == pos + 1 + len <= |raw| && raw[pos] <= 4 && |LastRow(rows, len)| == len
    requires d == Prefixed(rows, Decode(raw[pos..], left, len, 1, LastRow(rows, len))) && rows' == rows + [NextRow(raw, pos, len, 1, rows)]
    ensures |LastRow(rows', len)| == len && d == Prefixed(rows', Decode(raw[pos'..], left - 1, len, 1, LastRow(rows', len)))
  {
    DecodeNext(raw, pos, left, len, 1, rows);
  }

  /** Decodes one row into the right end of its place. */
  method DecodeAtRight(out: array<byte>, base: nat, prev: nat, first: bool, raw: seq<byte>, pos: nat, f: nat, shift: nat, len: nat,
                       ghost rows: seq<seq<byte>>, ghost row: seq<byte>)
    requires len >= 1 && pos + 1 + len <= |raw| && f == raw[pos] <= 4 && |LastRow(rows, len)| == len
    requires row == NextRow(raw, pos, len, 1, rows) && base + shift + len <= out.Length
    requires PriorAt(out[..], prev + shift, first, LastRow(rows, len)) && (!first ==> prev + shift + len <= base + shift)
    modifies out
    ensures RightRow(out[..], row, base, shift, len)
    ensures forall k :: 0 <= k < out.Length && !(base + shift <= k < base + shift + len) ==> out[k] == old(out[k])
  {
    ghost var was := out[..];
    PlainRow(out, base + shift, prev + shift, first, raw, pos + 1, f, 1, len, LastRow(rows, len));
    PlacedRow(was, out[..], base, shift, len, f, raw[pos + 1..pos + 1 + len], LastRow(rows, len), row);
  }

  lemma PriorAtRight(out: seq<byte>, rows: seq<seq<byte>>, prev: nat, base: nat, first: bool, shift: nat, stride: nat, len: nat)
    requires AtRight(out, rows, 0, shift, stride, len) && first == (|rows| == 0) && (!first ==> prev == Off(|rows| - 1, stride))
    requires base == Off(|rows|, stride)
    ensures PriorAt(out, prev + shift, first, LastRow(rows, len)) && (!first ==> prev + shift + len <= base + shift)
  {
    if !first { assert RightRow(out, rows[|rows| - 1], prev, shift, len); }
  }

  lemma PlacedRow(before: seq<byte>, out: seq<byte>, base: nat, shift: nat, len: nat, f: nat, filt: seq<byte>, prior: seq<byte>, row: seq<byte>)
    requires |filt| == len <= |prior| && RowSoFar(before, out, base + shift, len, f, filt, prior, 1) && row == Unfilter(f, filt, prior, 1)
    ensures RightRow(out, row, base, shift, len) && |out| == |before|
    ensures forall j :: 0 <= j < |out| && !(base + shift <= j < base + shift + len) ==> out[j] == before[j]
  {
    assert filt[..len] == filt;
  }

  lemma RowPlaced(was: seq<byte>, out: seq<byte>, rows: seq<seq<byte>>, row: seq<byte>, rows': seq<seq<byte>>, shift: nat, stride: nat, len: nat)
    requires AtRight(was, rows, 0, shift, stride, len) && RightRow(out, row, Off(|rows|, stride), shift, len) && rows' == rows + [row]
    requires var lo := Off(|rows|, stride) + shift;
             |out| == |was| && forall k :: 0 <= k < |out| && !(lo <= k < lo + len) ==> out[k] == was[k]
    ensures AtRight(out, rows', 0, shift, stride, len)
  {
    AtRightKept(was, out, rows, 0, 0, shift, stride, len, |rows|);
  }

  /** Shape of the image: samples of a pixel in and out, bits of a sample, and what samples are scaled by. */
  datatype PackedFormat = PackedFormat(img_n: nat, out_n: nat, depth: nat, scale: nat) {
    predicate Valid() {
      (img_n == 1 || img_n == 3) && (out_n == img_n || out_n == img_n + 1) && Packed(depth, scale)
    }
  }

  /** Rows of that many bytes hold n samples. */
  ghost predicate Hold(rows: seq<seq<byte>>, depth: nat, n: nat, len: nat) {
    n <= PerByte(depth) * len && forall j :: 0 <= j < |rows| ==> |rows[j]| == len
  }

  /** The rows with one byte per sample. */
  ghost function UnpackedRows(rows: seq<seq<byte>>, f: PackedFormat, n: nat, len: nat): (r: seq<seq<byte>>)
    requires f.Valid() && Hold(rows, f.depth, n, len)
    ensures |r| == |rows| && forall j :: 0 <= j < |r| ==> |r[j]| == n
  {
    seq(|rows|, j requires 0 <= j < |rows| => Unpacked(rows[j], f.depth, f.scale, n))
  }

  /** Expands one row in place and, if asked for, adds its alpha. */
  method FinishRow(out: array<byte>, base: nat, f: PackedFormat, x: nat, n: nat, shift: nat, ghost row: seq<byte>, ghost len: nat)
    requires f.Valid() && x >= 1 && n == Off(x, f.img_n) && len == Bytes(n, f.depth) && shift + len == Off(x, f.out_n)
    requires base + Off(x, f.out_n) <= out.Length && RightRow(out[..], row, base, shift, len) && n <= PerByte(f.depth) * |row|
    modifies out
    ensures RowAt(out[..], base, Unpacked(row, f.depth, f.scale, n), x, f.img_n, f.out_n)
    ensures forall k :: 0 <= k < out.Length && !(base <= k < base + Off(x, f.out_n)) ==> out[k] == old(out[k])
  {
    WideEnough(f, x);
    ExpandRow(out, base, base + shift, n, f.depth, f.scale, row);
    if f.img_n != f.out_n {
      SpreadRow(out, base, x, f.img_n, f.out_n, Unpacked(row, f.depth, f.scale, n));
    }
  }

  lemma WideEnough(f: PackedFormat, x: nat)
    requires f.Valid() && x >= 1
    ensures 0 < Off(x, f.img_n) <= Off(x, f.out_n) && x <= Off(x, f.out_n)
  {
    OffIsProduct(x, f.img_n);
    OffIsProduct(x, f.out_n);
  }

  /** The rows before j are finished, those from j on are still packed at the right. */
  ghost predicate Finishing(out: seq<byte>, rows: seq<seq<byte>>, whole: seq<seq<byte>>, f: PackedFormat, x: nat, j: nat, shift: nat, len: nat) {
    && |whole| == |rows| && j <= |rows|
    && (forall r :: 0 <= r < j ==> RowAt(out, Off(r, Off(x, f.out_n)), whole[r], x, f.img_n, f.out_n))
    && AtRight(out, rows, j, shift, Off(x, f.out_n), len)
  }

  method FinishRows(out: array<byte>, f: PackedFormat, x: nat, y: nat, n: nat, shift: nat, stride: nat, ghost rows: seq<seq<byte>>,
                    ghost whole: seq<seq<byte>>, ghost len: nat)
    requires f.Valid() && x >= 1 && n == Off(x, f.img_n) && stride == Off(x, f.out_n) && len == Bytes(n, f.depth)
    requires |rows| == y && out.Length == Off(y, stride) && AtRight(out[..], rows, 0, shift, stride, len)
    requires Hold(rows, f.depth, n, len) && whole == UnpackedRows(rows, f, n, len)
    modifies out
    ensures ImageSoFar(out[..], whole, x, f.img_n, f.out_n, stride)
  {
    var base := 0;
    for j := 0 to y
      invariant base == Off(j, stride) && Finishing(out[..], rows, whole, f, x, j, shift, len)
    {
      base := FinishTurn(out, base, f, x, y, n, j, shift, stride, rows, whole, len);
    }
  }

  method FinishTurn(out: array<byte>, base: nat, f: PackedFormat, x: nat, ghost y: nat, n: nat, ghost j: nat, shift: nat, stride: nat,
                    ghost rows: seq<seq<byte>>, ghost whole: seq<seq<byte>>, ghost len: nat)
    returns (base': nat)
    requires f.Valid() && x >= 1 && n == Off(x, f.img_n) && stride == Off(x, f.out_n) && len == Bytes(n, f.depth)
    requires |rows| == y && j < y && out.Length == Off(y, stride) && Hold(rows, f.depth, n, len) && whole == UnpackedRows(rows, f, n, len)
    requires base == Off(j, stride) && Finishing(out[..], rows, whole, f, x, j, shift, len)
    modifies out
    ensures base' == Off(j + 1, stride) && Finishing(out[..], rows, whole, f, x, j + 1, shift, len)
  {
    OffMono(j, y, stride);
    ghost var was := out[..];
    assert RightRow(was, rows[j], base, shift, len);
    FinishRow(out, base, f, x, n, shift, rows[j], len);
    OneFinished(was, out[..], rows, whole, f, x, j, shift, len);
    base' := base + stride;
  }

  lemma OneFinished(was: seq<byte>, now: seq<byte>, rows: seq<seq<byte>>, whole: seq<seq<byte>>, f: PackedFormat, x: nat, j: nat,
                    shift: nat, len: nat)
    requires f.Valid() && Finishing(was, rows, whole, f, x, j, shift, len) && j < |rows| && |now| == |was|
    requires forall r :: 0 <= r < |whole| ==> |whole[r]| == Off(x, f.img_n)
    requires Off(j, Off(x, f.out_n)) <= |was| && RowAt(now, Off(j, Off(x, f.out_n)), whole[j], x, f.img_n, f.out_n)
    requires var base, stride := Off(j, Off(x, f.out_n)), Off(x, f.out_n);
             forall k :: 0 <= k < |now| && !(base <= k < base + stride) ==> now[k] == was[k]
    ensures Finishing(now, rows, whole, f, x, j + 1, shift, len)
  {
    var stride := Off(x, f.out_n);
    forall r | 0 <= r <= j ensures RowAt(now, Off(r, stride), whole[r], x, f.img_n, f.out_n) {
      if r < j {
        OffMono(r, j, stride);
        RowAtKept(was, now, Off(r, stride), whole[r], x, f.img_n, f.out_n, Off(j, stride));
      }
    }
    AtRightKept(was, now, rows, j, j + 1, shift, stride, len, j);
  }

  /** What decoding an image with packed samples has to do with the rows d that its data stands for: fail
      where there are none; else show every sample scaled, and an opaque alpha where one is added. */
  ghost predicate ImageDecoded(ok: bool, out: seq<byte>, d: Option<seq<seq<byte>>>, f: PackedFormat, x: nat, y: nat, n: nat, len: nat) {
    && f.Valid() && (ok <==> d.Some?)
    && (ok ==> |d.value| == y && Hold(d.value, f.depth, n, len)
               && ImageSoFar(out, UnpackedRows(d.value, f, n, len), x, f.img_n, f.out_n, Off(x, f.out_n)))
  }

  /** Decodes all scanlines of an image with packed samples. It succeeds exactly on data that Decode accepts
      as rows of packed bytes, unless a row of them is wider than the image. */
  method CreatePngImageRaw(raw: seq<byte>, f: PackedFormat, x: nat, y: nat) returns (ok: bool, out: array<byte>)
    requires f.Valid() && x >= 1
    ensures var n, len := Off(x, f.img_n), Bytes(Off(x, f.img_n), f.depth);
            if y > 0 && len > x then !ok
            else ImageDecoded(ok, out[..], Decode(raw, y, len, 1, Zeros(len)), f, x, y, n, len)
    ensures out.Length == Off(y, Off(x, f.out_n))
  {
    var stride := Times(x, f.out_n);
    var n := Times(x, f.img_n);
    var size := Times(y, stride);
    var img_width_bytes := (n * f.depth + 7) / 8;
    var img_len := Times(y, img_width_bytes + 1);
    out := new byte[size](_ => 0);
    WideEnough(f, x);
    BytesHold(n, f.depth, f.scale);
    if |raw| < img_len {
      TooShort(raw, y, img_width_bytes, 1);
      return false, out;
    }
    if y > 0 && img_width_bytes > x { return false, out; }  // the source looks at this with every row
    ok := DecodeAndFinish(out, raw, f, x, y, n, stride, img_width_bytes);
  }

  method DecodeAndFinish(out: array<byte>, raw: seq<byte>, f: PackedFormat, x: nat, y: nat, n: nat, stride: nat, len: nat) returns (ok: bool)
    requires f.Valid() && x >= 1 && n == Off(x, f.img_n) && stride == Off(x, f.out_n) && len == Bytes(n, f.depth)
    requires out.Length == Off(y, stride) && |raw| >= Off(y, len + 1) && (y > 0 ==> len <= x)
    modifies out
    ensures ImageDecoded(ok, out[..], Decode(raw, y, len, 1, Zeros(len)), f, x, y, n, len)
  {
    ghost var d := Decode(raw, y, len, 1, Zeros(len));
    WideEnough(f, x);
    BytesHold(n, f.depth, f.scale);
    if y == 0 { return true; }
    ghost var rows;
    StartRows(out[..], raw, y, stride - len, stride, len);
    ok, rows := DecodeRows(out, raw, y, stride - len, stride, len, d);
    if ok {
      RowsHold(out[..], rows, f.depth, n, stride - len, stride, len);
      FinishRows(out, f, x, y, n, stride - len, stride, rows, UnpackedRows(rows, f, n, len), len);
    }
  }

  lemma RowsHold(out: seq<byte>, rows: seq<seq<byte>>, depth: nat, n: nat, shift: nat, stride: nat, len: nat)
    requires AtRight(out, rows, 0, shift, stride, len) && n <= len * PerByte(depth)
    ensures Hold(rows, depth, n, len)
  {
    forall j | 0 <= j < |rows| ensures |rows[j]| == len { assert RightRow(out, rows[j], Off(j, stride), shift, len); }
  }

  /** Every byte of a decoded image: sample k of pixel i of row j is the sample of that number in the packed
      row, times 255, 85 or 17 where grey is scaled; the alpha behind it is 255. */
  lemma PackedPixel(out: seq<byte>, d: Option<seq<seq<byte>>>, f: PackedFormat, w: nat, h: nat, j: nat, i: nat, k: nat)
    requires w >= 1 && ImageDecoded(true, out, d, f, w, h, Off(w, f.img_n), Bytes(Off(w, f.img_n), f.depth))
    requires j < h && i < w && k < f.out_n
    ensures j < |d.value|
    ensures SampleShown(out, (j * w + i) * f.out_n + k, d.value[j], f, i * f.img_n + k, k)
    ensures f.scale == 1 || f.scale == if f.depth == 1 then 255 else if f.depth == 2 then 85 else 17
  {
    var n, len := Off(w, f.img_n), Bytes(Off(w, f.img_n), f.depth);
    ImageByte(out, UnpackedRows(d.value, f, n, len), w, f.img_n, f.out_n, j, i, k);
    SampleThere(out, (j * w + i) * f.out_n + k, d.value[j], f, n, i * f.img_n, k);
  }

  ghost predicate SampleShown(out: seq<byte>, at: int, row: seq<byte>, f: PackedFormat, t: int, k: nat) {
    && f.Valid() && 0 <= at < |out| && 0 <= t
    && if k < f.img_n then IsSample(out[at], row, f.depth, f.scale, t) else out[at] == 255
  }

  lemma SampleThere(out: seq<byte>, at: int, row: seq<byte>, f: PackedFormat, n: nat, o: int, k: nat)
    requires f.Valid() && n <= PerByte(f.depth) * |row| && ByteIs(out, at, Unpacked(row, f.depth, f.scale, n), o, k, f.img_n)
    ensures SampleShown(out, at, row, f, o + k, k)
  {
    if k < f.img_n { SampleOfRow(row, f.depth, f.scale, n, o + k); }
  }

  /** The value is sample t of the row. */
  ghost predicate IsSample(v: nat, row: seq<byte>, depth: nat, scale: nat, t: nat)
    requires depth == 1 || depth == 2 || depth == 4
  {
    var per := 8 / depth;
    var last := depth * (t % per + 1);
    t / per < |row| && last <= 8 && v == scale * (row[t / per] / Bits.Pow2(8 - last) % Bits.Pow2(depth))
  }

  lemma SampleOfRow(row: seq<byte>, depth: nat, scale: nat, n: nat, t: nat)
    requires Packed(depth, scale) && t < n <= PerByte(depth) * |row|
    ensures IsSample(Unpacked(row, depth, scale, n)[t], row, depth, scale, t)
  {
    var per := PerByte(depth);
    SampleInRow(t, per, |row|);
    SampleBits(row[t / per], depth, t % per);
  }

  lemma SampleInRow(t: nat, per: nat, len: nat)
    requires (per == 2 || per == 4 || per == 8) && t < per * len
    ensures t / per < len && t % per < per
  {
  }
}
