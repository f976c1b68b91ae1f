// Looking up a glyph in a format 4 cmap subtable: stbtt_FindGlyphIndex of
// 3rdparty/stb/stb_truetype.h, against the OpenType definition of the subtable.
module CmapSearch {
  import opened Bits

  type Byte = x: nat | x < 256

  /** A big-endian 16-bit word. */
  function Ushort(data: seq<Byte>, at: nat): (r: nat)
    requires at + 2 <= |data|
    ensures r < 0x1_0000
  {
    Pair(data[at], data[at + 1])
  }

  function Pair(high: nat, low: nat): nat { high * 256 + low }

  function Mod16(x: int): (r: nat)
    ensures r < 0x1_0000
  {
    x % 0x1_0000
  }

  function Short(data: seq<Byte>, at: nat): int
    requires at + 2 <= |data|
  {
    if Ushort(data, at) < 0x8000 then Ushort(data, at) else Ushort(data, at) - 0x1_0000
  }

  /** The subtable starts at m and has n segments; its four arrays are in the data. */
  ghost predicate Fits(data: seq<Byte>, m: nat, n: nat) {
    1 <= n < 0x8000 && m + 16 + 8 * n <= |data|
  }

  function EndCode(data: seq<Byte>, m: nat, n: nat, i: nat): nat
    requires Fits(data, m, n) && i < n
  {
    Ushort(data, m + 14 + 2 * i)
  }

  function StartCode(data: seq<Byte>, m: nat, n: nat, i: nat): nat
    requires Fits(data, m, n) && i < n
  {
    Ushort(data, m + 14 + 2 * n + 2 + 2 * i)
  }

  function Delta(data: seq<Byte>, m: nat, n: nat, i: nat): int
    requires Fits(data, m, n) && i < n
  {
    Short(data, m + 14 + 4 * n + 2 + 2 * i)
  }

  function RangeOffset(data: seq<Byte>, m: nat, n: nat, i: nat): nat
    requires Fits(data, m, n) && i < n
  {
    Ushort(data, m + 14 + 6 * n + 2 + 2 * i)
  }

  /** Where a segment with a range offset keeps the glyph of a code point. */
  function GlyphAt(data: seq<Byte>, m: nat, n: nat, i: nat, cp: int): nat
    requires Fits(data, m, n) && i < n && cp >= StartCode(data, m, n, i)
  {
    RangeOffset(data, m, n, i) + (cp - StartCode(data, m, n, i)) * 2 + m + 14 + 6 * n + 2 + 2 * i
  }

  /** The code point lies in segment i. */
  predicate InSegment(data: seq<Byte>, m: nat, n: nat, i: nat, cp: int)
    requires Fits(data, m, n) && i < n
  {
    StartCode(data, m, n, i) <= cp <= EndCode(data, m, n, i)
  }

  /** A glyph that the segment keeps for the code point is in the data. */
  predicate Pointed(data: seq<Byte>, m: nat, n: nat, i: nat, cp: int)
    requires Fits(data, m, n) && i < n
  {
    InSegment(data, m, n, i, cp) && RangeOffset(data, m, n, i) != 0 ==> GlyphAt(data, m, n, i, cp) + 2 <= |data|
  }

  /** A well-formed subtable: the search fields fit the number of segments, end codes increase and the
      last is 0xFFFF, and every glyph it points to is in the data. */
  ghost predicate WellFormed(data: seq<Byte>, m: nat, n: nat, k: nat) {
    && Fits(data, m, n)
    && Ushort(data, m + 6) == 2 * n
    && Pow2(k) <= n < 2 * Pow2(k)
    && Ushort(data, m + 8) == 2 * Pow2(k) && Ushort(data, m + 10) == k && Ushort(data, m + 12) == 2 * n - 2 * Pow2(k)
    && (forall i, j :: 0 <= i < j < n ==> EndCode(data, m, n, i) < EndCode(data, m, n, j))
    && EndCode(data, m, n, n - 1) == 0xFFFF
    && (forall i, cp: int :: 0 <= i < n ==> Pointed(data, m, n, i, cp))
  }

  // ----- the definition -----

  /** The first segment, from i on, whose end code is not below the code point. */
  function FirstSegment(data: seq<Byte>, m: nat, n: nat, cp: int, i: nat): (r: nat)
    requires Fits(data, m, n) && i <= n
    ensures i <= r <= n && (r < n ==> EndCode(data, m, n, r) >= cp)
    ensures forall j :: i <= j < r ==> EndCode(data, m, n, j) < cp
    decreases n - i
  {
    if i == n || EndCode(data, m, n, i) >= cp then i else FirstSegment(data, m, n, cp, i + 1)
  }

  function SegmentGlyph(data: seq<Byte>, m: nat, n: nat, i: nat, cp: int): nat
    requires Fits(data, m, n) && i < n && Pointed(data, m, n, i, cp)
  {
    if !InSegment(data, m, n, i, cp) then 0
    else if RangeOffset(data, m, n, i) == 0 then Mod16(cp + Delta(data, m, n, i))
    else Ushort(data, GlyphAt(data, m, n, i, cp))
  }

  /** The glyph the source looks up, by linear scan. */
  function Glyph(data: seq<Byte>, m: nat, n: nat, k: nat, cp: int): nat
    requires WellFormed(data, m, n, k)
  {
    var i := FirstSegment(data, m, n, cp, 0);
    if i == n then 0 else SegmentGlyph(data, m, n, i, cp)
  }

  /** The glyph the OpenType specification defines: it adds the delta to a glyph found through a range
      offset as well, unless that glyph is 0. */
  function OpenTypeGlyph(data: seq<Byte>, m: nat, n: nat, k: nat, cp: int): nat
    requires WellFormed(data, m, n, k)
  {
    var i := FirstSegment(data, m, n, cp, 0);
    if i == n then 0
    else
      var g := SegmentGlyph(data, m, n, i, cp);
      if InSegment(data, m, n, i, cp) && RangeOffset(data, m, n, i) != 0 && g != 0 then Mod16(g + Delta(data, m, n, i)) else g
  }

  // ----- the search -----

  /** The biased power-of-two search: the first segment whose end code is not below the code point. */
  method FindSegment(data: seq<Byte>, index_map: nat, cp: int, ghost n: nat, ghost k: nat) returns (item: nat)
    requires WellFormed(data, index_map, n, k) && cp <= 0xFFFF
    ensures item < n && item == FirstSegment(data, index_map, n, cp, 0)
  {
    var searchRange := Ushort(data, index_map + 8) / 2;
    var entrySelector := Ushort(data, index_map + 10);
    var rangeShift := Ushort(data, index_map + 12) / 2;
    var endCount := index_map + 14;
    ghost var answer := FirstSegment(data, index_map, n, cp, 0);
    AllSides(data, index_map, n, k, cp);
    var search, s := SearchStart(data, index_map, cp, rangeShift, n, k, answer);
    search := SearchLoop(data, index_map, cp, search, searchRange, entrySelector, n, s, answer);
    search := search + 2;
    item := (search - endCount) / 2;
  }

  /** An end code is below the code point exactly before the answer. */
  ghost predicate Sides(data: seq<Byte>, m: nat, n: nat, cp: int, answer: nat) {
    Fits(data, m, n) && forall i :: 0 <= i < n ==> (cp > EndCode(data, m, n, i) <==> i < answer)
  }

  lemma AllSides(data: seq<Byte>, m: nat, n: nat, k: nat, cp: int)
    requires WellFormed(data, m, n, k)
    ensures Sides(data, m, n, cp, FirstSegment(data, m, n, cp, 0))
  {
    forall i | 0 <= i < n ensures cp > EndCode(data, m, n, i) <==> i < FirstSegment(data, m, n, cp, 0) { SideOf(data, m, n, k, cp, i); }
  }

  /** Halves the range until one place is left, the one before which the search then stands. */
  method SearchLoop(data: seq<Byte>, index_map: nat, cp: int, start: nat, range: nat, selector: nat, ghost n: nat, ghost s0: int, ghost answer: nat)
    returns (search: nat)
    requires Sides(data, index_map, n, cp, answer) && range == Pow2(selector) && start == index_map + 14 + 2 * s0
    requires Between(answer, s0, range, n)
    ensures search == index_map + 14 + 2 * (answer - 1) && answer < n
  {
    ghost var s := s0;
    var searchRange, entrySelector := range, selector;
    search := start;
    while entrySelector != 0
      invariant searchRange == Pow2(entrySelector) && search == index_map + 14 + 2 * s && Between(answer, s, searchRange, n)
      decreases entrySelector
    {
      searchRange := searchRange / 2;
      search, s := SearchTurn(data, index_map, cp, search, searchRange, n, s, answer);
      entrySelector := entrySelector - 1;
    }
  }

  /** The search starts in the upper half if the code point reaches it; the first look compares with >=,
      so that the answer may be the last place before. */
  method SearchStart(data: seq<Byte>, index_map: nat, cp: int, rangeShift: nat, ghost n: nat, ghost k: nat, ghost answer: nat)
    returns (search: nat, ghost s: int)
    requires WellFormed(data, index_map, n, k) && cp <= 0xFFFF && rangeShift == n - Pow2(k) && Sides(data, index_map, n, cp, answer)
    ensures search == index_map + 14 + 2 * s && Between(answer, s, Pow2(k), n)
  {
    search, s := index_map + 14, -1;
    FirstHalf(data, index_map, n, k, cp, answer);
    if cp >= Ushort(data, search + rangeShift * 2) {
      search := search + rangeShift * 2;
      s := rangeShift - 1;
    }
    search := search - 2;
  }

  /** The answer is one of the searchRange places after s. */
  ghost predicate Between(answer: nat, s: int, searchRange: nat, n: nat) {
    -1 <= s < answer <= s + searchRange <= n - 1
  }

  /** One turn of the search: the answer is in the half that is kept. */
  method SearchTurn(data: seq<Byte>, index_map: nat, cp: int, search: nat, searchRange: nat, ghost n: nat, ghost s: int, ghost answer: nat)
    returns (search': nat, ghost s': int)
    requires Sides(data, index_map, n, cp, answer) && searchRange > 0 && search == index_map + 14 + 2 * s
    requires Between(answer, s, 2 * searchRange, n)
    ensures search' == index_map + 14 + 2 * s' && Between(answer, s', searchRange, n)
  {
    var end := Ushort(data, search + searchRange * 2);
    assert end == EndCode(data, index_map, n, s + searchRange);
    search', s' := search, s;
    if cp > end {
      search' := search + searchRange * 2;
      s' := s + searchRange;
    }
  }

  /** One look at an end code tells on which side the answer is. */
  lemma SideOf(data: seq<Byte>, m: nat, n: nat, k: nat, cp: int, i: nat)
    requires WellFormed(data, m, n, k) && i < n
    ensures cp > EndCode(data, m, n, i) <==> i < FirstSegment(data, m, n, cp, 0)
  {
  }

  lemma FirstHalf(data: seq<Byte>, m: nat, n: nat, k: nat, cp: int, answer: nat)
    requires WellFormed(data, m, n, k) && cp <= 0xFFFF && Sides(data, m, n, cp, answer)
    ensures answer < n && m + 16 + 2 * (n - Pow2(k)) <= |data| && Pow2(k) <= n < 2 * Pow2(k)
    ensures var shift := n - Pow2(k);
            if cp >= Ushort(data, m + 14 + shift * 2) then shift <= answer else answer <= shift
  {
    var shift := n - Pow2(k);
    EndCodeAt(data, m, n, shift);
    LastReaches(data, m, n, k, cp, answer);
    if shift > 0 { EndsAscend(data, m, n, k, shift - 1); }
  }

  lemma EndCodeAt(data: seq<Byte>, m: nat, n: nat, i: nat)
    requires Fits(data, m, n) && i < n
    ensures m + 16 + 2 * i <= |data| && Ushort(data, m + 14 + i * 2) == EndCode(data, m, n, i)
  {
  }

  lemma LastReaches(data: seq<Byte>, m: nat, n: nat, k: nat, cp: int, answer: nat)
    requires WellFormed(data, m, n, k) && cp <= 0xFFFF && Sides(data, m, n, cp, answer)
    ensures answer < n
  {
    assert cp <= EndCode(data, m, n, n - 1);
  }

  lemma EndsAscend(data: seq<Byte>, m: nat, n: nat, k: nat, i: nat)
    requires WellFormed(data, m, n, k) && i + 1 < n
    ensures EndCode(data, m, n, i) < EndCode(data, m, n, i + 1)
  {
  }

  method FindGlyphIndex(data: seq<Byte>, index_map: nat, cp: int, ghost n: nat, ghost k: nat) returns (glyph: nat)
    requires WellFormed(data, index_map, n, k) && Ushort(data, index_map) == 4
    ensures glyph == if cp > 0xFFFF then 0 else Glyph(data, index_map, n, k, cp)
  {
    var segcount := Ushort(data, index_map + 6) / 2;
    if cp > 0xFFFF { return 0; }
    var item := FindSegment(data, index_map, cp, n, k);
    InFound(data, index_map, n, k, item, cp);
    glyph := MapInSegment(data, index_map, segcount, item, cp);
  }

  lemma InFound(data: seq<Byte>, m: nat, n: nat, k: nat, item: nat, cp: int)
    requires WellFormed(data, m, n, k) && item < n && item == FirstSegment(data, m, n, cp, 0)
    ensures Fits(data, m, n) && Ushort(data, m + 6) / 2 == n && Pointed(data, m, n, item, cp)
    ensures Glyph(data, m, n, k, cp) == SegmentGlyph(data, m, n, item, cp)
  {
    assert Pointed(data, m, n, item, cp);
  }

  /** The lookup in the segment found. */
  method MapInSegment(data: seq<Byte>, index_map: nat, segcount: nat, item: nat, cp: int) returns (glyph: nat)
    requires Fits(data, index_map, segcount) && item < segcount
    requires Pointed(data, index_map, segcount, item, cp)
    ensures glyph == SegmentGlyph(data, index_map, segcount, item, cp)
  {
    var start := Ushort(data, index_map + 14 + 2 * segcount + 2 + 2 * item);
    var last := Ushort(data, index_map + 14 + 2 * item);
    assert start == StartCode(data, index_map, segcount, item) && last == EndCode(data, index_map, segcount, item);
    if cp < start || cp > last { return 0; }
    var offset := Ushort(data, index_map + 14 + 6 * segcount + 2 + 2 * item);
    assert offset == RangeOffset(data, index_map, segcount, item);
    if offset == 0 {
      return (cp + Short(data, index_map + 14 + 4 * segcount + 2 + 2 * item)) % 0x1_0000;
    }
    glyph := Ushort(data, offset + (cp - start) * 2 + index_map + 14 + 6 * segcount + 2 + 2 * item);
  }

  /** The segment refers to a stored glyph that is not 0, and has a delta to add to it. */
  predicate DeltaMatters(data: seq<Byte>, m: nat, n: nat, i: nat, cp: int)
    requires Fits(data, m, n) && i < n && Pointed(data, m, n, i, cp)
  {
    && InSegment(data, m, n, i, cp) && RangeOffset(data, m, n, i) != 0
    && Ushort(data, GlyphAt(data, m, n, i, cp)) != 0 && Delta(data, m, n, i) != 0
  }

  /** The source agrees with the specification exactly where it need not add the delta: outside all
      segments, without a range offset, where the stored glyph is 0, or where the delta is 0. */
  lemma AgreesWithOpenType(data: seq<Byte>, m: nat, n: nat, k: nat, cp: int)
    requires WellFormed(data, m, n, k) && cp <= 0xFFFF
    ensures var i := FirstSegment(data, m, n, cp, 0);
            i < n
            && (Glyph(data, m, n, k, cp) == OpenTypeGlyph(data, m, n, k, cp) <==> !DeltaMatters(data, m, n, i, cp))
  {
    assert EndCode(data, m, n, n - 1) >= cp;
    var i := FirstSegment(data, m, n, cp, 0);
    OpenTypeAt(data, m, n, k, cp, i);
    ShiftFixes(SegmentGlyph(data, m, n, i, cp), Delta(data, m, n, i));
  }

  /** Both lookups in terms of the segment found. */
  lemma OpenTypeAt(data: seq<Byte>, m: nat, n: nat, k: nat, cp: int, i: nat)
    requires WellFormed(data, m, n, k) && i < n && i == FirstSegment(data, m, n, cp, 0)
    ensures Pointed(data, m, n, i, cp)
    ensures var g, stored := SegmentGlyph(data, m, n, i, cp), InSegment(data, m, n, i, cp) && RangeOffset(data, m, n, i) != 0;
            && Glyph(data, m, n, k, cp) == g
            && OpenTypeGlyph(data, m, n, k, cp) == (if stored && g != 0 then Mod16(g + Delta(data, m, n, i)) else g)
            && (DeltaMatters(data, m, n, i, cp) <==> stored && g != 0 && Delta(data, m, n, i) != 0)
  {
  }

  lemma ShiftFixes(g: nat, d: int)
    requires g < 0x1_0000 && -0x8000 <= d < 0x8000
    ensures Mod16(g + d) == g <==> d == 0
  {
  }

  // ----- the subtable word by word -----

  /** The 16-bit word at a byte offset, high byte first. */
  function Word(data: seq<Byte>, at: int): nat {
    if 0 <= at && at + 2 <= |data| then Pair0(data[at], data[at + 1]) else 0
  }

  function Pair0(high: nat, low: nat): nat { 256 * high + low }

  /** The end code of segment j is below the code point. */
  ghost predicate EndsBefore(data: seq<Byte>, m: nat, j: int, cp: int) { Word(data, m + 14 + 2 * j) < cp }

  /** The lookup in the four arrays of the subtable at m, one behind the other: end codes from byte 14 on, a
      word of padding, start codes, deltas and range offsets. Segment i is the first that ends at the code
      point or later. Without a range offset the delta is added; with one, counted from where it is
      stored, the glyph is read there. */
  lemma GlyphInWords(data: seq<Byte>, m: nat, n: nat, k: nat, cp: nat, i: nat)
    requires WellFormed(data, m, n, k) && cp <= 0xFFFF && i < n && cp <= Word(data, m + 14 + 2 * i)
    requires forall j :: 0 <= j < i ==> EndsBefore(data, m, j, cp)
    ensures var start, delta, at := Word(data, m + 16 + 2 * n + 2 * i), Word(data, m + 16 + 4 * n + 2 * i), m + 16 + 6 * n + 2 * i;
            FirstSegment(data, m, n, cp, 0) == i
            && cp <= EndCode(data, m, n, i)
            && Glyph(data, m, n, k, cp) ==
              if cp < start then 0
              else if Word(data, at) == 0 then (cp + delta) % 0x1_0000
              else Word(data, at + Word(data, at) + 2 * (cp - start))
  {
    assert EndCode(data, m, n, i) == Word(data, m + 14 + 2 * i);
    forall j | 0 <= j < i ensures EndCode(data, m, n, j) < cp { assert EndsBefore(data, m, j, cp) && EndCode(data, m, n, j) == Word(data, m + 14 + 2 * j); }
    assert FirstSegment(data, m, n, cp, 0) == i;
    SegmentInWords(data, m, n, i, cp);
  }

  /** By the specification the delta is added to a stored glyph too, unless that is 0. */
  lemma OpenTypeInWords(data: seq<Byte>, m: nat, n: nat, k: nat, cp: nat, i: nat)
    requires WellFormed(data, m, n, k) && cp <= 0xFFFF && i < n && cp <= Word(data, m + 14 + 2 * i)
    requires forall j :: 0 <= j < i ==> EndsBefore(data, m, j, cp)
    ensures var start, delta, at := Word(data, m + 16 + 2 * n + 2 * i), Word(data, m + 16 + 4 * n + 2 * i), m + 16 + 6 * n + 2 * i;
            var stored := Word(data, at + Word(data, at) + 2 * (cp - start));
            OpenTypeGlyph(data, m, n, k, cp) ==
              if cp < start then 0
              else if Word(data, at) == 0 then (cp + delta) % 0x1_0000
              else if stored == 0 then 0 else (stored + delta) % 0x1_0000
  {
    GlyphInWords(data, m, n, k, cp, i);
    FieldsInWords(data, m, n, i);
    DeltaAdded(data, m, n, k, cp, i, Word(data, m + 16 + 4 * n + 2 * i));
  }

  lemma DeltaAdded(data: seq<Byte>, m: nat, n: nat, k: nat, cp: nat, i: nat, delta: nat)
    requires WellFormed(data, m, n, k) && i < n && FirstSegment(data, m, n, cp, 0) == i && cp <= EndCode(data, m, n, i)
    requires Delta(data, m, n, i) == delta || Delta(data, m, n, i) == delta - 0x1_0000
    ensures var g := Glyph(data, m, n, k, cp);
            OpenTypeGlyph(data, m, n, k, cp) ==
              if cp >= StartCode(data, m, n, i) && RangeOffset(data, m, n, i) != 0 && g != 0 then Mod16(g + delta) else g
  {
    Signed(delta, Delta(data, m, n, i), Glyph(data, m, n, k, cp));
  }

  lemma SegmentInWords(data: seq<Byte>, m: nat, n: nat, i: nat, cp: nat)
    requires Fits(data, m, n) && i < n && Pointed(data, m, n, i, cp) && cp <= EndCode(data, m, n, i)
    ensures var start, delta, at := Word(data, m + 16 + 2 * n + 2 * i), Word(data, m + 16 + 4 * n + 2 * i), m + 16 + 6 * n + 2 * i;
            SegmentGlyph(data, m, n, i, cp) ==
              if cp < start then 0
              else if Word(data, at) == 0 then Mod16(cp + delta)
              else Word(data, at + Word(data, at) + 2 * (cp - start))
  {
    FieldsInWords(data, m, n, i);
    if InSegment(data, m, n, i, cp) {
      if RangeOffset(data, m, n, i) == 0 { AddedGlyph(data, m, n, i, cp, Word(data, m + 16 + 4 * n + 2 * i)); }
      else { StoredGlyph(data, m, n, i, cp, m + 16 + 6 * n + 2 * i); }
    }
  }

  lemma AddedGlyph(data: seq<Byte>, m: nat, n: nat, i: nat, cp: nat, delta: nat)
    requires Fits(data, m, n) && i < n && InSegment(data, m, n, i, cp) && RangeOffset(data, m, n, i) == 0
    requires Delta(data, m, n, i) == delta || Delta(data, m, n, i) == delta - 0x1_0000
    ensures SegmentGlyph(data, m, n, i, cp) == Mod16(cp + delta)
  {
    var d := Delta(data, m, n, i);
    Signed(delta, d, cp);
    SumGlyph(data, m, n, i, cp, d);
  }

  lemma SumGlyph(data: seq<Byte>, m: nat, n: nat, i: nat, cp: nat, d: int)
    requires Fits(data, m, n) && i < n && InSegment(data, m, n, i, cp) && RangeOffset(data, m, n, i) == 0 && d == Delta(data, m, n, i)
    ensures Pointed(data, m, n, i, cp) && SegmentGlyph(data, m, n, i, cp) == Mod16(cp + d)
  {
  }

  lemma StoredGlyph(data: seq<Byte>, m: nat, n: nat, i: nat, cp: nat, at: nat)
    requires Fits(data, m, n) && i < n && InSegment(data, m, n, i, cp) && Pointed(data, m, n, i, cp)
    requires RangeOffset(data, m, n, i) == Word(data, at) != 0 && at == m + 16 + 6 * n + 2 * i
    ensures SegmentGlyph(data, m, n, i, cp) == Word(data, at + Word(data, at) + 2 * (cp - StartCode(data, m, n, i)))
  {
    WordIs(data, GlyphAt(data, m, n, i, cp));
  }

  lemma FieldsInWords(data: seq<Byte>, m: nat, n: nat, i: nat)
    requires Fits(data, m, n) && i < n
    ensures StartCode(data, m, n, i) == Word(data, m + 16 + 2 * n + 2 * i)
    ensures RangeOffset(data, m, n, i) == Word(data, m + 16 + 6 * n + 2 * i)
    ensures var unsigned := Word(data, m + 16 + 4 * n + 2 * i);
            Delta(data, m, n, i) == unsigned || Delta(data, m, n, i) == unsigned - 0x1_0000
  {
    WordIs(data, m + 16 + 2 * n + 2 * i);
    WordIs(data, m + 16 + 4 * n + 2 * i);
    WordIs(data, m + 16 + 6 * n + 2 * i);
  }

  lemma WordIs(data: seq<Byte>, at: nat)
    requires at + 2 <= |data|
    ensures Word(data, at) == Ushort(data, at)
  {
  }

  lemma Signed(unsigned: nat, signed: int, cp: nat)
    requires signed == unsigned || signed == unsigned - 0x1_0000
    ensures Mod16(cp + signed) == Mod16(cp + unsigned)
  {
  }

  /** A one-segment subtable, for 0xFFFF alone, with delta 1 and glyph 5 behind a range offset. */
  const EXAMPLE: seq<Byte> := [0, 4, 0, 26, 0, 0, 0, 2, 0, 2, 0, 0, 0, 0, 255, 255, 0, 0, 255, 255, 0, 1, 0, 2, 0, 5]

  /** What the example says, word by word. */
  ghost predicate IsExample(data: seq<Byte>) {
    && |data| == 26
    && Ushort(data, 6) == 2 && Ushort(data, 8) == 2 && Ushort(data, 10) == 0 && Ushort(data, 12) == 0
    && Ushort(data, 14) == 0xFFFF && Ushort(data, 18) == 0xFFFF && Ushort(data, 20) == 1 && Ushort(data, 22) == 2
    && Ushort(data, 24) == 5
  }

  lemma ExampleMisses(data: seq<Byte>)
    requires IsExample(data)
    ensures WellFormed(data, 0, 1, 0)
    ensures Glyph(data, 0, 1, 0, 0xFFFF) == 5 && OpenTypeGlyph(data, 0, 1, 0, 0xFFFF) == 6
  {
    assert Pow2(0) == 1;
    assert EndCode(data, 0, 1, 0) == 0xFFFF && StartCode(data, 0, 1, 0) == 0xFFFF;
    assert RangeOffset(data, 0, 1, 0) == 2 && Delta(data, 0, 1, 0) == 1;
    forall cp: int ensures Pointed(data, 0, 1, 0, cp) {}
    assert SegmentGlyph(data, 0, 1, 0, 0xFFFF) == 5;
  }

  lemma ExampleIs()
    ensures IsExample(EXAMPLE)
  {
  }

  /** It is looked up as glyph 5 where the specification says 6. */
  lemma MissesDelta()
    ensures WellFormed(EXAMPLE, 0, 1, 0)
    ensures Glyph(EXAMPLE, 0, 1, 0, 0xFFFF) == 5 && OpenTypeGlyph(EXAMPLE, 0, 1, 0, 0xFFFF) == 6
  {
    ExampleIs();
    ExampleMisses(EXAMPLE);
  }

  /** A code point is in at most one segment after the first whose end reaches it, so a mapping, if the
      segments do not overlap, can only come from there. */
  lemma NoOtherSegment(data: seq<Byte>, m: nat, n: nat, k: nat, cp: nat, j: nat)
    requires WellFormed(data, m, n, k) && cp <= 0xFFFF && j < n && InSegment(data, m, n, j, cp)
    requires forall i :: 0 <= i < n - 1 ==> EndCode(data, m, n, i) < StartCode(data, m, n, i + 1)
    ensures j == FirstSegment(data, m, n, cp, 0)
  {
    var i := FirstSegment(data, m, n, cp, 0);
    assert EndCode(data, m, n, j) >= cp;
    if i < j { Apart(data, m, n, k, i, j); }
  }

  lemma Apart(data: seq<Byte>, m: nat, n: nat, k: nat, i: nat, j: nat)
    requires WellFormed(data, m, n, k) && i < j < n
    requires forall i :: 0 <= i < n - 1 ==> EndCode(data, m, n, i) < StartCode(data, m, n, i + 1)
    ensures EndCode(data, m, n, i) < StartCode(data, m, n, j)
  {
    assert EndCode(data, m, n, j - 1) < StartCode(data, m, n, j - 1 + 1);
    assert i < j - 1 ==> EndCode(data, m, n, i) < EndCode(data, m, n, j - 1);
  }
}
