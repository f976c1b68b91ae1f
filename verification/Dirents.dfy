/** KernelGetdirentries: directory entries are packed into 512-byte blocks, which are handed out
    again across calls of any size. */
module Dirents {
  import opened Wrappers
  import opened Bits

  type byte = x: nat | x < 256

  const DIR_BLOCK_SIZE := 512
  const DIRENT_META_SIZE := 8

  datatype DirEntry = DirEntry(name: seq<byte>, isFile: bool)

  predicate Names(es: seq<DirEntry>) {
    forall k :: 0 <= k < |es| ==> 1 <= |es[k].name| <= 255
  }

  // ----- alignment -----

  const TWO64 := 0x1_0000_0000_0000_0000

  lemma Pow2Values()
    ensures Pow2(2) == 4 && Pow2(9) == 512 && Pow2(64) == TWO64
  {
    assert Pow2(8) == 256 by { assert Pow2(4) == 16 && Pow2(8) == 16 * Pow2(4); }
    assert Pow2(12) == 16 * Pow2(8) && Pow2(16) == 16 * Pow2(12);
    ShlPow2(16, 16);
    Shl16(Pow2(16));
    ShlPow2(32, 16);
    Shl16(Pow2(32));
    ShlPow2(48, 16);
    Shl16(Pow2(48));
  }

  lemma Shl16(x: nat)
    ensures Shl(x, 16) == 0x10000 * x
  {
    Shl4(x, 0);
    Shl4(x, 4);
    Shl4(x, 8);
    Shl4(x, 12);
  }

  lemma Shl4(x: nat, k: nat)
    ensures Shl(x, k + 4) == 16 * Shl(x, k)
  {
    assert Shl(x, k + 2) == 4 * Shl(x, k) && Shl(x, k + 4) == 4 * Shl(x, k + 2);
  }

  function AlignDown(value: nat, alignment: nat): nat
    requires alignment <= TWO64
  {
    if alignment != 0 then And(value, TWO64 - alignment) else value
  }

  function AlignUp(value: nat, alignment: nat): nat
    requires alignment <= TWO64
  {
    if alignment != 0 then And((value + alignment - 1) % TWO64, TWO64 - alignment) else value
  }

  lemma AlignDownIsMod(value: nat)
    requires value < TWO64
    ensures AlignDown(value, 512) == value - value % 512
  {
    Pow2Values();
    AndHighMask(value, 9, 64);
    Low9IsMod(value);
  }

  lemma AlignUpIsMod(value: nat)
    requires value + 3 < TWO64
    ensures AlignUp(value, 4) == value + 3 - (value + 3) % 4
  {
    var v := value + 3;
    assert v % TWO64 == v;
    ClearLow2(v);
  }

  lemma ClearLow2(v: nat)
    requires v < TWO64
    ensures And(v, TWO64 - 4) == v - v % 4
  {
    Pow2Values();
    AndHighMask(v, 2, 64);
    Low2IsMod(v);
  }

  lemma Low2IsMod(v: nat)
    ensures Low(v, 2) == v % 4
  {
    Pow2Values();
    var q := v / 4;
    assert Shl(q, 1) == 2 * q && Shl(q, 2) == 4 * q;
    SplitUnique(v % 4, q, 2);
  }

  lemma Low9IsMod(v: nat)
    ensures Low(v, 9) == v % 512
  {
    Pow2Values();
    var h := v / 512;
    assert Shl(h, 1) == 2 * h;
    assert Shl(h, 3) == 4 * Shl(h, 1) && Shl(h, 5) == 4 * Shl(h, 3) && Shl(h, 7) == 4 * Shl(h, 5);
    assert Shl(h, 9) == 4 * Shl(h, 7);
    SplitUnique(v % 512, h, 9);
  }

  // ----- the directory stream -----

  /** The space a record needs: header, name, terminating zero, rounded up to four bytes. */
  function RecLen(e: DirEntry): nat {
    var n := DIRENT_META_SIZE + |e.name| + 1;
    n + 3 - (n + 3) % 4
  }

  /** A 16-bit field, low byte first. */
  function U16(lo: nat, hi: nat): nat {
    lo + 256 * hi
  }

  function Zeros(n: nat): (z: seq<byte>)
    ensures |z| == n && forall k :: 0 <= k < n ==> z[k] == 0
  {
    seq(n, _ => 0)
  }

  function Header(fileno: seq<byte> -> nat, e: DirEntry, reclen: nat): (h: seq<byte>)
    requires reclen < 0x10000 && |e.name| <= 255
    ensures |h| == 8 && U16(h[4], h[5]) == reclen && h[6] == (if e.isFile then 8 else 4) && h[7] == |e.name|
  {
    var f := fileno(e.name);
    [f % 256, f / 256 % 256, f / 0x10000 % 256, f / 0x100_0000 % 256, reclen % 256, reclen / 256,
     if e.isFile then 8 else 4, |e.name|]
  }

  /** One record of reclen bytes; the file number is any function of the name. */
  function Record(fileno: seq<byte> -> nat, e: DirEntry, reclen: nat): (r: seq<byte>)
    requires RecLen(e) <= reclen < 0x10000 && |e.name| <= 255
    ensures |r| == reclen
  {
    Header(fileno, e, reclen) + e.name + Zeros(reclen - 8 - |e.name|)
  }

  /** Whether the second record goes into the block in which the first one starts at p. */
  predicate NextFits(es: seq<DirEntry>, p: nat)
    requires es != []
  {
    |es| > 1 && p + RecLen(es[0]) + RecLen(es[1]) <= DIR_BLOCK_SIZE
  }

  /** The length of the first record: the last one of a block extends to its end. */
  function FirstLen(es: seq<DirEntry>, p: nat): nat
    requires es != [] && p < DIR_BLOCK_SIZE
  {
    if NextFits(es, p) then RecLen(es[0]) else DIR_BLOCK_SIZE - p
  }

  /** Where in its block the record after the first one starts. */
  function NextPos(es: seq<DirEntry>, p: nat): nat
    requires es != [] && p < DIR_BLOCK_SIZE
  {
    if NextFits(es, p) then p + RecLen(es[0]) else 0
  }

  /** The entries es can be laid out from offset p of a block on. */
  predicate Starts(es: seq<DirEntry>, p: nat) {
    Names(es) && p < DIR_BLOCK_SIZE && (es != [] ==> p + RecLen(es[0]) <= DIR_BLOCK_SIZE)
  }

  lemma StartsNext(es: seq<DirEntry>, p: nat)
    requires Starts(es, p) && es != []
    ensures Starts(es[1..], NextPos(es, p)) && RecLen(es[0]) <= FirstLen(es, p) <= DIR_BLOCK_SIZE - p
    ensures (p + FirstLen(es, p)) % DIR_BLOCK_SIZE == NextPos(es, p)
    ensures |es| == 1 ==> NextPos(es, p) == 0
  {
    assert forall k :: 0 <= k < |es[1..]| ==> es[1..][k] == es[k + 1];
  }

  function Encode(fileno: seq<byte> -> nat, es: seq<DirEntry>, p: nat): seq<byte>
    requires Starts(es, p)
    decreases |es|
  {
    if es == [] then []
    else
      StartsNext(es, p);
      Record(fileno, es[0], FirstLen(es, p)) + Encode(fileno, es[1..], NextPos(es, p))
  }

  /** A reader of the stream that accepts no record crossing a block boundary. */
  function Parse(s: seq<byte>, p: nat): Option<seq<DirEntry>>
    requires p < DIR_BLOCK_SIZE
    decreases |s|
  {
    if s == [] then if p == 0 then Some([]) else None
    else if |s| < 8 then None
    else
      var reclen: nat, namlen: nat := U16(s[4], s[5]), s[7];
      if namlen == 0 || reclen < 8 + namlen + 1 || reclen > |s| || p + reclen > DIR_BLOCK_SIZE then None
      else
        var rest := Parse(s[reclen..], (p + reclen) % DIR_BLOCK_SIZE);
        if rest.None? then None else Some([DirEntry(s[8..8 + namlen], s[6] == 8)] + rest.value)
  }

  lemma {:induction false} EncodeLength(fileno: seq<byte> -> nat, es: seq<DirEntry>, p: nat)
    requires Starts(es, p)
    ensures es != [] ==> (p + |Encode(fileno, es, p)|) % DIR_BLOCK_SIZE == 0
    decreases |es|
  {
    if es != [] {
      StartsNext(es, p);
      EncodeLength(fileno, es[1..], NextPos(es, p));
    }
  }

  lemma RecordFields(fileno: seq<byte> -> nat, e: DirEntry, reclen: nat, rest: seq<byte>)
    requires RecLen(e) <= reclen < 0x10000 && |e.name| <= 255
    ensures var s := Record(fileno, e, reclen) + rest;
            U16(s[4], s[5]) == reclen && s[6] == (if e.isFile then 8 else 4) && s[7] == |e.name|
            && s[8..8 + |e.name|] == e.name && s[reclen..] == rest
  {
    var h := Header(fileno, e, reclen);
    var s := Record(fileno, e, reclen) + rest;
    assert s[..8] == h;
    assert s[4] == s[..8][4] && s[5] == s[..8][5] && s[6] == s[..8][6] && s[7] == s[..8][7];
  }

  predicate Reads(s: seq<byte>, p: nat, es: seq<DirEntry>)
    requires p < DIR_BLOCK_SIZE
  {
    Parse(s, p) == Some(es)
  }

  lemma ParseRecord(fileno: seq<byte> -> nat, e: DirEntry, reclen: nat, rest: seq<byte>, p: nat, es: seq<DirEntry>)
    requires 1 <= |e.name| <= 255 && RecLen(e) <= reclen && p < DIR_BLOCK_SIZE && p + reclen <= DIR_BLOCK_SIZE
    requires Reads(rest, (p + reclen) % DIR_BLOCK_SIZE, es)
    ensures Reads(Record(fileno, e, reclen) + rest, p, [e] + es)
  {
    RecordFields(fileno, e, reclen, rest);
  }

  lemma {:induction false} ParseStream(fileno: seq<byte> -> nat, es: seq<DirEntry>, p: nat)
    requires Starts(es, p) && (es == [] ==> p == 0)
    ensures Reads(Encode(fileno, es, p), p, es)
    decreases |es|
  {
    if es != [] {
      StartsNext(es, p);
      ParseStream(fileno, es[1..], NextPos(es, p));
      ParseFirst(fileno, es, p, Encode(fileno, es[1..], NextPos(es, p)));
    }
  }

  lemma ParseFirst(fileno: seq<byte> -> nat, es: seq<DirEntry>, p: nat, rest: seq<byte>)
    requires Starts(es, p) && es != [] && NextPos(es, p) < DIR_BLOCK_SIZE
    requires RecLen(es[0]) <= FirstLen(es, p) <= DIR_BLOCK_SIZE - p
    requires (p + FirstLen(es, p)) % DIR_BLOCK_SIZE == NextPos(es, p)
    requires Reads(rest, NextPos(es, p), es[1..])
    ensures Reads(Record(fileno, es[0], FirstLen(es, p)) + rest, p, es)
  {
    ParseRecord(fileno, es[0], FirstLen(es, p), rest, p, es[1..]);
    assert es == [es[0]] + es[1..];
  }

  /** The records tile the blocks, none crossing a boundary, and read back as the entries in order. */
  lemma ParseEncode(fileno: seq<byte> -> nat, es: seq<DirEntry>)
    requires Names(es)
    ensures Parse(Encode(fileno, es, 0), 0) == Some(es)
    ensures |Encode(fileno, es, 0)| % DIR_BLOCK_SIZE == 0
  {
    ParseStream(fileno, es, 0);
    EncodeLength(fileno, es, 0);
  }

  // ----- the stream byte by byte -----

  /** The bytes from o to end are the record of an entry with that file number: the number in four bytes
      and the length in two, low byte first, the type, the length of the name, the name, and zeros. */
  ghost predicate RecordIs(s: seq<byte>, o: nat, end: nat, e: DirEntry, number: nat) {
    && o + 9 + |e.name| <= end <= |s|
    && s[o] == number % 256 && s[o + 1] == number / 0x100 % 256
    && s[o + 2] == number / 0x1_0000 % 256 && s[o + 3] == number / 0x100_0000 % 256
    && (var lo: nat, hi: nat := s[o + 4], s[o + 5]; lo + 256 * hi == end - o)
    && s[o + 6] == (if e.isFile then 8 else 4) && s[o + 7] == |e.name|
    && s[o + 8..o + 8 + |e.name|] == e.name
    && forall j :: o + 8 + |e.name| <= j < end ==> s[j] == 0
  }

  lemma RecordBytes(fileno: seq<byte> -> nat, e: DirEntry, reclen: nat, rest: seq<byte>)
    requires RecLen(e) <= reclen < 0x10000 && |e.name| <= 255
    ensures RecordIs(Record(fileno, e, reclen) + rest, 0, reclen, e, fileno(e.name))
  {
    RecordFields(fileno, e, reclen, rest);
    var h := Header(fileno, e, reclen);
    var s := Record(fileno, e, reclen) + rest;
    assert s[..8] == h;
    assert s[0] == s[..8][0] && s[1] == s[..8][1] && s[2] == s[..8][2] && s[3] == s[..8][3];
  }

  /** Where record k starts. */
  ghost function Offset(es: seq<DirEntry>, p: nat, k: nat): nat
    requires Starts(es, p) && k < |es|
    decreases k
  {
    if k == 0 then 0
    else
      StartsNext(es, p);
      FirstLen(es, p) + Offset(es[1..], NextPos(es, p), k - 1)
  }

  lemma RecordBehind(s: seq<byte>, head: seq<byte>, o: nat, end: nat, e: DirEntry, number: nat)
    requires RecordIs(s, o, end, e, number)
    ensures RecordIs(head + s, |head| + o, |head| + end, e, number)
  {
    var n := |head|;
    var t := head + s;
    forall j | 0 <= j < |s| ensures t[n + j] == s[j] {}
    assert t[n + o + 8..n + o + 8 + |e.name|] == s[o + 8..o + 8 + |e.name|];
    forall j | n + o + 8 + |e.name| <= j < n + end ensures t[j] == 0 { assert t[j] == s[j - n]; }
  }

  /** Where it ends: where the next one starts, or at the end of the stream. */
  ghost function End(fileno: seq<byte> -> nat, es: seq<DirEntry>, p: nat, k: nat): nat
    requires Starts(es, p) && k < |es|
  {
    if k + 1 < |es| then Offset(es, p, k + 1) else |Encode(fileno, es, p)|
  }

  lemma OffsetRest(fileno: seq<byte> -> nat, es: seq<DirEntry>, p: nat, k: nat)
    requires Starts(es, p) && 0 < k < |es|
    ensures Starts(es[1..], NextPos(es, p))
    ensures Offset(es, p, k) == FirstLen(es, p) + Offset(es[1..], NextPos(es, p), k - 1)
    ensures End(fileno, es, p, k) == FirstLen(es, p) + End(fileno, es[1..], NextPos(es, p), k - 1)
  {
    StartsNext(es, p);
  }

  lemma FirstEnd(fileno: seq<byte> -> nat, es: seq<DirEntry>, p: nat)
    requires Starts(es, p) && es != []
    ensures Offset(es, p, 0) == 0 && End(fileno, es, p, 0) == FirstLen(es, p)
  {
    StartsNext(es, p);
    if |es| > 1 {
      assert Offset(es[1..], NextPos(es, p), 0) == 0;
    } else {
      assert Encode(fileno, es[1..], NextPos(es, p)) == [];
    }
  }

  /** Record k is that of entry k. */
  lemma {:induction false} StreamRecord(fileno: seq<byte> -> nat, es: seq<DirEntry>, p: nat, k: nat)
    requires Starts(es, p) && k < |es|
    ensures RecordIs(Encode(fileno, es, p), Offset(es, p, k), End(fileno, es, p, k), es[k], fileno(es[k].name))
    decreases k
  {
    StartsNext(es, p);
    if k == 0 {
      FirstEnd(fileno, es, p);
      RecordBytes(fileno, es[0], FirstLen(es, p), Encode(fileno, es[1..], NextPos(es, p)));
    } else {
      StreamRecord(fileno, es[1..], NextPos(es, p), k - 1);
      LaterRecord(fileno, es, p, k, es[k]);
    }
  }

  lemma LaterRecord(fileno: seq<byte> -> nat, es: seq<DirEntry>, p: nat, k: nat, e: DirEntry)
    requires Starts(es, p) && 0 < k < |es| && Starts(es[1..], NextPos(es, p))
    requires RecordIs(Encode(fileno, es[1..], NextPos(es, p)), Offset(es[1..], NextPos(es, p), k - 1),
                      End(fileno, es[1..], NextPos(es, p), k - 1), e, fileno(e.name))
    ensures RecordIs(Encode(fileno, es, p), Offset(es, p, k), End(fileno, es, p, k), e, fileno(e.name))
  {
    OffsetRest(fileno, es, p, k);
    EncodeRest(fileno, es, p);
    RecordBehind(Encode(fileno, es[1..], NextPos(es, p)), Record(fileno, es[0], FirstLen(es, p)),
                 Offset(es[1..], NextPos(es, p), k - 1), End(fileno, es[1..], NextPos(es, p), k - 1), e, fileno(e.name));
  }

  lemma EncodeRest(fileno: seq<byte> -> nat, es: seq<DirEntry>, p: nat)
    requires Starts(es, p) && es != []
    ensures Starts(es[1..], NextPos(es, p)) && RecLen(es[0]) <= FirstLen(es, p) < 0x10000 && |es[0].name| <= 255
    ensures Encode(fileno, es, p) == Record(fileno, es[0], FirstLen(es, p)) + Encode(fileno, es[1..], NextPos(es, p))
  {
    StartsNext(es, p);
  }

  /** The bytes a record takes at least: eight, the name and a zero, rounded up to a multiple of four. */
  function Least(e: DirEntry): nat { (|e.name| + 12) / 4 * 4 }

  lemma LeastIsRecLen(e: DirEntry)
    ensures Least(e) == RecLen(e)
  {
  }

  /** The next record follows at once if it fits into the same block of 512 bytes, and else it starts the
      next block. */
  ghost predicate Follows(here: nat, next: nat, e: DirEntry, f: DirEntry) {
    next == if here % 512 + Least(e) + Least(f) <= 512 then here + Least(e) else (here / 512 + 1) * 512
  }

  lemma {:induction false} NextRecord(fileno: seq<byte> -> nat, es: seq<DirEntry>, p: nat, k: nat)
    requires Starts(es, p) && k + 1 < |es|
    ensures Follows(p + Offset(es, p, k), p + Offset(es, p, k + 1), es[k], es[k + 1])
    decreases k
  {
    StartsNext(es, p);
    if k == 0 {
      FirstFollows(fileno, es, p);
    } else {
      NextRecord(fileno, es[1..], NextPos(es, p), k - 1);
      RestFollows(fileno, es, p, k, es[k], es[k + 1]);
    }
  }

  lemma FirstFollows(fileno: seq<byte> -> nat, es: seq<DirEntry>, p: nat)
    requires Starts(es, p) && |es| > 1
    ensures Follows(p + Offset(es, p, 0), p + Offset(es, p, 1), es[0], es[1])
  {
    FirstEnd(fileno, es, p);
    LeastIsRecLen(es[0]);
    LeastIsRecLen(es[1]);
  }

  lemma RestFollows(fileno: seq<byte> -> nat, es: seq<DirEntry>, p: nat, k: nat, e: DirEntry, f: DirEntry)
    requires Starts(es, p) && 0 < k && k + 1 < |es| && Starts(es[1..], NextPos(es, p))
    requires var p' := NextPos(es, p); Follows(p' + Offset(es[1..], p', k - 1), p' + Offset(es[1..], p', k), e, f)
    ensures Follows(p + Offset(es, p, k), p + Offset(es, p, k + 1), e, f)
  {
    StartsNext(es, p);
    OffsetRest(fileno, es, p, k);
    OffsetRest(fileno, es, p, k + 1);
    var p' := NextPos(es, p);
    Later(p' + Offset(es[1..], p', k - 1), p' + Offset(es[1..], p', k), p + FirstLen(es, p) - p', e, f);
  }

  lemma Later(here: nat, next: nat, shift: int, e: DirEntry, f: DirEntry)
    requires Follows(here, next, e, f) && (shift == 0 || shift == 512)
    ensures Follows(here + shift, next + shift, e, f)
  {
  }

  // ----- building the stream -----

  /** The stream enc is final up to the block's offset p, where the record of es[0] has been written
      without the extension it may still get; behind it, up to ceiling, there are zeros. */
  ghost predicate Building(fileno: seq<byte> -> nat, enc: seq<byte>, es: seq<DirEntry>, d: seq<byte>,
                           p: nat, offset: nat, ceiling: nat)
  {
    && es != [] && Starts(es, p) && DIR_BLOCK_SIZE <= ceiling == |d|
    && var start := ceiling - DIR_BLOCK_SIZE + p;
       && offset == start + RecLen(es[0])
       && d[start..offset] == Record(fileno, es[0], RecLen(es[0]))
       && (forall j :: offset <= j < ceiling ==> d[j] == 0)
       && enc == d[..start] + Encode(fileno, es, p)
  }

  /** Records of the same entry differ in the length field and in trailing zeros. */
  lemma RecordLonger(fileno: seq<byte> -> nat, e: DirEntry, len: nat, j: nat)
    requires |e.name| <= 255 && RecLen(e) <= len < 0x10000 && j < len
    ensures Record(fileno, e, len)[j] ==
              if j == 4 then len % 256 else if j == 5 then len / 256 else if j < RecLen(e) then Record(fileno, e, RecLen(e))[j] else 0
  {
  }

  /** Adding to the length field of a record that is followed by zeros extends it. */
  lemma PatchExtends(fileno: seq<byte> -> nat, e: DirEntry, d: seq<byte>, start: nat, len: nat)
    requires 1 <= |e.name| <= 255 && RecLen(e) <= len < 0x10000 && start + len == |d|
    requires d[start..start + RecLen(e)] == Record(fileno, e, RecLen(e))
    requires forall j :: start + RecLen(e) <= j < |d| ==> d[j] == 0
    ensures U16(d[start + 4], d[start + 5]) == RecLen(e)
    ensures d[start + 4 := len % 256][start + 5 := len / 256] == d[..start] + Record(fileno, e, len)
  {
    var r, R := Record(fileno, e, RecLen(e)), Record(fileno, e, len);
    RecordFields(fileno, e, RecLen(e), []);
    assert r + [] == r;
    forall j | 0 <= j < RecLen(e) ensures d[start + j] == r[j] { assert d[start..start + RecLen(e)][j] == r[j]; }
    var d' := d[start + 4 := len % 256][start + 5 := len / 256];
    forall j | 0 <= j < len ensures d'[start + j] == R[j] { RecordLonger(fileno, e, len, j); }
    assert d'[start..] == R;
    assert d'[..start] == d[..start];
    assert d' == d'[..start] + d'[start..];
  }

  lemma WrittenRecord(fileno: seq<byte> -> nat, e: DirEntry, d: seq<byte>, o: nat)
    requires 1 <= |e.name| <= 255 && o + RecLen(e) <= |d|
    requires forall j :: o <= j < |d| ==> d[j] == 0
    ensures RecLen(e) < 0x10000 && o + 9 + |e.name| <= |d|
    ensures var d' := d[..o] + Header(fileno, e, RecLen(e)) + e.name + [0] + d[o + 9 + |e.name|..];
      && |d'| == |d| && d'[..o] == d[..o] && d'[o..o + RecLen(e)] == Record(fileno, e, RecLen(e))
      && forall j :: o + RecLen(e) <= j < |d| ==> d'[j] == 0
  {
    var d' := d[..o] + Header(fileno, e, RecLen(e)) + e.name + [0] + d[o + 9 + |e.name|..];
    forall j | 0 <= j < RecLen(e) ensures d'[o + j] == Record(fileno, e, RecLen(e))[j] {}
  }

  /** The packing loop between two entries. */
  ghost predicate Packed(fileno: seq<byte> -> nat, enc: seq<byte>, es: seq<DirEntry>, d: seq<byte>,
                         p: nat, offset: nat, ceiling: nat, last_reclen_offset: int)
  {
    last_reclen_offset == ceiling - DIR_BLOCK_SIZE + p + 4 && Building(fileno, enc, es, d, p, offset, ceiling)
  }

  /** Adds extra to the 16-bit length field at offset o. */
  function Patch(d: seq<byte>, o: nat, extra: nat): seq<byte>
    requires o + 1 < |d|
  {
    var len := (U16(d[o], d[o + 1]) + extra) % 0x10000;
    d[o := len % 256][o + 1 := len / 256]
  }

  /** Closing a block extends its last record to the ceiling. */
  lemma CloseBlock(fileno: seq<byte> -> nat, enc: seq<byte>, es: seq<DirEntry>, d: seq<byte>, p: nat, offset: nat, ceiling: nat)
    requires Building(fileno, enc, es, d, p, offset, ceiling)
    requires |es| > 1 ==> offset + RecLen(es[1]) > ceiling
    ensures Starts(es[1..], 0)
    ensures enc == Patch(d, ceiling - DIR_BLOCK_SIZE + p + 4, ceiling - offset) + Encode(fileno, es[1..], 0)
  {
    var start := ceiling - DIR_BLOCK_SIZE + p;
    EncodeLast(fileno, es, p);
    PatchRecord(fileno, es[0], d, start, offset);
    Regroup(d[..start], Record(fileno, es[0], DIR_BLOCK_SIZE - p), Encode(fileno, es[1..], 0));
  }

  /** The last record of a block fills it. */
  lemma EncodeLast(fileno: seq<byte> -> nat, es: seq<DirEntry>, p: nat)
    requires es != [] && Starts(es, p) && (|es| > 1 ==> p + RecLen(es[0]) + RecLen(es[1]) > DIR_BLOCK_SIZE)
    ensures Starts(es[1..], 0) && RecLen(es[0]) <= DIR_BLOCK_SIZE - p
    ensures Encode(fileno, es, p) == Record(fileno, es[0], DIR_BLOCK_SIZE - p) + Encode(fileno, es[1..], 0)
  {
    StartsNext(es, p);
  }

  lemma PatchRecord(fileno: seq<byte> -> nat, e: DirEntry, d: seq<byte>, start: nat, offset: nat)
    requires 1 <= |e.name| <= 255 && offset == start + RecLen(e) <= |d| < start + 0x10000
    requires d[start..offset] == Record(fileno, e, RecLen(e)) && forall j :: offset <= j < |d| ==> d[j] == 0
    ensures Patch(d, start + 4, |d| - offset) == d[..start] + Record(fileno, e, |d| - start)
  {
    PatchExtends(fileno, e, d, start, |d| - start);
    PatchSets(d, start + 4, |d| - offset, |d| - start);
  }

  lemma PatchSets(d: seq<byte>, o: nat, extra: nat, len: nat)
    requires o + 1 < |d| && U16(d[o], d[o + 1]) + extra == len < 0x10000
    ensures Patch(d, o, extra) == d[o := len % 256][o + 1 := len / 256]
  {
    FieldFits(U16(d[o], d[o + 1]) + extra);
  }

  lemma FieldFits(len: nat)
    requires len < 0x10000
    ensures len % 0x10000 == len
  {
  }

  lemma Regroup(x: seq<byte>, y: seq<byte>, z: seq<byte>)
    ensures x + (y + z) == x + y + z
  {
  }

  /** The next record goes right behind the last one, which is thereby final. */
  lemma KeepBlock(fileno: seq<byte> -> nat, enc: seq<byte>, es: seq<DirEntry>, d: seq<byte>, p: nat, offset: nat, ceiling: nat)
    requires Building(fileno, enc, es, d, p, offset, ceiling)
    requires |es| > 1 && offset + RecLen(es[1]) <= ceiling
    ensures Starts(es[1..], p + RecLen(es[0]))
    ensures enc == d[..offset] + Encode(fileno, es[1..], p + RecLen(es[0]))
  {
    StartsNext(es, p);
    var start := ceiling - DIR_BLOCK_SIZE + p;
    Regroup(d[..start], Record(fileno, es[0], RecLen(es[0])), Encode(fileno, es[1..], p + RecLen(es[0])));
    assert d[..offset] == d[..start] + d[start..offset];
  }

  /** Closes the block and opens the next one. */
  method OpenBlock(ghost fileno: seq<byte> -> nat, ghost enc: seq<byte>, ghost es: seq<DirEntry>, dirents: seq<byte>,
                   ghost p: nat, offset: nat, ceiling: nat, last_reclen_offset: nat)
    returns (dirents': seq<byte>)
    requires Packed(fileno, enc, es, dirents, p, offset, ceiling, last_reclen_offset)
    requires |es| > 1 && offset + RecLen(es[1]) > ceiling
    ensures Starts(es[1..], 0) && |dirents'| == ceiling + DIR_BLOCK_SIZE
    ensures enc == dirents'[..ceiling] + Encode(fileno, es[1..], 0)
    ensures forall j :: ceiling <= j < |dirents'| ==> dirents'[j] == 0
  {
    CloseBlock(fileno, enc, es, dirents, p, offset, ceiling);
    var closed := Patch(dirents, last_reclen_offset, ceiling - offset);
    dirents' := closed + Zeros(DIR_BLOCK_SIZE);
    assert dirents'[..ceiling] == closed;
  }

  /** Opening a new block, or going on in the current one. */
  method MakeRoom(ghost fileno: seq<byte> -> nat, ghost enc: seq<byte>, ghost es: seq<DirEntry>, dirents: seq<byte>,
                  ghost p: nat, offset: nat, ceiling: nat, last_reclen_offset: nat, reclen: nat)
    returns (dirents': seq<byte>, offset': nat, ceiling': nat, ghost p': nat)
    requires Packed(fileno, enc, es, dirents, p, offset, ceiling, last_reclen_offset) && |es| > 1 && reclen == RecLen(es[1])
    ensures Starts(es[1..], p') && DIR_BLOCK_SIZE <= ceiling' == |dirents'| && offset' == ceiling' - DIR_BLOCK_SIZE + p'
    ensures enc == dirents'[..offset'] + Encode(fileno, es[1..], p')
    ensures forall j :: offset' <= j < ceiling' ==> dirents'[j] == 0
  {
    if offset + reclen > ceiling {
      dirents' := OpenBlock(fileno, enc, es, dirents, p, offset, ceiling, last_reclen_offset);
      offset', ceiling', p' := ceiling, ceiling + DIR_BLOCK_SIZE, 0;
    } else {
      KeepBlock(fileno, enc, es, dirents, p, offset, ceiling);
      dirents', offset', ceiling', p' := dirents, offset, ceiling, p + RecLen(es[0]);
    }
  }

  /** Writes one record without extension. */
  method WriteRecord(fileno: seq<byte> -> nat, ghost enc: seq<byte>, ghost es: seq<DirEntry>, entry: DirEntry,
                     dirents: seq<byte>, ghost p: nat, offset: nat, reclen: nat)
    returns (dirents': seq<byte>)
    requires es != [] && es[0] == entry && reclen == RecLen(entry)
    requires Starts(es, p) && DIR_BLOCK_SIZE <= |dirents| && offset == |dirents| - DIR_BLOCK_SIZE + p
    requires enc == dirents[..offset] + Encode(fileno, es, p)
    requires forall j :: offset <= j < |dirents| ==> dirents[j] == 0
    ensures Building(fileno, enc, es, dirents', p, offset + reclen, |dirents|)
  {
    WrittenRecord(fileno, entry, dirents, offset);
    dirents' := dirents[..offset] + Header(fileno, entry, reclen) + entry.name + [0]
      + dirents[offset + 9 + |entry.name|..];
  }

  method PackEntry(fileno: seq<byte> -> nat, ghost enc: seq<byte>, ghost es: seq<DirEntry>, entry: DirEntry,
                   dirents: seq<byte>, ghost p: nat, offset: nat, ceiling: nat, last_reclen_offset: nat)
    returns (dirents': seq<byte>, offset': nat, ceiling': nat, ghost p': nat, last': nat)
    requires |es| > 1 && es[1] == entry && Packed(fileno, enc, es, dirents, p, offset, ceiling, last_reclen_offset)
    ensures Packed(fileno, enc, es[1..], dirents', p', offset', ceiling', last')
  {
    AlignUpIsMod(DIRENT_META_SIZE + |entry.name| + 1);
    var reclen := AlignUp(DIRENT_META_SIZE + |entry.name| + 1, 4);
    dirents', offset', ceiling', p' := MakeRoom(fileno, enc, es, dirents, p, offset, ceiling, last_reclen_offset, reclen);
    dirents' := WriteRecord(fileno, enc, es[1..], entry, dirents', p', offset', reclen);
    last', offset' := offset' + 4, offset' + reclen;
  }

  /** The first entry always opens a block. */
  method PackFirst(fileno: seq<byte> -> nat, ghost es: seq<DirEntry>, entry: DirEntry)
    returns (dirents: seq<byte>, offset: nat, ceiling: nat, last: nat)
    requires es != [] && es[0] == entry && Starts(es, 0)
    ensures Packed(fileno, Encode(fileno, es, 0), es, dirents, 0, offset, ceiling, last)
  {
    AlignUpIsMod(DIRENT_META_SIZE + |entry.name| + 1);
    var reclen := AlignUp(DIRENT_META_SIZE + |entry.name| + 1, 4);
    dirents := WriteRecord(fileno, Encode(fileno, es, 0), es, entry, Zeros(DIR_BLOCK_SIZE), 0, 0, reclen);
    last, offset, ceiling := 4, reclen, DIR_BLOCK_SIZE;
  }

  /** Packs the entries, extending the last record of each block to the block's end. */
  method Pack(fileno: seq<byte> -> nat, dents: seq<DirEntry>) returns (dirents: seq<byte>)
    requires Starts(dents, 0)
    ensures dirents == Encode(fileno, dents, 0)
  {
    if |dents| == 0 { return []; }
    ghost var p := 0;
    assert dents[0..] == dents;
    var next_ceiling, dirent_offset, last_reclen_offset;
    dirents, dirent_offset, next_ceiling, last_reclen_offset := PackFirst(fileno, dents, dents[0]);
    for k := 1 to |dents|
      invariant Packed(fileno, Encode(fileno, dents, 0), dents[k - 1..], dirents, p, dirent_offset, next_ceiling, last_reclen_offset)
    {
      assert dents[k - 1..][1..] == dents[k..];
      dirents, dirent_offset, next_ceiling, p, last_reclen_offset :=
        PackEntry(fileno, Encode(fileno, dents, 0), dents[k - 1..], dents[k], dirents, p, dirent_offset, next_ceiling, last_reclen_offset);
    }
    dirents := PackLast(fileno, Encode(fileno, dents, 0), dents[|dents| - 1..], dirents, p, dirent_offset, next_ceiling, last_reclen_offset);
  }

  method PackLast(ghost fileno: seq<byte> -> nat, ghost enc: seq<byte>, ghost es: seq<DirEntry>,
                  dirents: seq<byte>, ghost p: nat, offset: nat, ceiling: nat, last_reclen_offset: nat)
    returns (dirents': seq<byte>)
    requires |es| == 1 && Packed(fileno, enc, es, dirents, p, offset, ceiling, last_reclen_offset)
    ensures dirents' == enc
  {
    CloseBlock(fileno, enc, es, dirents, p, offset, ceiling);
    assert es[1..] == [];
    dirents' := Patch(dirents, last_reclen_offset, ceiling - offset);
  }

  // ----- handing the stream out -----

  const KERNEL_ERROR_EBADF := -2147352567
  const KERNEL_ERROR_EFAULT := -2147352562
  const KERNEL_ERROR_EINVAL := -2147352554
  const INT_MAX := 0x7FFF_FFFF
  const DESCRIPTOR_MIN := 3

  function Min(a: nat, b: nat): nat {
    if a <= b then a else b
  }

  /** A record reaches from at to next and does not leave its block. */
  ghost predicate RecordAt(d: seq<byte>, at: nat, next: nat) {
    && at + 8 <= next <= |d| && next <= DIR_BLOCK_SIZE * (at / DIR_BLOCK_SIZE + 1)
    && U16(d[at + 4], d[at + 5]) == next - at && d[at + 7] > 0
  }

  /** The record boundaries from cuts[0] to the end of the stream. */
  ghost predicate Boundaries(d: seq<byte>, cuts: seq<nat>) {
    && cuts != [] && cuts[|cuts| - 1] == |d|
    && forall i :: 0 <= i < |cuts| - 1 ==> RecordAt(d, cuts[i], cuts[i + 1])
  }

  lemma FirstRecordAt(fileno: seq<byte> -> nat, d: seq<byte>, es: seq<DirEntry>, at: nat, p: nat)
    requires at < |d| && Starts(es, p) && d[at..] == Encode(fileno, es, p)
    ensures es != [] && at + 8 <= |d| && at + FirstLen(es, p) <= |d| && Starts(es[1..], NextPos(es, p))
    ensures U16(d[at + 4], d[at + 5]) == FirstLen(es, p) && d[at + 7] == |es[0].name|
    ensures d[at + FirstLen(es, p)..] == Encode(fileno, es[1..], NextPos(es, p))
  {
    StartsNext(es, p);
    var len, rest := FirstLen(es, p), Encode(fileno, es[1..], NextPos(es, p));
    RecordFields(fileno, es[0], len, rest);
    var t := d[at..];
    assert t == Record(fileno, es[0], len) + rest;
    assert d[at + 4] == t[4] && d[at + 5] == t[5] && d[at + 7] == t[7];
    assert d[at + len..] == t[len..];
  }

  lemma ChainMore(d: seq<byte>, at: nat, rest: seq<nat>)
    requires Boundaries(d, rest) && RecordAt(d, at, rest[0])
    ensures Boundaries(d, [at] + rest)
  {
    var cuts := [at] + rest;
    forall i | 0 <= i < |cuts| - 1 ensures RecordAt(d, cuts[i], cuts[i + 1]) {
      assert i > 0 ==> RecordAt(d, rest[i - 1], rest[i]);
    }
  }

  lemma BlockRecordAt(fileno: seq<byte> -> nat, d: seq<byte>, es: seq<DirEntry>, b: nat, p: nat, next: nat)
    requires es != [] && Starts(es, p) && DIR_BLOCK_SIZE * b + p <= |d| && d[DIR_BLOCK_SIZE * b + p..] == Encode(fileno, es, p)
    requires next == if NextFits(es, p) then b else b + 1
    ensures var to := DIR_BLOCK_SIZE * next + NextPos(es, p);
            && RecordAt(d, DIR_BLOCK_SIZE * b + p, to) && Starts(es[1..], NextPos(es, p))
            && d[to..] == Encode(fileno, es[1..], NextPos(es, p))
  {
    var at := DIR_BLOCK_SIZE * b + p;
    StartsNext(es, p);
    NotEmpty(fileno, es, p);
    FirstRecordAt(fileno, d, es, at, p);
    assert at / DIR_BLOCK_SIZE == b;
  }

  lemma NotEmpty(fileno: seq<byte> -> nat, es: seq<DirEntry>, p: nat)
    requires Starts(es, p) && es != []
    ensures |Encode(fileno, es, p)| > 0
  {
    StartsNext(es, p);
  }

  /** A packed stream is a chain of records, one per entry. */
  lemma {:induction false} StreamBoundaries(fileno: seq<byte> -> nat, d: seq<byte>, es: seq<DirEntry>, b: nat, p: nat)
    returns (cuts: seq<nat>)
    requires Starts(es, p) && DIR_BLOCK_SIZE * b + p <= |d| && d[DIR_BLOCK_SIZE * b + p..] == Encode(fileno, es, p)
    ensures Boundaries(d, cuts) && cuts[0] == DIR_BLOCK_SIZE * b + p && |cuts| == |es| + 1
    decreases |es|
  {
    var at := DIR_BLOCK_SIZE * b + p;
    cuts := [at];
    if es != [] {
      var next := if NextFits(es, p) then b else b + 1;
      BlockRecordAt(fileno, d, es, b, p, next);
      var rest := StreamBoundaries(fileno, d, es[1..], next, NextPos(es, p));
      cuts := [at] + rest;
      ChainMore(d, at, rest);
    }
  }

  method PackBlocks(fileno: seq<byte> -> nat, dents: seq<DirEntry>) returns (dirents: seq<byte>, ghost cuts: seq<nat>)
    requires Names(dents) && Starts(dents, 0)
    ensures dirents == Encode(fileno, dents, 0) && |dirents| % DIR_BLOCK_SIZE == 0
    ensures Boundaries(dirents, cuts) && cuts[0] == 0 && |cuts| == |dents| + 1
  {
    EncodeLength(fileno, dents, 0);
    dirents := Pack(fileno, dents);
    cuts := StreamBoundaries(fileno, dirents, dents, 0, 0);
  }

  /** The buffer holds n bytes of the stream from offset on, and is otherwise as before. */
  ghost predicate Delivered(before: seq<byte>, now: seq<byte>, d: seq<byte>, offset: nat, n: nat) {
    n <= |before| && offset + n <= |d| && now == d[offset..offset + n] + before[n..]
  }

  /** How far into the stream a call has got: at is where it reads, and of the bytes from offset on
      it has copied written ones and has still to skip working ones. */
  ghost predicate Progress(at: nat, offset: nat, working: nat, written: nat, limit: nat) {
    if at <= offset then working == offset - at && written == 0
    else working == 0 && written == at - offset && written <= limit
  }

  /** The loop that skips to the offset and copies whole records. */
  method CopyOut(ghost cuts: seq<nat>, dirents: seq<byte>, offset: nat, aligned_count: nat, buf: array<byte>)
    returns (bytes_written: nat)
    requires Boundaries(dirents, cuts) && cuts[0] == 0
    requires |dirents| % DIR_BLOCK_SIZE == 0 && offset % DIR_BLOCK_SIZE == 0 && offset < |dirents|
    requires aligned_count % DIR_BLOCK_SIZE == 0 && DIR_BLOCK_SIZE <= aligned_count <= buf.Length
    modifies buf
    ensures bytes_written == Min(aligned_count, |dirents| - offset)
    ensures Delivered(old(buf[..]), buf[..], dirents, offset, bytes_written)
  {
    ghost var i := 0;
    var working_offset, dirent_buffer_offset, more := offset, 0, true;
    bytes_written := 0;
    while more && dirent_buffer_offset < |dirents|
      invariant Delivered(old(buf[..]), buf[..], dirents, offset, bytes_written)
      invariant if more then i < |cuts| && dirent_buffer_offset == cuts[i]
                             && Progress(dirent_buffer_offset, offset, working_offset, bytes_written, aligned_count)
                else bytes_written == aligned_count
      decreases more, |cuts| - i
    {
      more, dirent_buffer_offset, working_offset, bytes_written :=
        CopyTurn(dirents, cuts[i + 1], dirent_buffer_offset, offset, aligned_count, working_offset, bytes_written, buf, old(buf[..]));
      i := i + 1;
    }
  }

  /** One turn of that loop, on the record at dirent_buffer_offset. */
  method CopyTurn(dirents: seq<byte>, ghost next: nat, dirent_buffer_offset: nat, offset: nat, aligned_count: nat,
                  working_offset: nat, bytes_written: nat, buf: array<byte>, ghost before: seq<byte>)
    returns (more: bool, offset': nat, working': nat, written': nat)
    requires RecordAt(dirents, dirent_buffer_offset, next)
    requires offset % DIR_BLOCK_SIZE == 0 && aligned_count % DIR_BLOCK_SIZE == 0 && aligned_count <= buf.Length
    requires Progress(dirent_buffer_offset, offset, working_offset, bytes_written, aligned_count)
    requires Delivered(before, buf[..], dirents, offset, bytes_written)
    modifies buf
    ensures Delivered(before, buf[..], dirents, offset, written')
    ensures if more then offset' == next && Progress(next, offset, working', written', aligned_count) else written' == aligned_count
  {
    var reclen := U16(dirents[dirent_buffer_offset + 4], dirents[dirent_buffer_offset + 5]);
    var namlen := dirents[dirent_buffer_offset + 7];
    more, offset', working', written' := true, dirent_buffer_offset + reclen, 0, bytes_written;
    if namlen == 0 || reclen == 0 { assert false; return; }
    if working_offset >= reclen {
      working' := working_offset - reclen;
      return;
    }
    BoundaryReached(dirent_buffer_offset, offset, working_offset, reclen);
    if bytes_written + reclen > aligned_count {
      LimitReached(dirent_buffer_offset, offset, bytes_written, reclen, aligned_count);
      more := false;
      return;
    }
    var bytes_to_copy := reclen - working_offset;
    CopyRecord(buf, bytes_written, dirents, dirent_buffer_offset + working_offset, bytes_to_copy, before, offset);
    written' := bytes_written + bytes_to_copy;
  }

  /** A record that contains the offset starts at it: offsets are block boundaries. */
  lemma BoundaryReached(at: nat, offset: nat, working: nat, reclen: nat)
    requires offset % DIR_BLOCK_SIZE == 0 && at + reclen <= DIR_BLOCK_SIZE * (at / DIR_BLOCK_SIZE + 1)
    requires at <= offset ==> working == offset - at
    requires working < reclen
    ensures at <= offset ==> at == offset && working == 0
  {
    assert offset == DIR_BLOCK_SIZE * (offset / DIR_BLOCK_SIZE);
  }

  /** A record that does not fit starts exactly at the end of the caller's blocks. */
  lemma LimitReached(at: nat, offset: nat, written: nat, reclen: nat, limit: nat)
    requires offset % DIR_BLOCK_SIZE == 0 && limit % DIR_BLOCK_SIZE == 0
    requires at + reclen <= DIR_BLOCK_SIZE * (at / DIR_BLOCK_SIZE + 1)
    requires offset + written == at && written <= limit < written + reclen
    ensures written == limit
  {
    assert offset == DIR_BLOCK_SIZE * (offset / DIR_BLOCK_SIZE) && limit == DIR_BLOCK_SIZE * (limit / DIR_BLOCK_SIZE);
  }

  /** The copy of one record behind the bytes written so far. */
  method CopyRecord(buf: array<byte>, written: nat, d: seq<byte>, from: nat, n: nat, ghost before: seq<byte>, ghost offset: nat)
    requires written + n <= buf.Length && from + n <= |d| && from == offset + written
    requires Delivered(before, buf[..], d, offset, written)
    modifies buf
    ensures Delivered(before, buf[..], d, offset, written + n)
  {
    forall k | 0 <= k < n { buf[written + k] := d[from + k]; }
    var now := buf[..];
    forall k | 0 <= k < written + n ensures now[k] == d[offset..offset + written + n][k] {
      if k < written {
        assert old(buf[..])[k] == d[offset..offset + written][k];
      } else {
        assert buf[written + (k - written)] == d[from + (k - written)];
      }
    }
    forall k | written + n <= k < |now| ensures now[k] == before[k] {
      assert old(buf[..])[k] == before[written..][k - written];
    }
  }

  lemma NextOffset(offset: nat, limit: nat, total: nat)
    requires offset % DIR_BLOCK_SIZE == 0 && limit % DIR_BLOCK_SIZE == 0 && total % DIR_BLOCK_SIZE == 0
    requires offset <= total
    ensures (offset + Min(limit, total - offset)) % DIR_BLOCK_SIZE == 0
  {
  }

  class Directory {
    const fileno: seq<byte> -> nat
    const directory: bool
    var dents: seq<DirEntry>
    var dents_offset: nat

    /** Calls hand out whole blocks only, so the offset stays at a block boundary. */
    ghost predicate Valid()
      reads this
    {
      && Names(dents)
      && dents_offset % DIR_BLOCK_SIZE == 0 && dents_offset <= |Stream()|
    }

    /** Everything there is to read. */
    ghost function Stream(): seq<byte>
      requires Names(dents)
      reads this
    {
      Encode(fileno, dents, 0)
    }

    constructor (fileno: seq<byte> -> nat, dents: seq<DirEntry>, directory: bool)
      requires Names(dents)
      ensures Valid() && dents_offset == 0 && this.dents == dents && this.fileno == fileno && this.directory == directory
    {
      this.fileno, this.dents, this.directory, dents_offset := fileno, dents, directory, 0;
    }

    /** Every call that is asked for at least one block returns exactly the next whole blocks of the
        stream, as many as fit and are left, and moves the offset behind them. */
    method Getdirentries(buf: array<byte>, nbytes: int) returns (r: int, basep: Option<nat>)
      requires Valid() && nbytes <= INT_MAX && nbytes <= buf.Length
      modifies this`dents_offset, buf
      ensures Valid() && dents == old(dents)
      ensures basep == if r < 0 then None else Some(old(dents_offset))
      ensures !directory || nbytes < DIR_BLOCK_SIZE ==> r == KERNEL_ERROR_EINVAL
      ensures r < 0 ==> dents_offset == old(dents_offset) && buf[..] == old(buf[..])
      ensures directory && nbytes >= DIR_BLOCK_SIZE ==>
        && r == Min(nbytes - nbytes % DIR_BLOCK_SIZE, |Stream()| - old(dents_offset))
        && dents_offset == old(dents_offset) + r
        && buf[..] == Stream()[old(dents_offset)..dents_offset] + old(buf[..])[r..]
    {
      if !directory || nbytes < DIR_BLOCK_SIZE { return KERNEL_ERROR_EINVAL, None; }
      basep := Some(dents_offset);
      var bytes_written := ReadBlocks(fileno, dents, dents_offset, nbytes, buf);
      dents_offset := dents_offset + bytes_written;
      r := bytes_written;
    }
  }

  /** The call as the program makes it: descriptor, then buffer, then the file behind the descriptor. */
  method KernelGetdirentries(files: map<int, Directory>, fd: int, buf: array?<byte>, nbytes: int) returns (r: int, basep: Option<nat>)
    requires fd in files ==> files[fd].Valid()
    requires nbytes <= INT_MAX && (buf != null ==> nbytes <= buf.Length)
    modifies if fd in files then {files[fd]} else {}, buf
    ensures r == KERNEL_ERROR_EBADF <==> fd < DESCRIPTOR_MIN || (buf != null && fd !in files)
    ensures r == KERNEL_ERROR_EFAULT <==> fd >= DESCRIPTOR_MIN && buf == null
    ensures fd in files ==> files[fd].Valid() && files[fd].dents == old(files[fd].dents)
    ensures r < 0 ==> basep == None && (buf != null ==> buf[..] == old(buf[..]))
                      && (fd in files ==> files[fd].dents_offset == old(files[fd].dents_offset))
    ensures r >= 0 <==> fd >= DESCRIPTOR_MIN && buf != null && fd in files && files[fd].directory && nbytes >= DIR_BLOCK_SIZE
    ensures r >= 0 ==>
              var dir, start := files[fd], old(files[fd].dents_offset);
              && r == Min(nbytes - nbytes % DIR_BLOCK_SIZE, |dir.Stream()| - start) && basep == Some(start)
              && dir.dents_offset == start + r && buf[..] == dir.Stream()[start..start + r] + old(buf[..])[r..]
  {
    if fd < DESCRIPTOR_MIN { return KERNEL_ERROR_EBADF, None; }
    if buf == null { return KERNEL_ERROR_EFAULT, None; }
    if fd !in files { return KERNEL_ERROR_EBADF, None; }
    r, basep := files[fd].Getdirentries(buf, nbytes);
  }

  /** Packs the directory and delivers the blocks from the offset on. */
  method ReadBlocks(fileno: seq<byte> -> nat, dents: seq<DirEntry>, dents_offset: nat, nbytes: nat, buf: array<byte>) returns (n: nat)
    requires Names(dents) && dents_offset % DIR_BLOCK_SIZE == 0 && dents_offset <= |Encode(fileno, dents, 0)|
    requires DIR_BLOCK_SIZE <= nbytes <= INT_MAX && nbytes <= buf.Length
    modifies buf
    ensures n == Min(nbytes - nbytes % DIR_BLOCK_SIZE, |Encode(fileno, dents, 0)| - dents_offset)
    ensures (dents_offset + n) % DIR_BLOCK_SIZE == 0
    ensures Delivered(old(buf[..]), buf[..], Encode(fileno, dents, 0), dents_offset, n)
  {
    var dirents, cuts := PackBlocks(fileno, dents);
    n := DeliverFrom(dirents, cuts, dents_offset, nbytes, buf);
  }

  method DeliverFrom(dirents: seq<byte>, ghost cuts: seq<nat>, dents_offset: nat, nbytes: nat, buf: array<byte>) returns (n: nat)
    requires Boundaries(dirents, cuts) && cuts[0] == 0 && |dirents| % DIR_BLOCK_SIZE == 0
    requires dents_offset % DIR_BLOCK_SIZE == 0 && dents_offset <= |dirents|
    requires DIR_BLOCK_SIZE <= nbytes <= INT_MAX && nbytes <= buf.Length
    modifies buf
    ensures n == Min(nbytes - nbytes % DIR_BLOCK_SIZE, |dirents| - dents_offset) && (dents_offset + n) % DIR_BLOCK_SIZE == 0
    ensures Delivered(old(buf[..]), buf[..], dirents, dents_offset, n)
  {
    if dents_offset >= |dirents| { return 0; }
    AlignDownIsMod(nbytes);
    var aligned_count := AlignDown(nbytes, DIR_BLOCK_SIZE);
    n := CopyOut(cuts, dirents, dents_offset, aligned_count, buf);
    NextOffset(dents_offset, aligned_count, |dirents|);
  }

  // ----- any sequence of calls -----

  /** What calls with the given sizes return, in order, from a stream of which offset bytes have
      been read. */
  function Calls(s: seq<byte>, offset: nat, sizes: seq<nat>): seq<seq<byte>>
    requires offset <= |s|
    decreases |sizes|
  {
    if sizes == [] then []
    else
      var n := Min(sizes[0] - sizes[0] % DIR_BLOCK_SIZE, |s| - offset);
      [s[offset..offset + n]] + Calls(s, offset + n, sizes[1..])
  }

  /** Reads with buffers of the given sizes, one call after the other. */
  method ReadCalls(dir: Directory, sizes: seq<nat>) returns (parts: seq<seq<byte>>)
    requires dir.Valid() && dir.directory
    requires forall k :: 0 <= k < |sizes| ==> DIR_BLOCK_SIZE <= sizes[k] <= INT_MAX
    modifies dir`dents_offset
    ensures dir.Valid() && dir.dents == old(dir.dents)
    ensures parts == Calls(dir.Stream(), old(dir.dents_offset), sizes)
    decreases |sizes|
  {
    if sizes == [] { return []; }
    var buf := new byte[sizes[0]];
    var r, _ := dir.Getdirentries(buf, sizes[0]);
    var first := buf[..r];
    var rest := ReadCalls(dir, sizes[1..]);
    parts := [first] + rest;
  }

  function Concat(parts: seq<seq<byte>>): seq<byte> {
    if parts == [] then [] else parts[0] + Concat(parts[1..])
  }

  function Total(sizes: seq<nat>): nat {
    if sizes == [] then 0 else sizes[0] - sizes[0] % DIR_BLOCK_SIZE + Total(sizes[1..])
  }

  /** Whatever the sizes of the calls, the results are consecutive parts of the stream, nothing is
      repeated or left out, and together they reach as far as the sizes allow. */
  lemma {:induction false} CallsConcatenate(s: seq<byte>, offset: nat, sizes: seq<nat>)
    requires offset <= |s|
    ensures Concat(Calls(s, offset, sizes)) == s[offset..offset + Min(Total(sizes), |s| - offset)]
    decreases |sizes|
  {
    if sizes != [] {
      var n := Min(sizes[0] - sizes[0] % DIR_BLOCK_SIZE, |s| - offset);
      CallsConcatenate(s, offset + n, sizes[1..]);
    }
  }

  /** Enough calls read the whole directory, and what they return parses back to its entries. */
  lemma ReadingAll(fileno: seq<byte> -> nat, dents: seq<DirEntry>, sizes: seq<nat>)
    requires Names(dents) && Starts(dents, 0) && Total(sizes) >= |Encode(fileno, dents, 0)|
    ensures var s := Concat(Calls(Encode(fileno, dents, 0), 0, sizes)); Reads(s, 0, dents)
  {
    AllRead(Encode(fileno, dents, 0), sizes);
    ParseStream(fileno, dents, 0);
  }

  lemma AllRead(s: seq<byte>, sizes: seq<nat>)
    requires Total(sizes) >= |s|
    ensures Concat(Calls(s, 0, sizes)) == s
  {
    CallsConcatenate(s, 0, sizes);
    assert s[0..|s|] == s;
  }
}
