/** What vhd_write does to the file bytes, over any number of blocks and any number of calls, and why the
    file then stands for the same writes made on a flat disk. */
module VhdWrite {
  import opened Bytes
  import opened Vhd

  /** The span lies on the disk. */
  ghost predicate InRange(g: Geometry, len: nat, off: nat) {
    off + len <= g.currentSize
  }

  // ---------- 64-bit positions ----------

  /** The range check of vhd_read and vhd_write, `offset + size > current_size`: a signed 64-bit offset and an
      unsigned size are added as unsigned 64-bit numbers. */
  predicate Passes(g: Geometry, size: nat, offset: int) {
    (offset + size) % TWO64 <= g.currentSize
  }

  ghost predicate OnDisk(g: Geometry, size: nat, offset: int) {
    0 <= offset && InRange(g, size, offset)
  }

  lemma OnDiskPasses(g: Geometry, size: nat, offset: int)
    requires OnDisk(g, size, offset)
    ensures Passes(g, size, offset)
  {
  }

  /** The conversion of an unsigned 64-bit sum to off_t_64. */
  function OffT(x: nat): (r: int)
    ensures -TWO63 <= r < TWO63
    ensures x < TWO63 ==> r == x
  {
    var low := x % TWO64;
    if low < TWO63 then low else low - TWO64
  }

  lemma OffTSum(x: nat, size: nat)
    ensures (OffT(x) + size) % TWO64 == (x + size) % TWO64
  {
    var q := x / TWO64;
    assert x == TWO64 * q + x % TWO64;
    var low := x % TWO64;
    assert (low + size + TWO64 * q) % TWO64 == (low + size) % TWO64 by { ModShift(low + size, q); }
    assert (low + size - TWO64) % TWO64 == (low + size) % TWO64;
  }

  lemma ModShift(x: nat, q: nat)
    ensures (x + TWO64 * q) % TWO64 == x % TWO64
  {
    var a := x / TWO64;
    assert x == TWO64 * a + x % TWO64;
    DivModOf(a + q, TWO64, x % TWO64);
    assert (a + q) * TWO64 + x % TWO64 == x + TWO64 * q;
  }

  /** For every unsigned 64-bit position and length the check lets a span through that is not on the disk
      exactly when their sum wraps around to a position on the disk. The offset is negative then, unless the
      length itself has 64 bits. */
  lemma RangeCheckExactly(g: Geometry, position: nat, size: nat)
    requires position < TWO64 && size < TWO64 && g.currentSize < TWO63
    ensures OnDisk(g, size, OffT(position)) <==> position + size <= g.currentSize
    ensures Passes(g, size, OffT(position)) && !OnDisk(g, size, OffT(position)) <==>
            TWO64 <= position + size <= TWO64 + g.currentSize
    ensures size <= TWO63 && TWO64 <= position + size ==> OffT(position) < 0
  {
    OffTSum(position, size);
    var x := position + size;
    assert x < TWO64 ==> x % TWO64 == x;
    assert x >= TWO64 ==> x % TWO64 == x - TWO64;
  }

  /** A well-formed file and its disk are far smaller than 2^63 bytes. */
  lemma SizesFit(g: Geometry, f: seq<byte>)
    requires WellFormed(g, f)
    ensures |f| <= SECTOR * NO_BLOCK && g.currentSize < TWO63 && g.Extent() <= 0x20_0200
  {
    hide Bat, Growth;
    BlockSizeFacts(g);
    LayoutBound(g, Bat(g, f), |f|);
    MulMono(g.blockSize, 0x20_0000, g.entries);
  }

  lemma LayoutBound(g: Geometry, bat: seq<nat>, len: nat)
    requires Layout(g, bat, len)
    ensures len <= SECTOR * NO_BLOCK && g.Slot(g.entries) <= len
  {
    hide Growth;
  }

  // ---------- an offset before the beginning of the disk ----------

  /** The two writes of a piece for the block at sector `entry`. */
  function StoredAt(f: seq<byte>, entry: nat, at: nat, d: seq<byte>): seq<byte> {
    Patch(Patch(f, SECTOR * entry + SECTOR + at, d), SECTOR * entry + BitmapFrom(at), Ones(BitmapBytes(|d|)))
  }

  /** Where vhd_read and vhd_write look for the BAT entry of an offset; `>>` rounds down. */
  function SlotOf(g: Geometry, offset: int): int {
    g.tableOffset + 4 * (offset / g.blockSize)
  }

  /** Such a request can ruin the file. With blocks of 2 MiB and the table behind the header, 512 bytes at
      2^64 - 512 are checked as offset -512: the range check lets them through, and the "BAT entry" is the last
      four bytes of the header. If these are zero, the bitmap byte is written into the header. */
  lemma NegativeOffset(g: Geometry, f: seq<byte>, d: seq<byte>)
    requires WellFormed(g, f) && g.blockSize == 0x20_0000 && g.tableOffset == HEADER_SIZE && |d| == 512
    requires f[1532..1536] == [0, 0, 0, 0] && f[511] != 0xFF
    ensures OffT(TWO64 - 512) == -512 && Passes(g, 512, -512) && !OnDisk(g, 512, -512)
    ensures SlotOf(g, -512) == 1532 && Be32(f, 1532) == 0 && -512 % g.blockSize == 0x1F_FE00
    ensures !WellFormed(g, StoredAt(f, 0, 0x1F_FE00, d))
  {
    hide Patch;
    assert -512 / 0x20_0000 == -1;
    var z: seq<byte> := [0, 0, 0, 0];
    Be32Same(f, 1532, z, 0);
    var f2 := StoredAt(f, 0, 0x1F_FE00, d);
    assert BitmapFrom(0x1F_FE00) == 511;
    assert f2[511] == 0xFF;
    assert f[..HEADER_SIZE][511] == f[511];
    assert f2[..HEADER_SIZE][511] == f2[511];
  }

  /** How much of a request of `len` bytes stays in the block of its first byte. */
  function FirstSize(g: Geometry, len: nat, off: nat): (first: nat)
    ensures first <= len && Within(g, off) + first <= g.blockSize
    ensures len > 0 ==> first > 0
  {
    if len + Within(g, off) > g.blockSize then g.blockSize - Within(g, off) else len
  }

  /** A file in which block `n` has a place: `f` itself or `f` with the block added. */
  function Placing(g: Geometry, f: seq<byte>, n: nat): (r: seq<byte>)
    requires WellFormed(g, f) && n < g.entries
    ensures WellFormed(g, r) && Bat(g, r)[n] != NO_BLOCK && Logical(g, r) == Logical(g, f)
  {
    if Bat(g, f)[n] == NO_BLOCK then
      AllocateKeeps(g, f, n);
      Allocate(g, f, n)
    else f
  }

  /** devio.c lines 836-969 for a piece at distance `at` of block `n`. */
  function PutPiece(g: Geometry, f: seq<byte>, n: nat, at: nat, d: seq<byte>): (r: seq<byte>)
    requires WellFormed(g, f) && n < g.entries && d != [] && at + |d| <= g.blockSize
    ensures WellFormed(g, r)
    ensures CellsWritten(g, Placing(g, f, n), r, n, at, d)
  {
    hide Allocate, Logical;
    StoreWritesCells(g, Placing(g, f, n), n, at, d, BitmapBytes(|d|));
    Store(g, Placing(g, f, n), n, at, d, BitmapBytes(|d|))
  }

  function WritePiece(g: Geometry, f: seq<byte>, d: seq<byte>, off: nat): (r: seq<byte>)
    requires WellFormed(g, f) && d != [] && InRange(g, |d|, off)
    requires Within(g, off) + |d| <= g.blockSize
    ensures WellFormed(g, r)
    ensures Logical(g, r) == Splice(Logical(g, f), off, d)
  {
    hide WellFormed, Placing, PutPiece;
    BlockOfByte(g, off);
    var n := BlockOf(g, off);
    var r := PutPiece(g, f, n, Within(g, off), d);
    CellsWrittenDisk(g, Placing(g, f, n), r, d, off);
    r
  }

  /** Block `n` of `f2` holds `d` from distance `at` on; everything else reads as in `f`. */
  ghost predicate CellsWritten(g: Geometry, f: seq<byte>, f2: seq<byte>, n: nat, at: nat, d: seq<byte>) {
    && g.Slot(g.entries) <= |f| && g.Slot(g.entries) <= |f2|
    && forall m, j :: 0 <= m < g.entries && 0 <= j < g.blockSize ==>
                        Cell(g, f2, m, j) == if m == n && at <= j < at + |d| then d[j - at] else Cell(g, f, m, j)
  }

  lemma StoreWritesCells(g: Geometry, f: seq<byte>, n: nat, at: nat, d: seq<byte>, marks: nat)
    requires Storable(g, f, n, at, d, marks)
    ensures WellFormed(g, Store(g, f, n, at, d, marks))
    ensures CellsWritten(g, f, Store(g, f, n, at, d, marks), n, at, d)
  {
    StoreOnlyBlock(g, f, n, at, d, marks);
    OnlyBlockWellFormed(g, f, Store(g, f, n, at, d, marks), n);
    forall m, j | 0 <= m < g.entries && 0 <= j < g.blockSize
      ensures Cell(g, Store(g, f, n, at, d, marks), m, j) ==
              if m == n && at <= j < at + |d| then d[j - at] else Cell(g, f, m, j)
    {
      StoreCell(g, f, n, at, d, marks, m, j);
    }
  }

  lemma CellsWrittenDisk(g: Geometry, f: seq<byte>, f2: seq<byte>, d: seq<byte>, off: nat)
    requires g.currentSize <= g.entries * g.blockSize && InRange(g, |d|, off)
    requires Within(g, off) + |d| <= g.blockSize
    requires CellsWritten(g, f, f2, BlockOf(g, off), Within(g, off), d)
    ensures Logical(g, f2) == Splice(Logical(g, f), off, d)
  {
    forall i | 0 <= i < g.currentSize
      ensures ByteAt(g, f2, i) == if off <= i < off + |d| then d[i - off] else ByteAt(g, f, i)
    {
      BlockOfByte(g, i);
      PieceIndex(g, off, |d|, i);
    }
  }

  /** The file after a whole in-range request, block by block. */
  function WriteSpan(g: Geometry, f: seq<byte>, d: seq<byte>, off: nat): (r: seq<byte>)
    requires WellFormed(g, f) && InRange(g, |d|, off)
    ensures WellFormed(g, r)
    ensures Logical(g, r) == Splice(Logical(g, f), off, d)
    decreases |d|
  {
    if d == [] then f
    else
      var first := FirstSize(g, |d|, off);
      var f1 := WritePiece(g, f, d[..first], off);
      SpliceJoin(Logical(g, f), off, d, first);
      WriteSpan(g, f1, d[first..], off + first)
  }

  lemma SpliceJoin(s: seq<byte>, off: nat, d: seq<byte>, k: nat)
    requires off + |d| <= |s| && k <= |d|
    ensures Splice(Splice(s, off, d[..k]), off + k, d[k..]) == Splice(s, off, d)
  {
  }

  lemma SpanUnfold(g: Geometry, f: seq<byte>, d: seq<byte>, off: nat)
    requires WellFormed(g, f) && InRange(g, |d|, off)
    ensures d == [] ==> WriteSpan(g, f, d, off) == f
    ensures d != [] ==>
              var first := FirstSize(g, |d|, off);
              && WriteSpan(g, f, d, off) == WriteSpan(g, WritePiece(g, f, d[..first], off), d[first..], off + first)
              && (first == |d| ==> WriteSpan(g, f, d, off) == WritePiece(g, f, d, off))
  {
    hide WellFormed, Logical, Splice, WritePiece;
    if d != [] && FirstSize(g, |d|, off) == |d| {
      assert d[..|d|] == d && d[|d|..] == [];
    }
  }

  // ---------- runs of writes ----------

  datatype Op = Op(data: seq<byte>, off: nat)

  /** The write of a flat disk; a span that is not on the disk changes nothing. */
  function FlatWrite(disk: seq<byte>, op: Op): (r: seq<byte>)
    ensures |r| == |disk|
  {
    if op.off + |op.data| > |disk| then disk else Splice(disk, op.off, op.data)
  }

  function Write(g: Geometry, f: seq<byte>, op: Op): (r: seq<byte>)
    requires WellFormed(g, f)
    ensures WellFormed(g, r)
    ensures Logical(g, r) == FlatWrite(Logical(g, f), op)
  {
    hide WellFormed;
    if op.off + |op.data| > g.currentSize then f else WriteSpan(g, f, op.data, op.off)
  }

  /** The file after a sequence of requests. */
  function Writes(g: Geometry, f: seq<byte>, ops: seq<Op>): (r: seq<byte>)
    requires WellFormed(g, f)
    ensures WellFormed(g, r)
    decreases |ops|
  {
    hide WellFormed;
    if ops == [] then f else Writes(g, Write(g, f, ops[0]), ops[1..])
  }

  function FlatWrites(disk: seq<byte>, ops: seq<Op>): seq<byte>
    decreases |ops|
  {
    if ops == [] then disk else FlatWrites(FlatWrite(disk, ops[0]), ops[1..])
  }

  /** The VHD file and a flat disk stay the same disk over every sequence of writes. */
  lemma {:induction false} WritesRefine(g: Geometry, f: seq<byte>, ops: seq<Op>)
    requires WellFormed(g, f)
    ensures Logical(g, Writes(g, f, ops)) == FlatWrites(Logical(g, f), ops)
    decreases |ops|
  {
    hide WellFormed, Write;
    if ops != [] {
      WritesRefine(g, Write(g, f, ops[0]), ops[1..]);
    }
  }

  // ---------- what a request does to BAT and bitmaps ----------

  /** Block `m` holds a byte of the span. */
  predicate Touches(g: Geometry, len: nat, off: nat, m: nat) {
    len > 0 && BlockOf(g, off) <= m <= BlockOf(g, off + len - 1)
  }

  lemma TouchesSplit(g: Geometry, len: nat, off: nat, m: nat)
    requires len > 0
    ensures var first := FirstSize(g, len, off);
            Touches(g, len, off, m) <==> m == BlockOf(g, off) || Touches(g, len - first, off + first, m)
  {
    var b := g.blockSize;
    var first := FirstSize(g, len, off);
    PieceIndex(g, off, first, off + first - 1);
    if len > first {
      assert off == b * (off / b) + off % b;
      NextBlock(b, off / b + 1, off + first);
      NotBefore(b, off / b + 1, off + len - 1);
    }
  }

  lemma NextBlock(b: nat, k: nat, i: nat)
    requires b > 0 && i == b * k
    ensures i / b == k
  {
    assert i == b * (i / b) + i % b;
    MulStep(k, i / b, b);
    MulStep(i / b, k, b);
  }

  lemma NotBefore(b: nat, k: nat, i: nat)
    requires b > 0 && b * k <= i
    ensures k <= i / b
  {
    assert i == b * (i / b) + i % b;
    MulStep(i / b, k, b);
  }

  /** What one piece does to the BAT and to the length of the file. */
  lemma PutPlaces(g: Geometry, f: seq<byte>, n: nat, at: nat, d: seq<byte>)
    requires WellFormed(g, f) && n < g.entries && d != [] && at + |d| <= g.blockSize
    ensures var bat, bat' := Bat(g, f), Bat(g, PutPiece(g, f, n, at, d));
            if bat[n] == NO_BLOCK then bat' == bat[n := bat'[n]] && bat'[n] != NO_BLOCK else bat' == bat
    ensures |PutPiece(g, f, n, at, d)| + Growth(Bat(g, PutPiece(g, f, n, at, d)), g.Extent()) ==
            |f| + Growth(Bat(g, f), g.Extent())
  {
    var f1 := Placing(g, f, n);
    PlacingPlaces(g, f, n);
    hide Placing, Growth;
    StoreOnlyBlock(g, f1, n, at, d, BitmapBytes(|d|));
    hide Store;
    OnlyBlockBat(g, f1, Store(g, f1, n, at, d, BitmapBytes(|d|)), n);
  }

  lemma PlacingPlaces(g: Geometry, f: seq<byte>, n: nat)
    requires WellFormed(g, f) && n < g.entries
    ensures var bat, bat' := Bat(g, f), Bat(g, Placing(g, f, n));
            if bat[n] == NO_BLOCK then bat' == bat[n := bat'[n]] && bat'[n] != NO_BLOCK else bat' == bat
    ensures |Placing(g, f, n)| + Growth(Bat(g, Placing(g, f, n)), g.Extent()) ==
            |f| + Growth(Bat(g, f), g.Extent())
  {
    hide WellFormed;
    if Bat(g, f)[n] == NO_BLOCK {
      AllocateKeeps(g, f, n);
      AllocateBat(g, f, n);
      GrowthUpdate(Bat(g, f), n, |f| / SECTOR - 1, g.Extent());
    }
  }

  /** A request gives a place to exactly the blocks it touches and moves no block, and what the file grows
      by is what was set aside for the new blocks. */
  lemma {:induction false} SpanPlaces(g: Geometry, f: seq<byte>, d: seq<byte>, off: nat, m: nat)
    requires WellFormed(g, f) && InRange(g, |d|, off) && m < g.entries
    ensures Bat(g, f)[m] != NO_BLOCK ==> Bat(g, WriteSpan(g, f, d, off))[m] == Bat(g, f)[m]
    ensures Bat(g, WriteSpan(g, f, d, off))[m] != NO_BLOCK
            <==> Bat(g, f)[m] != NO_BLOCK || Touches(g, |d|, off, m)
    ensures |WriteSpan(g, f, d, off)| + Growth(Bat(g, WriteSpan(g, f, d, off)), g.Extent()) ==
            |f| + Growth(Bat(g, f), g.Extent())
    decreases |d|
  {
    hide WellFormed, Growth, PutPiece, Bat, FirstSize, BlockOf, Within, Logical, Splice, WritePiece;
    if d != [] {
      var first, n, at := SpanStep(g, f, d, off);
      PutPlaces(g, f, n, at, d[..first]);
      SpanPlaces(g, PutPiece(g, f, n, at, d[..first]), d[first..], off + first, m);
      TouchesSplit(g, |d|, off, m);
    }
  }

  /** One unfolding of `WriteSpan`. */
  lemma SpanStep(g: Geometry, f: seq<byte>, d: seq<byte>, off: nat) returns (first: nat, n: nat, at: nat)
    requires WellFormed(g, f) && InRange(g, |d|, off) && d != []
    ensures first == FirstSize(g, |d|, off) && 0 < first <= |d| && n == BlockOf(g, off) && at == Within(g, off)
    ensures n < g.entries && d[..first] != [] && at + first <= g.blockSize && InRange(g, |d[first..]|, off + first)
    ensures WellFormed(g, PutPiece(g, f, n, at, d[..first]))
    ensures WriteSpan(g, f, d, off) == WriteSpan(g, PutPiece(g, f, n, at, d[..first]), d[first..], off + first)
  {
    hide WellFormed, Logical, Splice, PutPiece, BlockOf, Within, Placing;
    first, n, at := FirstSize(g, |d|, off), BlockOf(g, off), Within(g, off);
    BlockOfByte(g, off);
  }

  /** Every bitmap byte of every block already in the file keeps its value or becomes FFh. */
  lemma {:induction false} SpanBitmaps(g: Geometry, f: seq<byte>, d: seq<byte>, off: nat, m: nat, k: nat)
    requires WellFormed(g, f) && InRange(g, |d|, off)
    requires m < g.entries && Bat(g, f)[m] != NO_BLOCK && k < SECTOR
    ensures Bat(g, WriteSpan(g, f, d, off))[m] == Bat(g, f)[m]
    ensures BitmapByte(g, WriteSpan(g, f, d, off), m, k) in {BitmapByte(g, f, m, k), 0xFF}
    decreases |d|
  {
    hide WellFormed, BitmapByte, PutPiece, Bat, FirstSize, BlockOf, Within, Logical, Splice, WritePiece;
    if d != [] {
      var first, n, at := SpanStep(g, f, d, off);
      PutBitmap(g, f, n, at, d[..first], m, k);
      SpanBitmaps(g, PutPiece(g, f, n, at, d[..first]), d[first..], off + first, m, k);
    }
  }

  lemma PutBitmap(g: Geometry, f: seq<byte>, n: nat, at: nat, d: seq<byte>, m: nat, k: nat)
    requires WellFormed(g, f) && n < g.entries && d != [] && at + |d| <= g.blockSize
    requires m < g.entries && Bat(g, f)[m] != NO_BLOCK && k < SECTOR
    ensures Bat(g, PutPiece(g, f, n, at, d))[m] == Bat(g, f)[m]
    ensures BitmapByte(g, PutPiece(g, f, n, at, d), m, k) in {BitmapByte(g, f, m, k), 0xFF}
  {
    PlacingBitmap(g, f, n, m, k);
    hide Placing, WellFormed, Store, BitmapByte;
    StoreBitmap(g, Placing(g, f, n), n, at, d, BitmapBytes(|d|), m, k);
  }

  lemma PlacingBitmap(g: Geometry, f: seq<byte>, n: nat, m: nat, k: nat)
    requires WellFormed(g, f) && n < g.entries
    requires m < g.entries && Bat(g, f)[m] != NO_BLOCK && k < SECTOR
    ensures Bat(g, Placing(g, f, n))[m] == Bat(g, f)[m]
    ensures BitmapByte(g, Placing(g, f, n), m, k) == BitmapByte(g, f, m, k)
  {
    hide Allocate, WellFormed, Bat, Be32;
    if Bat(g, f)[n] == NO_BLOCK {
      AllocateKeeps(g, f, n);
      BlockPlaced(g, f, m);
    }
  }

  /** The bitmap byte of a sector that a piece writes, when the piece begins a group of eight sectors. */
  lemma PutMarks(g: Geometry, f: seq<byte>, n: nat, at: nat, d: seq<byte>, j: nat)
    requires WellFormed(g, f) && n < g.entries && d != [] && at + |d| <= g.blockSize
    requires at % 4096 == 0 && at <= j < at + |d|
    ensures Bat(g, PutPiece(g, f, n, at, d))[n] != NO_BLOCK && BitmapFrom(j) < SECTOR
    ensures BitmapByte(g, PutPiece(g, f, n, at, d), n, BitmapFrom(j)) == 0xFF
  {
    hide Placing, WellFormed, Store, BitmapByte, Bat;
    MarkCovers(at, |d|, j);
    StoreFits(g, Placing(g, f, n), n, at, d, BitmapBytes(|d|));
    StoreBitmap(g, Placing(g, f, n), n, at, d, BitmapBytes(|d|), n, BitmapFrom(j));
  }

  lemma MarkCovers(at: nat, len: nat, j: nat)
    requires at % 4096 == 0 && at <= j < at + len
    ensures BitmapFrom(at) <= BitmapFrom(j) < BitmapFrom(at) + BitmapBytes(len)
  {
    assert BitmapFrom(j) == j / 4096 && BitmapFrom(at) == at / 4096;
    assert at == 4096 * (at / 4096);
  }

  /** A request that begins a group of eight sectors marks every byte it writes in the bitmap of its block,
      in however many blocks that is. */
  lemma {:induction false} SpanMarks(g: Geometry, f: seq<byte>, d: seq<byte>, off: nat, i: nat)
    requires WellFormed(g, f) && InRange(g, |d|, off) && off <= i < off + |d|
    requires Within(g, off) % 4096 == 0
    ensures BlockOf(g, i) < g.entries
    ensures BitmapByte(g, WriteSpan(g, f, d, off), BlockOf(g, i), BitmapFrom(Within(g, i))) == 0xFF
    decreases |d|
  {
    hide WellFormed, BitmapByte, PutPiece, Bat, BlockOf, Within, Logical, Splice, WritePiece, BitmapFrom, FirstSize,
         WriteSpan;
    BlockOfByte(g, i);
    var first, n, at := SpanStep(g, f, d, off);
    var f1 := PutPiece(g, f, n, at, d[..first]);
    if i < off + first {
      PieceIndex(g, off, first, i);
      PutMarks(g, f, n, at, d[..first], Within(g, i));
      SpanBitmaps(g, f1, d[first..], off + first, n, BitmapFrom(Within(g, i)));
    } else {
      PieceEnd(g, |d|, off);
      SpanMarks(g, f1, d[first..], off + first, i);
    }
  }

  /** A request that does not end in its first block goes on at the beginning of the next. */
  lemma PieceEnd(g: Geometry, len: nat, off: nat)
    ensures FirstSize(g, len, off) < len ==> Within(g, off + FirstSize(g, len, off)) == 0
  {
    var b, first := g.blockSize, FirstSize(g, len, off);
    if first < len {
      assert off == off / b * b + off % b;
      assert off + first == (off / b + 1) * b;
      DivModOf(off / b + 1, b, 0);
    }
  }

  /** Leaving an all-zero piece of an absent block out of the file would not change the disk either. */
  lemma ZeroSkipIsSound(g: Geometry, f: seq<byte>, d: seq<byte>, off: nat)
    requires WellFormed(g, f) && InRange(g, |d|, off) && Within(g, off) + |d| <= g.blockSize
    requires BlockOf(g, off) < g.entries && Bat(g, f)[BlockOf(g, off)] == NO_BLOCK
    requires forall k :: 0 <= k < |d| ==> d[k] == 0
    ensures Splice(Logical(g, f), off, d) == Logical(g, f)
  {
    hide WellFormed, Logical, Splice, BlockOf, Within;
    CellsWrittenDisk(g, f, f, d, off);
  }

  // ---------- a request that fails half-way ----------

  /** `f` is `base` with the BAT entry of absent block `n` written but the block itself missing. */
  ghost predicate TornAt(g: Geometry, base: seq<byte>, f: seq<byte>, n: nat) {
    && WellFormed(g, base) && n < g.entries && Bat(g, base)[n] == NO_BLOCK && Growable(g, base)
    && f == Patch(base, g.Slot(n), Be32Bytes(|base| / SECTOR - 1))
  }

  /** After a request to write `d` has failed: `base` is well formed and holds the disk with the first
      `kept` bytes written, and the file is `base`, or `base` with a block torn. */
  ghost predicate Interrupted(g: Geometry, before: seq<byte>, f: seq<byte>, d: seq<byte>, off: nat,
                              kept: nat, base: seq<byte>)
    requires WellFormed(g, before) && InRange(g, |d|, off)
  {
    && kept <= |d| && WellFormed(g, base)
    && Logical(g, base) == Splice(Logical(g, before), off, d[..kept])
    && (f == base || exists n :: TornAt(g, base, f, n))
  }

  lemma NothingWritten(s: seq<byte>, off: nat, d: seq<byte>)
    requires off + |d| <= |s|
    ensures Splice(s, off, d[..0]) == s && Splice(s, off, d[..|d|]) == Splice(s, off, d)
  {
    assert d[..|d|] == d;
  }

  /** A request that fails in its first piece. */
  lemma InterruptedFirst(g: Geometry, before: seq<byte>, f: seq<byte>, d: seq<byte>, off: nat, first: nat,
                         kept: nat, base: seq<byte>)
    requires WellFormed(g, before) && InRange(g, |d|, off) && first <= |d|
    requires Interrupted(g, before, f, d[..first], off, kept, base)
    ensures Interrupted(g, before, f, d, off, kept, base)
  {
    hide WellFormed, Logical, TornAt;
    assert d[..first][..kept] == d[..kept];
  }

  /** A request that fails after its first piece was written. */
  lemma InterruptedLater(g: Geometry, before: seq<byte>, between: seq<byte>, f: seq<byte>, d: seq<byte>, off: nat,
                         first: nat, kept: nat, base: seq<byte>)
    requires WellFormed(g, before) && WellFormed(g, between) && InRange(g, |d|, off) && first <= |d|
    requires Logical(g, between) == Splice(Logical(g, before), off, d[..first])
    requires Interrupted(g, between, f, d[first..], off + first, kept, base)
    ensures Interrupted(g, before, f, d, off, kept + first, base)
  {
    hide WellFormed, Logical, Splice, TornAt;
    var all := d[..kept + first];
    assert all[..first] == d[..first] && all[first..] == d[first..][..kept];
    SpliceJoin(Logical(g, before), off, all, first);
  }

  /** Such a file reads as the same disk but is no longer well formed: the next block that is added is
      given the very place that block `n` already names. */
  lemma TornState(g: Geometry, base: seq<byte>, f: seq<byte>, n: nat, m: nat)
    requires TornAt(g, base, f, n) && m < g.entries && m != n && Bat(g, base)[m] == NO_BLOCK
    ensures |f| == |base| && !WellFormed(g, f) && Logical(g, f) == Logical(g, base)
    ensures Growable(g, f) && Bat(g, Allocate(g, f, m))[m] == Bat(g, f)[n] == Bat(g, Allocate(g, f, m))[n]
  {
    hide Logical, Be32, Patch, Allocate;
    TornBat(g, base, f, n);
    TornIll(g, base, f, n);
    AllocateBat(g, f, m);
    TornDisk(g, base, f, n);
  }

  /** The piece of the failed request, written again: its data lies behind the old footer and its bitmap bytes
      lie in that footer. The disk reads as if the piece had been written, but the file ends with its block,
      and the next new block is put over the end of it. */
  lemma RetriedState(g: Geometry, base: seq<byte>, f: seq<byte>, n: nat, at: nat, d: seq<byte>)
    requires TornAt(g, base, f, n) && d != [] && at + |d| <= g.blockSize
    ensures g.Slot(g.entries) + FOOTER_SIZE <= |base| == |f|
    ensures var f2, e := Store(g, f, n, at, d, BitmapBytes(|d|)), Bat(g, f)[n];
            && |f2| == |base| + at + |d| && f2[|base| + at..] == d
            && |base| - FOOTER_SIZE == SECTOR * e && BitmapFrom(at) + BitmapBytes(|d|) <= FOOTER_SIZE
            && (forall p :: BitmapFrom(at) <= p - SECTOR * e < BitmapFrom(at) + BitmapBytes(|d|) ==> f2[p] == 0xFF)
            && CellsWritten(g, f, f2, n, at, d)
            && !WellFormed(g, f2)
            && forall m :: 0 <= m < g.entries && m != n && Bat(g, base)[m] == NO_BLOCK ==>
                             Growable(g, f2) && Cell(g, Allocate(g, f2, m), n, at + |d| - 1) == 0
  {
    hide WellFormed, Bat, Store, Allocate, CellsWritten, BitmapBytes, BitmapFrom, Cell, Growable;
    RetriedBytes(g, base, f, n, at, d);
    RetriedBat(g, base, f, n, at, d);
    RetriedCells(g, base, f, n, at, d);
    RetriedIll(g, base, f, n, at, d);
    forall m | 0 <= m < g.entries && m != n && Bat(g, base)[m] == NO_BLOCK
      ensures Growable(g, Store(g, f, n, at, d, BitmapBytes(|d|)))
      ensures Cell(g, Allocate(g, Store(g, f, n, at, d, BitmapBytes(|d|)), m), n, at + |d| - 1) == 0
    {
      RetriedNext(g, base, f, n, at, d, m);
    }
  }

  /** Where the bytes of the file are after the piece was written again. */
  lemma RetriedBytes(g: Geometry, base: seq<byte>, f: seq<byte>, n: nat, at: nat, d: seq<byte>)
    requires TornAt(g, base, f, n) && d != [] && at + |d| <= g.blockSize
    ensures g.Slot(g.entries) + FOOTER_SIZE <= |base| == |f|
    ensures BitmapFrom(at) + BitmapBytes(|d|) <= FOOTER_SIZE
    ensures var f2, e, end := Store(g, f, n, at, d, BitmapBytes(|d|)), Bat(g, f)[n], |base| - FOOTER_SIZE;
            && SECTOR * e == end && e != NO_BLOCK && |f2| == |base| + at + |d|
            && forall p :: 0 <= p < |f2| ==>
                 f2[p] == if |base| + at <= p then d[p - |base| - at]
                          else if end + BitmapFrom(at) <= p < end + BitmapFrom(at) + BitmapBytes(|d|) then 0xFF
                          else if p < |base| then f[p] else 0
  {
    hide WellFormed, Bat, Patch, BitmapBytes, BitmapFrom, Be32Bytes;
    TornBat(g, base, f, n);
    TornRoom(g, base);
    BlockSizeFacts(g);
    BitmapInSector(at, |d|);
    assert SECTOR * (|base| / SECTOR - 1) == |base| - FOOTER_SIZE;
  }

  lemma TornRoom(g: Geometry, base: seq<byte>)
    requires WellFormed(g, base) && Growable(g, base)
    ensures g.Valid() && |base| % SECTOR == 0 && |base| < SECTOR * NO_BLOCK
  {
    hide Bat, Growth;
  }

  lemma RetriedBat(g: Geometry, base: seq<byte>, f: seq<byte>, n: nat, at: nat, d: seq<byte>)
    requires TornAt(g, base, f, n) && d != [] && at + |d| <= g.blockSize
    ensures g.Slot(g.entries) + FOOTER_SIZE <= |base| == |f|
    ensures |Store(g, f, n, at, d, BitmapBytes(|d|))| == |base| + at + |d|
    ensures Bat(g, Store(g, f, n, at, d, BitmapBytes(|d|))) == Bat(g, f)
  {
    hide WellFormed, Store, BitmapBytes, BitmapFrom, Be32, Patch, Be32Bytes;
    RetriedBytes(g, base, f, n, at, d);
    var f2 := Store(g, f, n, at, d, BitmapBytes(|d|));
    forall m | 0 <= m < g.entries
      ensures Be32(f2, g.Slot(m)) == Be32(f, g.Slot(m))
    {
      assert f2[g.Slot(m)..g.Slot(m) + 4] == f[g.Slot(m)..g.Slot(m) + 4];
      Be32Same(f2, g.Slot(m), f, g.Slot(m));
    }
  }

  lemma RetriedCell(g: Geometry, base: seq<byte>, f: seq<byte>, n: nat, at: nat, d: seq<byte>, m: nat, j: nat)
    requires TornAt(g, base, f, n) && d != [] && at + |d| <= g.blockSize && m < g.entries && j < g.blockSize
    requires g.Slot(g.entries) <= |f| && g.Slot(g.entries) <= |Store(g, f, n, at, d, BitmapBytes(|d|))|
    ensures Cell(g, Store(g, f, n, at, d, BitmapBytes(|d|)), m, j) ==
            if m == n && at <= j < at + |d| then d[j - at] else Cell(g, f, m, j)
  {
    hide WellFormed, Store, Bat, BitmapBytes, BitmapFrom, Patch, Be32Bytes;
    RetriedBytes(g, base, f, n, at, d);
    RetriedBat(g, base, f, n, at, d);
    TornBat(g, base, f, n);
    if m != n && Bat(g, base)[m] != NO_BLOCK {
      BlockPlaced(g, base, m);
    }
  }

  lemma RetriedCells(g: Geometry, base: seq<byte>, f: seq<byte>, n: nat, at: nat, d: seq<byte>)
    requires TornAt(g, base, f, n) && d != [] && at + |d| <= g.blockSize
    ensures g.Slot(g.entries) <= |f|
    ensures CellsWritten(g, f, Store(g, f, n, at, d, BitmapBytes(|d|)), n, at, d)
  {
    hide WellFormed, Store, Bat, BitmapBytes, BitmapFrom, Cell, TornAt;
    RetriedBat(g, base, f, n, at, d);
    assert n < g.entries by { TornIs(g, base, f, n); }
    forall m, j | 0 <= m < g.entries && 0 <= j < g.blockSize
      ensures Cell(g, Store(g, f, n, at, d, BitmapBytes(|d|)), m, j) ==
              if m == n && at <= j < at + |d| then d[j - at] else Cell(g, f, m, j)
    {
      RetriedCell(g, base, f, n, at, d, m, j);
    }
  }

  lemma TornIs(g: Geometry, base: seq<byte>, f: seq<byte>, n: nat)
    requires TornAt(g, base, f, n)
    ensures n < g.entries && g.Valid() && |base| % SECTOR == 0 && WellFormed(g, base)
  {
    TornRoom(g, base);
  }

  lemma RetriedIll(g: Geometry, base: seq<byte>, f: seq<byte>, n: nat, at: nat, d: seq<byte>)
    requires TornAt(g, base, f, n) && d != [] && at + |d| <= g.blockSize
    ensures g.Slot(g.entries) <= |f| && !WellFormed(g, Store(g, f, n, at, d, BitmapBytes(|d|)))
  {
    hide WellFormed, Store, Bat, BitmapBytes, BitmapFrom;
    RetriedBytes(g, base, f, n, at, d);
    RetriedBat(g, base, f, n, at, d);
    if WellFormed(g, Store(g, f, n, at, d, BitmapBytes(|d|))) {
      BlockPlaced(g, Store(g, f, n, at, d, BitmapBytes(|d|)), n);
    }
  }

  lemma RetriedNext(g: Geometry, base: seq<byte>, f: seq<byte>, n: nat, at: nat, d: seq<byte>, m: nat)
    requires TornAt(g, base, f, n) && d != [] && at + |d| <= g.blockSize
    requires m < g.entries && m != n && Bat(g, base)[m] == NO_BLOCK
    ensures g.Slot(g.entries) <= |f| && Growable(g, Store(g, f, n, at, d, BitmapBytes(|d|)))
    ensures Cell(g, Allocate(g, Store(g, f, n, at, d, BitmapBytes(|d|)), m), n, at + |d| - 1) == 0
  {
    hide WellFormed, Store, Bat, BitmapBytes, BitmapFrom, Allocate, Be32Bytes;
    RetriedBytes(g, base, f, n, at, d);
    RetriedBat(g, base, f, n, at, d);
    TwoMore(g, base, n, m);
    var f2 := Store(g, f, n, at, d, BitmapBytes(|d|));
    AllocateBat(g, f2, m);
  }

  /** Two blocks without a place leave room for both. */
  lemma TwoMore(g: Geometry, f: seq<byte>, n: nat, m: nat)
    requires WellFormed(g, f) && n < g.entries && m < g.entries && n != m
    requires Bat(g, f)[n] == NO_BLOCK && Bat(g, f)[m] == NO_BLOCK
    ensures |g.footer| == FOOTER_SIZE && |f| + 2 * g.Extent() <= SECTOR * NO_BLOCK
  {
    hide Bat, Growth;
    GrowthUpdate(Bat(g, f), n, 0, g.Extent());
    GrowthUpdate(Bat(g, f)[n := 0], m, 0, g.Extent());
  }

  lemma TornIll(g: Geometry, base: seq<byte>, f: seq<byte>, n: nat)
    requires TornAt(g, base, f, n) && |f| == |base| && Bat(g, f) == Bat(g, base)[n := |base| / SECTOR - 1]
    ensures |base| % SECTOR == 0 && !WellFormed(g, f)
  {
    hide Logical, Bat, Patch;
    assert SECTOR * (|base| / SECTOR - 1) == |f| - FOOTER_SIZE;
    if WellFormed(g, f) {
      BlockPlaced(g, f, n);
    }
  }

  /** After a failed request the disk holds the first bytes written, whether a block was torn or not. */
  lemma InterruptedDisk(g: Geometry, before: seq<byte>, f: seq<byte>, d: seq<byte>, off: nat, kept: nat,
                        base: seq<byte>)
    requires WellFormed(g, before) && InRange(g, |d|, off) && Interrupted(g, before, f, d, off, kept, base)
    ensures WellFormed(g, f) || exists n :: TornAt(g, base, f, n)
    ensures kept <= |d| && g.Slot(g.entries) <= |f|
    ensures Logical(g, f) == FlatWrite(Logical(g, before), Op(d[..kept], off))
  {
    hide WellFormed, Logical, Bat, TornAt;
    if f != base {
      var n :| TornAt(g, base, f, n);
      TornBat(g, base, f, n);
      TornIs(g, base, f, n);
      TornDisk(g, base, f, n);
    }
  }

  lemma TornBat(g: Geometry, base: seq<byte>, f: seq<byte>, n: nat)
    requires TornAt(g, base, f, n)
    ensures |f| == |base| && Bat(g, f) == Bat(g, base)[n := |base| / SECTOR - 1]
  {
    hide WellFormed, Be32;
    var e := |base| / SECTOR - 1;
    forall m | 0 <= m < g.entries
      ensures Be32(f, g.Slot(m)) == if m == n then e else Be32(base, g.Slot(m))
    {
      var at := g.Slot(m);
      if m == n {
        assert f[at..at + 4] == Be32Bytes(e) == Be32Bytes(e)[0..4];
        Be32Same(f, at, Be32Bytes(e), 0);
      } else {
        assert f[at..at + 4] == base[at..at + 4];
        Be32Same(f, at, base, at);
      }
    }
  }

  lemma TornDisk(g: Geometry, base: seq<byte>, f: seq<byte>, n: nat)
    requires TornAt(g, base, f, n) && |f| == |base| && |base| % SECTOR == 0
    ensures Logical(g, f) == Logical(g, base)
  {
    hide WellFormed, BlockOf, Within, Bat;
    TornBat(g, base, f, n);
    forall i | 0 <= i < g.currentSize
      ensures ByteAt(g, f, i) == ByteAt(g, base, i)
    {
      BlockOfByte(g, i);
      var m := BlockOf(g, i);
      if m != n && Bat(g, base)[m] != NO_BLOCK {
        BlockPlaced(g, base, m);
      }
    }
  }

  lemma StoreRefines(g: Geometry, f: seq<byte>, d: seq<byte>, off: nat, marks: nat)
    requires BlockOf(g, off) < g.entries && InRange(g, |d|, off)
    requires Storable(g, f, BlockOf(g, off), Within(g, off), d, marks)
    ensures WellFormed(g, Store(g, f, BlockOf(g, off), Within(g, off), d, marks))
    ensures Logical(g, Store(g, f, BlockOf(g, off), Within(g, off), d, marks)) == Splice(Logical(g, f), off, d)
  {
    hide WellFormed, BlockOf, Within, Bat, Logical, Splice, Store;
    StoreWritesCells(g, f, BlockOf(g, off), Within(g, off), d, marks);
    CellsWrittenDisk(g, f, Store(g, f, BlockOf(g, off), Within(g, off), d, marks), d, off);
  }

  /** The physical writes of one piece. `placed` is the file once the block has a place, `f` the file after
      the data and, if `done` is not -1, the bitmap have been written. */
  lemma PieceParts(g: Geometry, base: seq<byte>, placed: seq<byte>, f: seq<byte>, d: seq<byte>, off: nat,
                   entry: nat, done: int)
    requires WellFormed(g, base) && d != [] && InRange(g, |d|, off) && Within(g, off) + |d| <= g.blockSize
    requires BlockOf(g, off) < g.entries && placed == Placing(g, base, BlockOf(g, off))
    requires entry == Bat(g, placed)[BlockOf(g, off)]
    requires f in {placed, Patch(placed, SECTOR * entry + SECTOR + Within(g, off), d)} || done != -1
    requires done != -1 ==> f == Patch(Patch(placed, SECTOR * entry + SECTOR + Within(g, off), d),
                                       SECTOR * entry + BitmapFrom(Within(g, off)), Ones(BitmapBytes(|d|)))
    ensures WellFormed(g, f)
    ensures f == placed ==> Logical(g, f) == Logical(g, base)
    ensures f != placed ==> Logical(g, f) == Splice(Logical(g, base), off, d)
    ensures done != -1 ==> f == WritePiece(g, base, d, off) && Logical(g, f) == Splice(Logical(g, base), off, d)
  {
    hide WellFormed, BlockOf, Within, Bat, Logical, Splice, Patch, Placing, BitmapBytes, BitmapFrom, Ones;
    var n, at := BlockOf(g, off), Within(g, off);
    var marks := if done == -1 then 0 else BitmapBytes(|d|);
    StoreRefines(g, placed, d, off, marks);
    assert Ones(0) == [];
    PatchNothing(Patch(placed, SECTOR * entry + SECTOR + at, d), SECTOR * entry + BitmapFrom(at));
  }

  // ---------- an image without blocks ----------

  /** Header, a BAT of absent blocks filled up to a sector, and the footer. */
  function Blank(g: Geometry): seq<byte> {
    g.header + Ones((4 * g.entries + SECTOR - 1) / SECTOR * SECTOR) + g.footer
  }

  /** An image without blocks is well formed, if all its blocks can be numbered, and is a disk of zeros. */
  lemma BlankIsZero(g: Geometry)
    requires g.Valid() && g.tableOffset == HEADER_SIZE
    requires 2048 + 512 * ((g.entries + 127) / 128) + g.entries * (512 + g.blockSize) <= 512 * 0xFFFF_FFFF
    ensures |Blank(g)| == 2048 + 512 * ((g.entries + 127) / 128)
    ensures WellFormed(g, Blank(g)) && Logical(g, Blank(g)) == Zeros(g.currentSize)
  {
    hide Bat, Growth, Blank, Logical;
    BlankShape(g);
    BlankBat(g);
    GrowthOfNone(Bat(g, Blank(g)), g.Extent());
    BlankDisk(g, Blank(g));
  }

  /** An empty disk of one block whose header is zeros is such a file. */
  lemma NegativeOffsetFile() returns (g: Geometry, f: seq<byte>)
    ensures WellFormed(g, f) && g.blockSize == 0x20_0000 && g.tableOffset == HEADER_SIZE
    ensures f[1532..1536] == [0, 0, 0, 0] && f[511] != 0xFF
  {
    hide Logical, Layout;
    g := Geometry(21, 0x20_0000, HEADER_SIZE, 1, 0x20_0000, Zeros(HEADER_SIZE), Zeros(FOOTER_SIZE));
    f := Blank(g);
    Pow2Values();
    BlankIsZero(g);
    assert f[..HEADER_SIZE] == g.header;
  }

  lemma BlankShape(g: Geometry)
    requires g.Valid() && g.tableOffset == HEADER_SIZE
    ensures var f := Blank(g);
            && g.Slot(g.entries) + FOOTER_SIZE <= |f| && |f| % SECTOR == 0
            && |f| == 2048 + 512 * ((g.entries + 127) / 128)
            && f[..HEADER_SIZE] == g.header && f[|f| - FOOTER_SIZE..] == g.footer
  {
    hide Pow2;
    TableSectors(g.entries);
    var table := Ones((4 * g.entries + SECTOR - 1) / SECTOR * SECTOR);
    hide Ones;
    assert Blank(g)[..HEADER_SIZE] == g.header;
    assert Blank(g) == g.header + table + g.footer;
  }

  lemma TableSectors(entries: nat)
    ensures var table := (4 * entries + 511) / 512;
            && table == (entries + 127) / 128 && 4 * entries <= 512 * table
            && (table * 512) % 512 == 0
  {
  }

  lemma BlankBat(g: Geometry)
    requires g.Valid() && g.tableOffset == HEADER_SIZE && g.Slot(g.entries) + FOOTER_SIZE <= |Blank(g)|
    ensures forall n :: 0 <= n < g.entries ==> Bat(g, Blank(g))[n] == NO_BLOCK
  {
    var f := Blank(g);
    forall n | 0 <= n < g.entries
      ensures Bat(g, f)[n] == NO_BLOCK
    {
      assert f[g.Slot(n)] == f[g.Slot(n) + 1] == f[g.Slot(n) + 2] == f[g.Slot(n) + 3] == 0xFF;
    }
  }

  lemma BlankDisk(g: Geometry, f: seq<byte>)
    requires g.Valid() && g.Slot(g.entries) <= |f| && forall n :: 0 <= n < g.entries ==> Bat(g, f)[n] == NO_BLOCK
    ensures Logical(g, f) == Zeros(g.currentSize)
  {
    hide BlockOf, Within, Bat;
    forall i | 0 <= i < g.currentSize
      ensures ByteAt(g, f, i) == 0
    {
      BlockOfByte(g, i);
    }
  }

  lemma {:induction false} GrowthOfNone(bat: seq<nat>, x: nat)
    requires forall n :: 0 <= n < |bat| ==> bat[n] == NO_BLOCK
    ensures Growth(bat, x) == |bat| * x
  {
    if bat != [] {
      GrowthOfNone(bat[..|bat| - 1], x);
      assert |bat| * x == (|bat| - 1) * x + x;
    }
  }
}
