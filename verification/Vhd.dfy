/** The dynamic VHD file of devio.c as a value: where header, block allocation table (BAT), blocks and
    footer lie in the file bytes, the flat disk they stand for, and what a write does to the bytes. */
module Vhd {
  import opened Bytes

  /** BAT entry of a block that has no place in the file. */
  const NO_BLOCK: int := 0xFFFF_FFFF
  const SECTOR: int := 512
  /** Footer copy and dynamic disk header, as read into vhd_info. */
  const HEADER_SIZE: int := 1536
  const FOOTER_SIZE: int := 512

  function Pow2(n: nat): (p: nat)
    ensures p > 0
  {
    if n == 0 then 1 else 2 * Pow2(n - 1)
  }

  type pos = x: int | 0 < x witness 1

  /** What devio keeps in globals about an opened VHD. */
  datatype Geometry = Geometry(
    blockShift: nat, blockSize: pos, tableOffset: nat, entries: nat, currentSize: nat,
    header: seq<byte>, footer: seq<byte>)
  {
    /** A block in the file: one bitmap sector, then the data. */
    function Extent(): nat {
      SECTOR + blockSize
    }

    function Slot(n: nat): nat {
      tableOffset + 4 * n
    }

    ghost predicate Valid() {
      && 9 <= blockShift <= 21 && blockSize == Pow2(blockShift)
      && |header| == HEADER_SIZE && |footer| == FOOTER_SIZE
      && HEADER_SIZE <= tableOffset
      && currentSize <= entries * blockSize
    }
  }

  lemma BlockSizeFacts(g: Geometry)
    requires g.Valid()
    ensures SECTOR <= g.blockSize <= 0x20_0000 && g.blockSize % SECTOR == 0
  {
    hide Pow2;
    Pow2Values();
    Pow2Grows(9, g.blockShift);
    Pow2Grows(g.blockShift, 21);
    Pow2Multiple(g.blockShift);
  }

  lemma Pow2Values()
    ensures Pow2(9) == 512 && Pow2(21) == 0x20_0000
  {
    assert Pow2(3) == 8 * Pow2(0);
    assert Pow2(6) == 8 * Pow2(3);
    assert Pow2(9) == 8 * Pow2(6);
    assert Pow2(12) == 8 * Pow2(9);
    assert Pow2(15) == 8 * Pow2(12);
    assert Pow2(18) == 8 * Pow2(15);
    assert Pow2(21) == 8 * Pow2(18);
  }

  lemma {:induction false} Pow2Grows(a: nat, b: nat)
    requires a <= b
    ensures Pow2(a) <= Pow2(b)
  {
    if a < b {
      Pow2Grows(a, b - 1);
    }
  }

  lemma {:induction false} Pow2Multiple(n: nat)
    requires 9 <= n
    ensures Pow2(n) % 512 == 0
  {
    if n == 9 {
      Pow2Values();
    } else {
      Pow2Multiple(n - 1);
      DivModOf(2 * (Pow2(n - 1) / 512), 512, 0);
    }
  }

  // ---------- layout of a well-formed file ----------

  function Bat(g: Geometry, f: seq<byte>): (bat: seq<nat>)
    requires g.Slot(g.entries) <= |f|
    ensures |bat| == g.entries
    ensures forall n :: 0 <= n < |bat| ==> bat[n] == Be32(f, g.Slot(n))
  {
    seq(g.entries, n requires 0 <= n < g.entries => Be32(f, g.Slot(n)))
  }

  /** Bytes the file grows by when every block still without a place is added. */
  function Growth(bat: seq<nat>, extent: nat): nat {
    if bat == [] then 0
    else Growth(bat[..|bat| - 1], extent) + if bat[|bat| - 1] == NO_BLOCK then extent else 0
  }

  /** The block at sector `e` is clear of header, BAT and footer. */
  predicate Placed(g: Geometry, e: nat, len: nat) {
    && HEADER_SIZE <= SECTOR * e
    && SECTOR * e + g.Extent() + FOOTER_SIZE <= len
    && (g.Slot(g.entries) <= SECTOR * e || SECTOR * e + g.Extent() <= g.tableOffset)
  }

  predicate Apart(g: Geometry, a: nat, b: nat) {
    SECTOR * a + g.Extent() <= SECTOR * b || SECTOR * b + g.Extent() <= SECTOR * a
  }

  ghost predicate Layout(g: Geometry, bat: seq<nat>, len: nat) {
    && g.Valid()
    && |bat| == g.entries
    && len % SECTOR == 0
    && g.Slot(g.entries) + FOOTER_SIZE <= len
    && (forall n :: 0 <= n < |bat| && bat[n] != NO_BLOCK ==> Placed(g, bat[n], len))
    && (forall n, m :: 0 <= n < m < |bat| && bat[n] != NO_BLOCK && bat[m] != NO_BLOCK ==> Apart(g, bat[n], bat[m]))
       // the sector numbers of all blocks still to be added fit below the reserved value
    && len + Growth(bat, g.Extent()) <= SECTOR * NO_BLOCK
  }

  ghost predicate WellFormed(g: Geometry, f: seq<byte>): (ok: bool)
    ensures ok ==> g.Slot(g.entries) + FOOTER_SIZE <= |f|
    ensures ok ==> g.currentSize <= g.entries * g.blockSize
  {
    && g.Slot(g.entries) + FOOTER_SIZE <= |f|
    && Layout(g, Bat(g, f), |f|)
    && f[..HEADER_SIZE] == g.header
    && f[|f| - FOOTER_SIZE..] == g.footer
  }

  lemma BlockPlaced(g: Geometry, f: seq<byte>, n: nat)
    requires WellFormed(g, f) && n < g.entries && Bat(g, f)[n] != NO_BLOCK
    ensures Placed(g, Bat(g, f)[n], |f|)
  {
  }

  // ---------- the flat disk ----------

  /** Byte `j` of the data of block `n`. */
  function Cell(g: Geometry, f: seq<byte>, n: nat, j: nat): byte
    requires g.Slot(g.entries) <= |f| && n < g.entries
  {
    var e := Bat(g, f)[n];
    if e == NO_BLOCK || |f| <= SECTOR * e + SECTOR + j then 0 else f[SECTOR * e + SECTOR + j]
  }

  /** offset >> block_shift */
  function BlockOf(g: Geometry, i: nat): nat {
    i / g.blockSize
  }

  /** offset & (block_size - 1) */
  function Within(g: Geometry, i: nat): (at: nat)
    ensures at < g.blockSize
  {
    i % g.blockSize
  }

  function ByteAt(g: Geometry, f: seq<byte>, i: nat): byte
    requires g.Slot(g.entries) <= |f| && i < g.currentSize <= g.entries * g.blockSize
  {
    BlockOfByte(g, i);
    Cell(g, f, BlockOf(g, i), Within(g, i))
  }

  /** The disk of `currentSize` bytes that the file stands for; blocks without a place read as zero. */
  function Logical(g: Geometry, f: seq<byte>): (disk: seq<byte>)
    requires g.Slot(g.entries) <= |f| && g.currentSize <= g.entries * g.blockSize
    ensures |disk| == g.currentSize
    ensures forall i :: 0 <= i < |disk| ==> disk[i] == ByteAt(g, f, i)
  {
    seq(g.currentSize, i requires 0 <= i < g.currentSize => ByteAt(g, f, i))
  }

  // ---------- arithmetic of blocks ----------

  lemma BlockOfByte(g: Geometry, i: nat)
    requires i < g.currentSize <= g.entries * g.blockSize
    ensures BlockOf(g, i) < g.entries
  {
    var b := g.blockSize;
    var n := i / b;
    assert i == b * n + i % b;
    if g.entries <= n {
      MulMono(g.entries, n, b);
    }
  }

  /** The bytes of a piece that stays in one block are the bytes of that block at the same distance. */
  lemma PieceIndex(g: Geometry, off: nat, len: nat, i: nat)
    requires Within(g, off) + len <= g.blockSize
    ensures off <= i < off + len <==>
            BlockOf(g, i) == BlockOf(g, off) && Within(g, off) <= Within(g, i) < Within(g, off) + len
    ensures off <= i < off + len ==> Within(g, i) - Within(g, off) == i - off
  {
    var b := g.blockSize;
    PieceIndexOf(b, off / b, off % b, i / b, i % b, len);
  }

  lemma PieceIndexOf(b: nat, n: nat, r: nat, m: nat, s: nat, len: nat)
    requires r + len <= b && r < b && s < b
    ensures n * b + r <= m * b + s < n * b + r + len <==> m == n && r <= s < r + len
  {
    MulStep(n, m, b);
    MulStep(m, n, b);
  }

  lemma Be32Same(s: seq<byte>, a: nat, t: seq<byte>, b: nat)
    requires a + 4 <= |s| && b + 4 <= |t| && s[a..a + 4] == t[b..b + 4]
    ensures Be32(s, a) == Be32(t, b)
  {
    var x, y := s[a..a + 4], t[b..b + 4];
    assert x[0] == y[0] && x[1] == y[1] && x[2] == y[2] && x[3] == y[3];
  }

  // ---------- adding a block ----------

  /** Room for BAT, footer and one more block. */
  ghost predicate Growable(g: Geometry, f: seq<byte>) {
    && g.Slot(g.entries) + FOOTER_SIZE <= |f| && |f| + g.Extent() <= SECTOR * NO_BLOCK
    && |g.footer| == FOOTER_SIZE
  }

  /** devio.c lines 898-921: the BAT entry, then zeros and the footer where the old footer was. */
  function Allocate(g: Geometry, f: seq<byte>, n: nat): (r: seq<byte>)
    requires Growable(g, f) && n < g.entries
    ensures |r| == |f| + g.Extent()
    ensures r[g.Slot(n)..g.Slot(n) + 4] == Be32Bytes(|f| / SECTOR - 1)
    ensures forall p :: 0 <= p < |f| - FOOTER_SIZE && !(g.Slot(n) <= p < g.Slot(n) + 4) ==> r[p] == f[p]
    ensures forall p :: |f| - FOOTER_SIZE <= p < |r| - FOOTER_SIZE ==> r[p] == 0
    ensures r[|r| - FOOTER_SIZE..] == g.footer
  {
    Patch(Patch(f, g.Slot(n), Be32Bytes(|f| / SECTOR - 1)), |f| - FOOTER_SIZE, Zeros(g.Extent()) + g.footer)
  }

  lemma {:induction false} GrowthUpdate(bat: seq<nat>, n: nat, e: nat, x: nat)
    requires n < |bat| && bat[n] == NO_BLOCK && e != NO_BLOCK
    ensures Growth(bat, x) == Growth(bat[n := e], x) + x
  {
    var k := |bat| - 1;
    if n == k {
      assert bat[n := e][..k] == bat[..k];
    } else {
      assert bat[n := e][..k] == bat[..k][n := e];
      GrowthUpdate(bat[..k], n, e, x);
    }
  }

  lemma Roomy(g: Geometry, bat: seq<nat>, len: nat, n: nat)
    requires g.Valid() && n < |bat| && bat[n] == NO_BLOCK
    requires SECTOR <= len && len % SECTOR == 0 && len + Growth(bat, g.Extent()) <= SECTOR * NO_BLOCK
    ensures len + g.Extent() <= SECTOR * NO_BLOCK
    ensures len + g.Extent() + Growth(bat[n := len / SECTOR - 1], g.Extent()) <= SECTOR * NO_BLOCK
    ensures (len + g.Extent()) % SECTOR == 0
  {
    hide Growth, Pow2;
    var x := g.Extent();
    GrowthUpdate(bat, n, 0, x);
    assert len + x <= SECTOR * NO_BLOCK;
    GrowthUpdate(bat, n, len / SECTOR - 1, x);
    BlockSizeFacts(g);
    AlignedSum(len, x);
  }

  lemma AlignedSum(a: nat, b: nat)
    requires a % SECTOR == 0 && b % SECTOR == 0
    ensures (a + b) % SECTOR == 0
  {
  }

  lemma LayoutGrows(g: Geometry, bat: seq<nat>, len: nat, n: nat)
    requires Layout(g, bat, len) && n < |bat| && bat[n] == NO_BLOCK
    ensures len + g.Extent() <= SECTOR * NO_BLOCK
    ensures Layout(g, bat[n := len / SECTOR - 1], len + g.Extent())
  {
    var e := len / SECTOR - 1;
    var grown := bat[n := e];
    var x := g.Extent();
    Roomy(g, bat, len, n);
    assert SECTOR * e == len - SECTOR;
    forall m | 0 <= m < |grown| && grown[m] != NO_BLOCK
      ensures Placed(g, grown[m], len + x)
    {
    }
    forall a, b | 0 <= a < b < |grown| && grown[a] != NO_BLOCK && grown[b] != NO_BLOCK
      ensures Apart(g, grown[a], grown[b])
    {
      assert a != n ==> Placed(g, bat[a], len);
      assert b != n ==> Placed(g, bat[b], len);
    }
  }

  lemma AllocateBat(g: Geometry, f: seq<byte>, n: nat)
    requires Growable(g, f) && n < g.entries
    ensures Bat(g, Allocate(g, f, n)) == Bat(g, f)[n := |f| / SECTOR - 1]
  {
    hide Allocate, Be32;
    var e := |f| / SECTOR - 1;
    var f2 := Allocate(g, f, n);
    forall m | 0 <= m < g.entries
      ensures Be32(f2, g.Slot(m)) == if m == n then e else Be32(f, g.Slot(m))
    {
      var at := g.Slot(m);
      if m == n {
        assert Be32Bytes(e)[0..4] == Be32Bytes(e);
        Be32Same(f2, at, Be32Bytes(e), 0);
      } else {
        assert f2[at..at + 4] == f[at..at + 4];
        Be32Same(f2, at, f, at);
      }
    }
  }

  lemma AllocateCell(g: Geometry, f: seq<byte>, n: nat, m: nat, j: nat)
    requires WellFormed(g, f) && Growable(g, f) && n < g.entries && Bat(g, f)[n] == NO_BLOCK
    requires m < g.entries && j < g.blockSize
    ensures Cell(g, Allocate(g, f, n), m, j) == Cell(g, f, m, j)
  {
    hide Allocate, Bat, Be32, WellFormed;
    AllocateBat(g, f, n);
    if m != n && Bat(g, f)[m] != NO_BLOCK {
      BlockPlaced(g, f, m);
    }
  }

  lemma AllocateDisk(g: Geometry, f: seq<byte>, n: nat)
    requires WellFormed(g, f) && Growable(g, f) && n < g.entries && Bat(g, f)[n] == NO_BLOCK
    ensures Logical(g, Allocate(g, f, n)) == Logical(g, f)
  {
    hide Allocate, WellFormed, BlockOf, Within, Cell;
    forall i | 0 <= i < g.currentSize
      ensures ByteAt(g, Allocate(g, f, n), i) == ByteAt(g, f, i)
    {
      BlockOfByte(g, i);
      AllocateCell(g, f, n, BlockOf(g, i), Within(g, i));
    }
  }

  lemma RoomToGrow(g: Geometry, f: seq<byte>, n: nat)
    requires WellFormed(g, f) && n < g.entries && Bat(g, f)[n] == NO_BLOCK
    ensures Growable(g, f)
  {
    hide Bat, Growth;
    LayoutGrows(g, Bat(g, f), |f|, n);
  }

  lemma AllocateHeader(g: Geometry, f: seq<byte>, n: nat)
    requires Growable(g, f) && n < g.entries && HEADER_SIZE <= g.tableOffset
    ensures Allocate(g, f, n)[..HEADER_SIZE] == f[..HEADER_SIZE]
  {
    hide Allocate;
  }

  lemma AllocateWellFormed(g: Geometry, f: seq<byte>, n: nat)
    requires WellFormed(g, f) && Growable(g, f) && n < g.entries && Bat(g, f)[n] == NO_BLOCK
    ensures WellFormed(g, Allocate(g, f, n))
  {
    hide Allocate, Bat, Layout, Growth;
    assert g.Valid() by { LayoutValid(g, Bat(g, f), |f|); }
    LayoutGrows(g, Bat(g, f), |f|, n);
    AllocateBat(g, f, n);
    AllocateHeader(g, f, n);
  }

  lemma LayoutValid(g: Geometry, bat: seq<nat>, len: nat)
    requires Layout(g, bat, len)
    ensures g.Valid()
  {
  }

  /** After `Allocate` the file is well formed again, block `n` has a place where the footer was, and the
      disk is unchanged. */
  lemma AllocateKeeps(g: Geometry, f: seq<byte>, n: nat)
    requires WellFormed(g, f) && n < g.entries && Bat(g, f)[n] == NO_BLOCK
    ensures Growable(g, f)
    ensures WellFormed(g, Allocate(g, f, n))
    ensures Bat(g, Allocate(g, f, n)) == Bat(g, f)[n := |f| / SECTOR - 1]
    ensures Logical(g, Allocate(g, f, n)) == Logical(g, f)
  {
    hide WellFormed, Allocate, Bat, Logical;
    RoomToGrow(g, f, n);
    AllocateWellFormed(g, f, n);
    AllocateBat(g, f, n);
    AllocateDisk(g, f, n);
  }

  // ---------- storing into a block that has a place ----------

  /** Number of bitmap bytes that a write of `len` bytes sets, as computed at devio.c line 953. */
  function BitmapBytes(len: nat): nat {
    ((len + SECTOR - 1) / SECTOR + 7) / 8
  }

  /** First bitmap byte that a write at distance `at` sets. */
  function BitmapFrom(at: nat): nat {
    at / SECTOR / 8
  }

  function Ones(n: nat): (s: seq<byte>)
    ensures |s| == n && forall k :: 0 <= k < n ==> s[k] == 0xFF
  {
    seq(n, k => 0xFF)
  }

  lemma BitmapInSector(at: nat, len: nat)
    requires at + len <= 0x20_0000
    ensures BitmapFrom(at) == at / 4096 && BitmapBytes(len) == (len + 4095) / 4096
    ensures BitmapFrom(at) + BitmapBytes(len) <= SECTOR
  {
  }

  /** The marked bitmap bytes cover every sector that the write touches exactly when the write, moved to
      its distance within an eight-sector group, still fits the marked groups. */
  lemma BitmapCovers(at: nat, len: nat)
    requires len > 0
    ensures (forall s :: at / SECTOR <= s <= (at + len - 1) / SECTOR ==>
                           BitmapFrom(at) <= s / 8 < BitmapFrom(at) + BitmapBytes(len))
            <==> at % 4096 + len <= 4096 * BitmapBytes(len)
    ensures at % 4096 == 0 ==> at % 4096 + len <= 4096 * BitmapBytes(len)
  {
    var last := (at + len - 1) / SECTOR;
    assert at == 4096 * BitmapFrom(at) + at % 4096;
    assert last / 8 == (at + len - 1) / 4096;
  }

  /** Two sectors written from sector 7 on: the second one is not marked. */
  lemma BitmapMissesSector()
    ensures BitmapFrom(3584) + BitmapBytes(1024) <= (3584 + 1024 - 1) / SECTOR / 8
  {
  }

  /** devio.c lines 939-961: the data, then `marks` bytes of the bitmap. A complete write sets BitmapBytes(|d|)
      bytes; one that fails before the bitmap sets none. */
  function Store(g: Geometry, f: seq<byte>, n: nat, at: nat, d: seq<byte>, marks: nat): seq<byte>
    requires g.Slot(g.entries) <= |f| && n < g.entries
  {
    var start := SECTOR * Bat(g, f)[n];
    Patch(Patch(f, start + SECTOR + at, d), start + BitmapFrom(at), Ones(marks))
  }

  /** Byte `k` of the bitmap sector of block `n`; a block without a place has no bitmap. */
  function BitmapByte(g: Geometry, f: seq<byte>, n: nat, k: nat): byte
    requires g.Slot(g.entries) <= |f| && n < g.entries
  {
    var e := Bat(g, f)[n];
    if e == NO_BLOCK || |f| <= SECTOR * e + k then 0 else f[SECTOR * e + k]
  }

  /** What `Store` needs of its arguments. */
  ghost predicate Storable(g: Geometry, f: seq<byte>, n: nat, at: nat, d: seq<byte>, marks: nat) {
    && WellFormed(g, f) && n < g.entries && Bat(g, f)[n] != NO_BLOCK
    && d != [] && at + |d| <= g.blockSize && marks <= BitmapBytes(|d|)
  }

  /** `f2` differs from `f` only inside the extent of block `n`. */
  ghost predicate OnlyBlock(g: Geometry, f: seq<byte>, f2: seq<byte>, n: nat)
    requires g.Slot(g.entries) <= |f| && n < g.entries
  {
    && |f2| == |f|
    && forall p :: 0 <= p < |f| && f2[p] != f[p] ==>
                     SECTOR * Bat(g, f)[n] <= p < SECTOR * Bat(g, f)[n] + g.Extent()
  }

  lemma StoreFits(g: Geometry, f: seq<byte>, n: nat, at: nat, d: seq<byte>, marks: nat)
    requires Storable(g, f, n, at, d, marks)
    ensures BitmapFrom(at) + marks <= SECTOR
    ensures SECTOR * Bat(g, f)[n] + g.Extent() <= |f|
  {
    BlockPlaced(g, f, n);
    BlockSizeFacts(g);
    BitmapInSector(at, |d|);
  }

  lemma StoreOnlyBlock(g: Geometry, f: seq<byte>, n: nat, at: nat, d: seq<byte>, marks: nat)
    requires Storable(g, f, n, at, d, marks)
    ensures OnlyBlock(g, f, Store(g, f, n, at, d, marks), n)
  {
    hide WellFormed, Bat, Be32, BitmapFrom, BitmapBytes;
    StoreFits(g, f, n, at, d, marks);
    var start := SECTOR * Bat(g, f)[n];
    PatchFrame(f, start + SECTOR + at, d, start, start + g.Extent());
    PatchFrame(Patch(f, start + SECTOR + at, d), start + BitmapFrom(at), Ones(marks), start, start + g.Extent());
    hide Patch;
  }

  lemma OnlyBlockBat(g: Geometry, f: seq<byte>, f2: seq<byte>, n: nat)
    requires WellFormed(g, f) && n < g.entries && Bat(g, f)[n] != NO_BLOCK && OnlyBlock(g, f, f2, n)
    ensures Bat(g, f2) == Bat(g, f)
  {
    assert Placed(g, Bat(g, f)[n], |f|);
    forall m | 0 <= m < g.entries
      ensures Be32(f2, g.Slot(m)) == Be32(f, g.Slot(m))
    {
      assert f2[g.Slot(m)..g.Slot(m) + 4] == f[g.Slot(m)..g.Slot(m) + 4];
      Be32Same(f2, g.Slot(m), f, g.Slot(m));
    }
  }

  lemma OnlyBlockWellFormed(g: Geometry, f: seq<byte>, f2: seq<byte>, n: nat)
    requires WellFormed(g, f) && n < g.entries && Bat(g, f)[n] != NO_BLOCK && OnlyBlock(g, f, f2, n)
    ensures Bat(g, f2) == Bat(g, f) && WellFormed(g, f2)
  {
    assert Placed(g, Bat(g, f)[n], |f|);
    OnlyBlockBat(g, f, f2, n);
    assert f2[..HEADER_SIZE] == f[..HEADER_SIZE];
    assert f2[|f2| - FOOTER_SIZE..] == f[|f| - FOOTER_SIZE..];
  }

  /** Bytes of another block are out of the way. */
  lemma OnlyBlockOther(g: Geometry, f: seq<byte>, f2: seq<byte>, n: nat, m: nat, k: nat)
    requires WellFormed(g, f) && n < g.entries && Bat(g, f)[n] != NO_BLOCK && OnlyBlock(g, f, f2, n)
    requires m < g.entries && m != n && Bat(g, f)[m] != NO_BLOCK && k < g.Extent()
    ensures SECTOR * Bat(g, f)[m] + k < |f| && f2[SECTOR * Bat(g, f)[m] + k] == f[SECTOR * Bat(g, f)[m] + k]
  {
    assert Placed(g, Bat(g, f)[m], |f|);
    assert Apart(g, Bat(g, f)[m], Bat(g, f)[n]);
  }

  /** Data and bitmap bytes of the block that is written. */
  lemma StoreInside(g: Geometry, f: seq<byte>, n: nat, at: nat, d: seq<byte>, marks: nat, k: nat)
    requires Storable(g, f, n, at, d, marks) && k < g.Extent()
    ensures Bat(g, f)[n] != NO_BLOCK && SECTOR * Bat(g, f)[n] + k < |f| == |Store(g, f, n, at, d, marks)|
    ensures BitmapFrom(at) + marks <= SECTOR
    ensures Store(g, f, n, at, d, marks)[SECTOR * Bat(g, f)[n] + k] ==
            if SECTOR + at <= k < SECTOR + at + |d| then d[k - SECTOR - at]
            else if BitmapFrom(at) <= k < BitmapFrom(at) + marks then 0xFF
            else f[SECTOR * Bat(g, f)[n] + k]
  {
    hide WellFormed, Bat, BitmapFrom, BitmapBytes, Patch, Ones;
    StoreFits(g, f, n, at, d, marks);
    var start := SECTOR * Bat(g, f)[n];
    PatchAt(f, start + SECTOR + at, d, start + k);
    PatchAt(Patch(f, start + SECTOR + at, d), start + BitmapFrom(at), Ones(marks), start + k);
  }

  lemma OnlyBlockCell(g: Geometry, f: seq<byte>, f2: seq<byte>, n: nat, m: nat, j: nat)
    requires WellFormed(g, f) && n < g.entries && Bat(g, f)[n] != NO_BLOCK && OnlyBlock(g, f, f2, n)
    requires m < g.entries && m != n && j < g.blockSize && Bat(g, f2) == Bat(g, f)
    ensures Cell(g, f2, m, j) == Cell(g, f, m, j)
  {
    if Bat(g, f)[m] != NO_BLOCK {
      OnlyBlockOther(g, f, f2, n, m, SECTOR + j);
    }
  }

  lemma StoreCellInside(g: Geometry, f: seq<byte>, n: nat, at: nat, d: seq<byte>, marks: nat, j: nat)
    requires Storable(g, f, n, at, d, marks) && j < g.blockSize && |Store(g, f, n, at, d, marks)| == |f|
    requires Bat(g, Store(g, f, n, at, d, marks)) == Bat(g, f)
    ensures Cell(g, Store(g, f, n, at, d, marks), n, j) ==
            if at <= j < at + |d| then d[j - at] else Cell(g, f, n, j)
  {
    hide Store, Bat, Be32, WellFormed, BitmapFrom, BitmapBytes;
    StoreInside(g, f, n, at, d, marks, SECTOR + j);
  }

  lemma StoreCell(g: Geometry, f: seq<byte>, n: nat, at: nat, d: seq<byte>, marks: nat, m: nat, j: nat)
    requires Storable(g, f, n, at, d, marks) && m < g.entries && j < g.blockSize
    ensures |Store(g, f, n, at, d, marks)| == |f|
    ensures Cell(g, Store(g, f, n, at, d, marks), m, j) ==
            if m == n && at <= j < at + |d| then d[j - at] else Cell(g, f, m, j)
  {
    var f2 := Store(g, f, n, at, d, marks);
    StoreOnlyBlock(g, f, n, at, d, marks);
    OnlyBlockBat(g, f, f2, n);
    if m == n {
      StoreCellInside(g, f, n, at, d, marks, j);
    } else {
      OnlyBlockCell(g, f, f2, n, m, j);
    }
  }

  /** A store keeps the file well formed, keeps every block where it is, sets the marked bitmap bytes to
      FFh and leaves every other bitmap byte of every block as it was. */
  lemma StoreBitmap(g: Geometry, f: seq<byte>, n: nat, at: nat, d: seq<byte>, marks: nat, m: nat, k: nat)
    requires Storable(g, f, n, at, d, marks) && m < g.entries && Bat(g, f)[m] != NO_BLOCK && k < SECTOR
    ensures WellFormed(g, Store(g, f, n, at, d, marks)) && Bat(g, Store(g, f, n, at, d, marks)) == Bat(g, f)
    ensures BitmapByte(g, Store(g, f, n, at, d, marks), m, k) ==
            if m == n && BitmapFrom(at) <= k < BitmapFrom(at) + marks then 0xFF
            else BitmapByte(g, f, m, k)
  {
    hide Store, Bat, Be32, WellFormed, BitmapFrom, BitmapBytes;
    var f2 := Store(g, f, n, at, d, marks);
    StoreOnlyBlock(g, f, n, at, d, marks);
    OnlyBlockWellFormed(g, f, f2, n);
    if m == n {
      StoreInside(g, f, n, at, d, marks, k);
    } else {
      OnlyBlockOther(g, f, f2, n, m, k);
    }
  }
}
