/** The dynamic VHD format in plain numbers: what the parts of the layout are in the bytes of the file. */
module Format {
  import opened Bytes
  import opened Vhd
  import opened VhdWrite

  /** The number at `p`, most significant byte first. */
  function BigEndianAt(f: seq<byte>, p: nat): nat
    requires p + 4 <= |f|
  {
    var a: int, b: int, c: int, d: int := f[p], f[p + 1], f[p + 2], f[p + 3];
    0x100_0000 * a + 0x1_0000 * b + 0x100 * c + d
  }

  const UNUSED: seq<byte> := [0xFF, 0xFF, 0xFF, 0xFF]

  lemma EntryBytes(f: seq<byte>, p: nat)
    requires p + 4 <= |f|
    ensures Be32(f, p) == BigEndianAt(f, p)
    ensures Be32(f, p) == NO_BLOCK <==> f[p..p + 4] == UNUSED
  {
    var s := f[p..p + 4];
    assert s == UNUSED <==> s[0] == s[1] == s[2] == s[3] == 0xFF;
  }

  /** Which headers are taken: blocks of 512 bytes to 2 MiB, a BAT behind the two headers with an entry for
      every block of the disk. */
  lemma ValidExactly(g: Geometry)
    ensures g.Valid() <==>
            && 9 <= g.blockShift <= 21
            && g.blockSize == [0x200, 0x400, 0x800, 0x1000, 0x2000, 0x4000, 0x8000, 0x1_0000, 0x2_0000, 0x4_0000,
                               0x8_0000, 0x10_0000, 0x20_0000][g.blockShift - 9]
            && |g.header| == 1536 && |g.footer| == 512 && 1536 <= g.tableOffset
            && g.currentSize <= g.entries * g.blockSize
  {
    Pow2Values();
    assert Pow2(10) == 2 * Pow2(9) && Pow2(11) == 2 * Pow2(10) && Pow2(12) == 2 * Pow2(11);
    assert Pow2(13) == 2 * Pow2(12) && Pow2(14) == 2 * Pow2(13) && Pow2(15) == 2 * Pow2(14);
    assert Pow2(16) == 2 * Pow2(15) && Pow2(17) == 2 * Pow2(16) && Pow2(18) == 2 * Pow2(17);
    assert Pow2(19) == 2 * Pow2(18) && Pow2(20) == 2 * Pow2(19);
  }

  /** A byte of the disk that is `r` bytes into a block whose BAT entry is at `p`. */
  predicate InFile(f: seq<byte>, p: nat, r: nat, b: byte) {
    && p + 4 <= |f|
    && if f[p..p + 4] == UNUSED then b == 0
       else
         var at := 512 * BigEndianAt(f, p) + 512 + r;
         at < |f| && f[at] == b
  }

  /** Where a byte of the disk is in the file: behind the bitmap sector of the block that the BAT entry names in
      sectors of 512 bytes; a block without a place is zero. */
  lemma DiskByteInFile(g: Geometry, f: seq<byte>, i: nat, n: nat, r: nat)
    requires WellFormed(g, f) && i < g.currentSize
    requires i == n * g.blockSize + r && r < g.blockSize
    ensures InFile(f, g.tableOffset + 4 * n, r, Logical(g, f)[i])
  {
    hide WellFormed, Be32, BigEndianAt;
    DivModOf(n, g.blockSize, r);
    BlockOfByte(g, i);
    EntryBytes(f, g.Slot(n));
    if Bat(g, f)[n] != NO_BLOCK {
      BlockPlaced(g, f, n);
    }
  }

  /** `d` is stored `at` bytes into the block at `start`, and its bitmap bytes are set. */
  predicate StoredIn(f: seq<byte>, f2: seq<byte>, start: nat, at: nat, d: seq<byte>) {
    && |f2| == |f|
    && forall q :: 0 <= q < |f| ==>
         f2[q] == if start + 512 + at <= q < start + 512 + at + |d| then d[q - start - 512 - at]
                  else if start + at / 4096 <= q < start + at / 4096 + (|d| + 4095) / 4096 then 0xFF
                  else f[q]
  }

  lemma StoredBytes(g: Geometry, f: seq<byte>, n: nat, at: nat, d: seq<byte>)
    requires Storable(g, f, n, at, d, BitmapBytes(|d|))
    ensures StoredIn(f, Store(g, f, n, at, d, BitmapBytes(|d|)), 512 * Be32(f, g.Slot(n)), at, d)
  {
    hide WellFormed, Be32, Patch, Storable, Ones, StoredIn;
    StorableParts(g, f, n, at, d);
    StoreFits(g, f, n, at, d, BitmapBytes(|d|));
    StoredPatches(f, 512 * Be32(f, g.Slot(n)), at, d);
  }

  lemma StoredPatches(f: seq<byte>, start: nat, at: nat, d: seq<byte>)
    requires start + 512 + at + |d| <= |f| && BitmapFrom(at) + BitmapBytes(|d|) <= 512
    ensures StoredIn(f, Patch(Patch(f, start + 512 + at, d), start + BitmapFrom(at), Ones(BitmapBytes(|d|))), start,
                     at, d)
  {
    hide Patch, Ones;
    var mid, ones := Patch(f, start + 512 + at, d), Ones(BitmapBytes(|d|));
    assert BitmapFrom(at) == at / 4096 && |ones| == (|d| + 4095) / 4096;
    PatchAt(f, start + 512 + at, d, 0);
    PatchAt(mid, start + BitmapFrom(at), ones, 0);
    var f2 := Patch(mid, start + BitmapFrom(at), ones);
    forall q | 0 <= q < |f|
      ensures f2[q] == if start + BitmapFrom(at) <= q < start + BitmapFrom(at) + |ones| then 0xFF
                       else if start + 512 + at <= q < start + 512 + at + |d| then d[q - start - 512 - at] else f[q]
    {
      PatchAt(f, start + 512 + at, d, q);
      PatchAt(mid, start + BitmapFrom(at), ones, q);
    }
  }

  lemma StorableParts(g: Geometry, f: seq<byte>, n: nat, at: nat, d: seq<byte>)
    requires Storable(g, f, n, at, d, BitmapBytes(|d|))
    ensures n < g.entries && g.Slot(g.entries) <= |f| && Bat(g, f)[n] == Be32(f, g.Slot(n)) != NO_BLOCK
    ensures at + |d| <= g.blockSize && d != []
  {
    hide Be32;
  }

  /** A piece for a block that has a place changes its own bytes and the bitmap bytes, and no others. */
  lemma OldBlockBytes(g: Geometry, f: seq<byte>, d: seq<byte>, n: nat, at: nat)
    requires WellFormed(g, f) && n < g.entries && d != [] && at + |d| <= g.blockSize
    requires f[g.tableOffset + 4 * n..g.tableOffset + 4 * n + 4] != UNUSED
    ensures StoredIn(f, PutPiece(g, f, n, at, d), 512 * BigEndianAt(f, g.tableOffset + 4 * n), at, d)
  {
    hide WellFormed, Be32, BigEndianAt, StoredIn, Store;
    EntryBytes(f, g.Slot(n));
    StoredBytes(g, f, n, at, d);
  }

  /** `f2` is `f` with a block in place of the footer, and the footer behind it. The entry at `p` holds the sector
      of the old footer, most significant byte first; the block is its bitmap sector and the data between zeros. */
  predicate Appended(f: seq<byte>, f2: seq<byte>, p: nat, blockSize: nat, at: nat, d: seq<byte>) {
    && 512 <= |f| && p + 4 <= |f2| && |f2| == |f| + 512 + blockSize
    && 512 * BigEndianAt(f2, p) == |f| - 512 && f2[|f2| - 512..] == f[|f| - 512..]
    && (forall q :: 0 <= q < |f| - 512 && !(p <= q < p + 4) ==> f2[q] == f[q])
    && forall q :: |f| - 512 <= q < |f2| - 512 ==>
         f2[q] == if |f| + at <= q < |f| + at + |d| then d[q - |f| - at]
                  else if |f| - 512 + at / 4096 <= q < |f| - 512 + at / 4096 + (|d| + 4095) / 4096 then 0xFF
                  else 0
  }

  /** A piece for an absent block appends the block. */
  lemma NewBlockBytes(g: Geometry, f: seq<byte>, d: seq<byte>, n: nat, at: nat)
    requires WellFormed(g, f) && n < g.entries && d != [] && at + |d| <= g.blockSize
    requires f[g.tableOffset + 4 * n..g.tableOffset + 4 * n + 4] == UNUSED
    ensures Appended(f, PutPiece(g, f, n, at, d), g.tableOffset + 4 * n, g.blockSize, at, d)
  {
    hide WellFormed, Be32, BigEndianAt, Allocate, Store, Appended, StoredIn, Logical, Widened;
    EntryBytes(f, g.Slot(n));
    AllocateKeeps(g, f, n);
    var placed := Allocate(g, f, n);
    var f2 := Store(g, placed, n, at, d, BitmapBytes(|d|));
    StoredBytes(g, placed, n, at, d);
    EntryBytes(placed, g.Slot(n));
    AllocateWidens(g, f, n);
    FooterLast(g, f);
    BitmapInSector(at, |d|);
    StoredInWidened(f, placed, f2, g.Slot(n), g.blockSize, at, d);
  }

  /** `f2` is `f` with zeros in place of the footer, the footer behind them, and anything at `p`. */
  predicate Widened(f: seq<byte>, f2: seq<byte>, p: nat, blockSize: nat) {
    && 512 <= |f| && |f2| == |f| + 512 + blockSize && f2[|f2| - 512..] == f[|f| - 512..]
    && (forall q :: 0 <= q < |f| - 512 && !(p <= q < p + 4) ==> f2[q] == f[q])
    && forall q :: |f| - 512 <= q < |f2| - 512 ==> f2[q] == 0
  }

  lemma AllocateWidens(g: Geometry, f: seq<byte>, n: nat)
    requires WellFormed(g, f) && Growable(g, f) && n < g.entries
    ensures g.Slot(n) + 4 <= |f| - 512
    ensures Widened(f, Allocate(g, f, n), g.Slot(n), g.blockSize)
  {
    hide WellFormed, Allocate, Be32;
    FooterLast(g, f);
  }

  lemma StoredInWidened(f: seq<byte>, placed: seq<byte>, f2: seq<byte>, p: nat, blockSize: nat, at: nat,
                        d: seq<byte>)
    requires Widened(f, placed, p, blockSize) && p + 4 <= |f| - 512 && 512 * BigEndianAt(placed, p) == |f| - 512
    requires StoredIn(placed, f2, |f| - 512, at, d)
    requires at + |d| <= blockSize && at / 4096 + (|d| + 4095) / 4096 <= 512
    ensures Appended(f, f2, p, blockSize, at, d)
  {
    assert BigEndianAt(f2, p) == BigEndianAt(placed, p);
    hide BigEndianAt;
    assert f2[|f2| - 512..] == placed[|f2| - 512..];
  }

  lemma FooterLast(g: Geometry, f: seq<byte>)
    requires WellFormed(g, f)
    ensures |f| % 512 == 0 && f[|f| - 512..] == g.footer && g.blockSize <= 0x20_0000
  {
    BlockSizeFacts(g);
  }
}
