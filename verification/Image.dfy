/** The opened image of devio.c: the file, physical I/O on it, and vhd_read/vhd_write over it. */
module Image {
  import opened Bytes
  import opened Vhd
  import opened VhdWrite

  class Image {
    var file: seq<byte>
    const vhdMode: bool
    const g: Geometry
    /** Physical I/O on this image never fails. */
    const reliable: bool

    constructor (file: seq<byte>, vhdMode: bool, g: Geometry, reliable: bool)
      ensures this.file == file && this.vhdMode == vhdMode && this.g == g && this.reliable == reliable
    {
      this.file, this.vhdMode, this.g, this.reliable := file, vhdMode, g, reliable;
    }

    /** The file is laid out as it should be. */
    ghost predicate Valid()
      reads this`file
    {
      vhdMode ==> WellFormed(g, file)
    }

    /** The file holds a BAT, so that it stands for some disk. */
    ghost predicate Readable()
      reads this`file
    {
      vhdMode ==>
        g.Slot(g.entries) <= |file| && g.currentSize <= g.entries * g.blockSize && g.currentSize < TWO63
    }

    /** A new block could not be written after its BAT entry. */
    ghost predicate Torn()
      reads this`file
    {
      vhdMode && Readable() && exists base, n :: TornAt(g, base, file, n)
    }

    /** The flat disk that the image stands for: in VHD mode the expanded disk, otherwise the file itself. */
    ghost function Disk(): seq<byte>
      requires Readable()
      reads this`file
    {
      if vhdMode then Logical(g, file) else file
    }

    /** A request on the disk of a well-formed file. */
    ghost predicate Sound(size: nat, offset: int)
      reads this`file
    {
      Valid() && OnDisk(g, size, offset)
    }

    lemma ValidReadable()
      requires Valid()
      ensures Readable()
    {
      hide WellFormed;
      if vhdMode {
        SizesFit(g, file);
      }
    }

    /** pread: bytes up to the end of the file; a failed call returns -1. A negative offset always fails, and
        one whose span off_t_64 cannot hold may fail. */
    method PhysicalRead(buf: array<byte>, at: nat, size: nat, offset: int) returns (done: int)
      requires at + size <= buf.Length
      modifies buf
      ensures || (done == -1 && (!reliable || offset < 0 || offset + size >= TWO63))
              || (0 <= offset && done == Max(0, Min(size, |file| - offset)))
      ensures done > 0 ==> SameSpan(buf[..], at, done, file, offset)
      ensures SameOutside(old(buf[..]), buf[..], at, Max(0, done))
    {
      if offset < 0 {
        return -1;
      }
      if !reliable || offset + size >= TWO63 {
        if * {
          return -1;
        }
      }
      done := Max(0, Min(size, |file| - offset));
      forall k | 0 <= k < done {
        buf[at + k] := file[offset + k];
      }
    }

    /** pwrite: all bytes are written, or the call fails and the file is as before. */
    method PhysicalWrite(data: seq<byte>, offset: int) returns (done: int)
      modifies this`file
      ensures || (done == |data| && 0 <= offset && file == Patch(old(file), offset, data))
              || (done == -1 && (!reliable || offset < 0 || offset + |data| >= TWO63) && file == old(file))
    {
      if offset < 0 {
        return -1;
      }
      if !reliable || offset + |data| >= TWO63 {
        if * {
          return -1;
        }
      }
      file := Patch(file, offset, data);
      done := |data|;
    }

    /** The BAT entry at a place in the file as a host integer; -1 when it cannot be read. */
    method ReadEntry(slot: int) returns (entry: int)
      ensures -1 <= entry < TWO32
      ensures entry == -1 ==> !reliable || slot < 0 || |file| < slot + 4 || slot + 4 >= TWO63
      ensures entry != -1 ==> 0 <= slot && slot + 4 <= |file| && entry == Be32(file, slot)
    {
      hide Be32;
      var raw := new byte[4];
      var done := PhysicalRead(raw, 0, 4, slot);
      if done != 4 {
        return -1;
      }
      assert raw[0..4] == raw[..];
      Be32Same(raw[..], 0, file, slot);
      entry := Be32(raw[..], 0);
    }

    /** The part of a read that stays in one block; the buffer there is zero on entry. */
    method ReadBlock(buf: array<byte>, at: nat, size: nat, offset: int, entry: nat) returns (done: int)
      requires vhdMode && at + size <= buf.Length && InBlock(g, offset) + size <= g.blockSize
      requires EntryRead(g, file, offset, entry)
      requires buf[at..at + size] == Zeros(size)
      modifies buf
      ensures SameOutside(old(buf[..]), buf[..], at, size) && -1 <= done <= size
      ensures Readable() && OnDisk(g, size, offset) && done != -1 ==> SameSpan(buf[..], at, size, Disk(), offset)
      ensures Sound(size, offset) ==> done == size || (done == -1 && !reliable)
    {
      hide WellFormed, BlockOf, Within, InBlock, Be32, Logical, Bat, SameOutside, SameSpan, EntryRead;
      ghost var was := buf[..];
      assert was[at..at + size] == buf[at..at + size];
      SameItself(was, at, size);
      if entry == NO_BLOCK {
        done := size;
      } else {
        done := ReadTwice(buf, at, size, SECTOR * entry + SECTOR + InBlock(g, offset));
        OutsideWider(was, buf[..], at, if done == -1 then size else done, size);
      }
      if Readable() && OnDisk(g, size, offset) && done != -1 {
        BlockRead(g, file, was, buf[..], at, size, offset, entry, done);
      }
      if Sound(size, offset) && entry != NO_BLOCK {
        BlockWhole(g, file, size, offset, entry);
      }
    }

    /** As in the code, the second read decides. */
    method ReadTwice(buf: array<byte>, at: nat, size: nat, offset: nat) returns (done: int)
      requires at + size <= buf.Length
      modifies buf
      ensures (done == -1 && (!reliable || offset + size >= TWO63)) || done == Max(0, Min(size, |file| - offset))
      ensures done > 0 ==> SameSpan(buf[..], at, done, file, offset)
      ensures SameOutside(old(buf[..]), buf[..], at, if done == -1 then size else done)
    {
      hide SameOutside, SameSpan;
      done := PhysicalRead(buf, at, size, offset);
      ghost var once, first := buf[..], Max(0, done);
      ghost var wide := Max(0, Min(size, |file| - offset));
      OutsideWider(old(buf[..]), once, at, first, wide);
      done := PhysicalRead(buf, at, size, offset);
      OutsideWider(once, buf[..], at, Max(0, done), wide);
      OutsideJoin(old(buf[..]), once, buf[..], at, 0, wide);
      OutsideWider(old(buf[..]), buf[..], at, wide, if done == -1 then size else done);
    }

    /** The part of a read in the first block; the rest of the buffer span is zeroed. */
    method ReadFirst(buf: array<byte>, at: nat, size: nat, firstSize: nat, offset: int) returns (done: int)
      requires vhdMode && at + size <= buf.Length && firstSize <= size
      requires InBlock(g, offset) + firstSize <= g.blockSize
      modifies buf
      ensures SameOutside(old(buf[..]), buf[..], at, size) && -1 <= done <= firstSize
      ensures Readable() && OnDisk(g, size, offset) && done != -1 ==>
                SameSpan(buf[..], at, firstSize, Disk(), offset)
      ensures Sound(size, offset) ==> done == firstSize || (done == -1 && !reliable)
    {
      hide WellFormed, BlockOf, Within, InBlock, Be32, Logical;
      if Sound(size, offset) {
        SlotInFile(g, file, offset);
      }
      var entry := ReadEntry(SlotOf(g, offset));
      if entry == -1 {
        return -1;
      }
      forall k | 0 <= k < size {
        buf[at + k] := 0;
      }
      done := ReadBlock(buf, at, firstSize, offset, entry);
    }

    /** vhd_read: `buf[at..at + size]` receives the span of the disk, for any file that holds a BAT. On every
        other file, and for a span that is not on the disk, the call still ends, inside the buffer. */
    method VhdRead(buf: array<byte>, at: nat, size: nat, offset: int) returns (done: int)
      requires vhdMode && at + size <= buf.Length
      modifies buf
      ensures SameOutside(old(buf[..]), buf[..], at, size) && -1 <= done <= size
      ensures !Passes(g, size, offset) ==> done == 0 && buf[..] == old(buf[..])
      ensures Readable() && OnDisk(g, size, offset) && done != -1 ==> SameSpan(buf[..], at, size, Disk(), offset)
      ensures Sound(size, offset) ==> done == size || (done == -1 && !reliable)
      decreases size, 1
    {
      hide WellFormed, Logical, Within, InBlock, SameOutside, SameSpan;
      SameItself(buf[..], at, size);
      if (offset + size) % TWO64 > g.currentSize {
        return 0;
      }
      var inBlock := InBlock(g, offset);
      var firstSize := size;
      if firstSize + inBlock > g.blockSize {
        firstSize := g.blockSize - inBlock;
      }
      done := ReadFirst(buf, at, size, firstSize, offset);
      if done != -1 && firstSize < size {
        ghost var first := buf[..];
        done := ReadSecond(buf, at, size, firstSize, offset, done);
        OutsideJoin(old(buf[..]), first, buf[..], at, 0, size);
      }
    }

    /** The part of a read behind its first block, of which `firstDone` bytes have been read. */
    method ReadSecond(buf: array<byte>, at: nat, size: nat, firstSize: nat, offset: int, firstDone: nat)
      returns (done: int)
      requires vhdMode && at + size <= buf.Length && 0 < firstSize < size && firstDone <= firstSize
      requires Readable() && OnDisk(g, size, offset) ==> SameSpan(buf[..], at, firstSize, Disk(), offset)
      requires Sound(size, offset) ==> firstDone == firstSize
      modifies buf
      ensures SameOutside(old(buf[..]), buf[..], at, size) && -1 <= done <= size
      ensures Readable() && OnDisk(g, size, offset) && done != -1 ==> SameSpan(buf[..], at, size, Disk(), offset)
      ensures Sound(size, offset) ==> done == size || (done == -1 && !reliable)
      decreases size, 0
    {
      hide WellFormed, Logical, SameOutside, SameSpan;
      ghost var was := buf[..];
      SameItself(was, at, size);
      done := VhdRead(buf, at + firstSize, size - firstSize, offset + firstSize);
      OutsideJoin(was, was, buf[..], at, firstSize, size);
      if done == -1 {
        return -1;
      }
      if Readable() && OnDisk(g, size, offset) {
        SpanJoin(was, buf[..], at, firstSize, size, Disk(), offset);
      }
      done := firstDone + done;
    }

    /** devio.c lines 882-936: a block without a place is added where the footer is. */
    method AddBlock(slot: int, ghost n: nat) returns (entry: int)
      requires vhdMode
      modifies this`file
      ensures -1 <= entry < TWO32
      ensures old(Absent(n, slot)) && entry != -1 ==> file == Placing(g, old(file), n) && entry == Bat(g, file)[n]
      ensures old(Absent(n, slot)) && entry == -1 ==>
                !reliable && (file == old(file) || TornAt(g, old(file), file, n))
    {
      hide WellFormed, Be32, Bat, Placing, TornAt, Patch;
      if Absent(n, slot) {
        AddedBlock(g, file, n);
      }
      var blockOffsetBytes := |file| - FOOTER_SIZE;
      if blockOffsetBytes < 0 {
        return -1;
      }
      entry := blockOffsetBytes / SECTOR % TWO32;
      var done := PhysicalWrite(Be32Bytes(entry), slot);
      if done != 4 {
        return -1;
      }
      var newBlock := Zeros(SECTOR + g.blockSize) + g.footer;
      done := PhysicalWrite(newBlock, blockOffsetBytes);
      if done != |newBlock| {
        return -1;
      }
    }

    /** Block `n`, whose BAT entry is at `slot`, has no place. */
    ghost predicate Absent(n: nat, slot: int)
      requires vhdMode
      reads this`file
    {
      Valid() && n < g.entries && slot == g.Slot(n) && Bat(g, file)[n] == NO_BLOCK
    }

    /** devio.c lines 939-969: data and bitmap of a piece, for a block at sector `entry`. */
    method StorePiece(data: seq<byte>, entry: nat, inBlock: nat) returns (done: int)
      modifies this`file
      ensures done == |data| || (done == -1 && (!reliable || SECTOR * entry + SECTOR + inBlock + |data| >= TWO63
                                                || SECTOR * entry + BitmapFrom(inBlock) + BitmapBytes(|data|) >= TWO63))
      ensures data == [] ==> file == old(file)
      ensures done == |data| ==> file == StoredAt(old(file), entry, inBlock, data)
      ensures done == -1 ==> file == old(file) || file == Patch(old(file), SECTOR * entry + SECTOR + inBlock, data)
    {
      hide Patch;
      done := PhysicalWrite(data, SECTOR * entry + SECTOR + inBlock);
      if done == -1 {
        return -1;
      }
      var bitmapOffset := SECTOR * entry + inBlock / SECTOR / 8;
      var bitmapDataSize := ((|data| + SECTOR - 1) / SECTOR + 7) / 8;
      PatchNothing(old(file), SECTOR * entry + SECTOR + inBlock);
      PatchNothing(file, bitmapOffset);
      assert Ones(0) == [];
      var marked := PhysicalWrite(Ones(bitmapDataSize), bitmapOffset);
      if marked != bitmapDataSize {
        return -1;
      }
    }

    /** devio.c lines 825-936: the sector of the block of a piece, which is added when the piece needs it. `skip` is
        the outcome that the code meant for all-zero pieces. */
    method LocateBlock(size: nat, offset: int) returns (entry: int, skip: bool)
      requires vhdMode
      modifies this`file
      ensures -1 <= entry < TWO32
      ensures size == 0 ==> file == old(file)
      ensures skip ==> size == 0 && entry != -1
      ensures entry != -1 && !HasEntry(g, old(file), SlotOf(g, offset), NO_BLOCK) ==>
                file == old(file) && HasEntry(g, file, SlotOf(g, offset), entry)
      ensures old(Sound(size, offset)) && entry == -1 ==>
                !reliable && (file == old(file) || TornAt(g, old(file), file, BlockOf(g, offset)))
      ensures old(Sound(size, offset)) && entry != -1 && size > 0 ==>
                BlockOf(g, offset) < g.entries && file == Placing(g, old(file), BlockOf(g, offset))
                && entry == Bat(g, file)[BlockOf(g, offset)]
    {
      hide WellFormed, BlockOf, Be32, TornAt, Logical, Bat;
      if Sound(size, offset) {
        SlotInFile(g, file, offset);
        if size > 0 {
          BlockOfByte(g, offset);
        }
      }
      entry := ReadEntry(SlotOf(g, offset));
      skip := false;
      if entry == NO_BLOCK {
        // The scan for a nonzero word gives up on its first word when there is one, so the branch that
        // adds no block is taken for an empty request only.
        var sizeWords := (size + 7) / 8;
        if sizeWords == 0 {
          skip := true;
        } else {
          entry := AddBlock(SlotOf(g, offset), if offset < 0 then 0 else BlockOf(g, offset));
        }
      }
    }

    /** The part of a write that stays in one block. */
    method WriteBlock(piece: seq<byte>, offset: int) returns (done: int, ghost kept: nat, ghost base: seq<byte>)
      requires vhdMode && InBlock(g, offset) + |piece| <= g.blockSize
      modifies this`file
      ensures done == |piece| || done == -1
      ensures done != -1 && piece != [] && !HasEntry(g, old(file), SlotOf(g, offset), NO_BLOCK) ==>
                exists entry :: HasEntry(g, old(file), SlotOf(g, offset), entry) &&
                                file == StoredAt(old(file), entry, InBlock(g, offset), piece)
      ensures done != -1 && piece == [] ==> file == old(file)
      ensures old(Sound(|piece|, offset)) && done != -1 && piece != [] ==>
                file == WritePiece(g, old(file), piece, offset)
      ensures old(Sound(|piece|, offset)) && done == -1 ==>
                !reliable && Interrupted(g, old(file), file, piece, offset, kept, base)
    {
      hide WellFormed, BlockOf, Within, InBlock, TornAt, Logical, Splice, Bat, Placing, PutPiece, BitmapBytes,
           BitmapFrom, Be32, StoredAt;
      kept, base := 0, file;
      if Sound(|piece|, offset) {
        NothingWritten(Logical(g, file), offset, piece);
      }
      var entry, skip := LocateBlock(|piece|, offset);
      if entry == -1 {
        return -1, kept, base;
      }
      if skip {
        return |piece|, kept, base;
      }
      ghost var placed := file;
      done := StorePiece(piece, entry, InBlock(g, offset));
      if old(Sound(|piece|, offset)) {
        PlaceFits(g, base, entry, InBlock(g, offset), |piece|);
      }
      if old(Sound(|piece|, offset)) && piece != [] {
        StoredParts(g, base, placed, file, piece, offset, entry, done);
        if done == -1 {
          kept, base := if file == placed then 0 else |piece|, file;
        }
      }
    }

    /** vhd_write of `buf[at..at + size]`. On the disk a complete request makes exactly the change of
        `WriteSpan`. One that fails has put the first `kept` bytes on the disk and left a well-formed file,
        unless it was the new block itself that could not be written after its BAT entry. A request that the
        range check lets through without being on the disk stores its first piece wherever the four bytes that
        it takes for a BAT entry say. */
    method VhdWrite(buf: array<byte>, at: nat, size: nat, offset: int)
      returns (done: int, ghost kept: nat, ghost base: seq<byte>)
      requires vhdMode && at + size <= buf.Length
      modifies this`file
      ensures !Passes(g, size, offset) ==> done == 0 && file == old(file)
      ensures Passes(g, size, offset) ==> done == size || done == -1
      ensures old(Sound(size, offset)) && done == size ==>
                file == WriteSpan(g, old(file), buf[at..at + size], offset)
      ensures old(Sound(size, offset)) && done != -1 ==>
                Valid() && Logical(g, file) == FlatWrite(Logical(g, old(file)), Op(buf[at..at + size], offset))
      ensures old(Sound(size, offset)) && done == -1 ==>
                !reliable && Interrupted(g, old(file), file, buf[at..at + size], offset, kept, base)
      ensures Passes(g, size, offset) && 0 < size <= g.blockSize - InBlock(g, offset) && done == size
              && !HasEntry(g, old(file), SlotOf(g, offset), NO_BLOCK) ==>
                exists entry :: HasEntry(g, old(file), SlotOf(g, offset), entry) &&
                                file == StoredAt(old(file), entry, InBlock(g, offset), buf[at..at + size])
      decreases size
    {
      hide WellFormed, BlockOf, Within, InBlock, Logical, Splice, WritePiece, Interrupted, WriteSpan, FirstSize,
           StoredAt, HasEntry, SlotOf;
      kept, base := 0, file;
      if (offset + size) % TWO64 > g.currentSize {
        if OnDisk(g, size, offset) {
          OnDiskPasses(g, size, offset);
        }
        return 0, kept, base;
      }
      var inBlock := InBlock(g, offset);
      var firstSize, secondSize, secondOffset := size, 0, 0;
      if firstSize + inBlock > g.blockSize {
        firstSize := g.blockSize - inBlock;
        secondSize := size - firstSize;
        secondOffset := offset + firstSize;
      }
      ghost var data := buf[at..at + size];
      if Sound(size, offset) {
        SpanUnfold(g, file, data, offset);
        FirstSizeIs(g, size, offset, firstSize);
      }
      SplitData(buf, at, firstSize, size);
      done, kept, base := WriteBlock(buf[at..at + firstSize], offset);
      if done == -1 {
        if old(Sound(size, offset)) {
          InterruptedFirst(g, old(file), file, data, offset, firstSize, kept, base);
        }
        return;
      }
      if secondSize > 0 {
        ghost var between := file;
        var secondWrite;
        secondWrite, kept, base := VhdWrite(buf, at + firstSize, secondSize, secondOffset);
        if secondWrite == -1 {
          if old(Sound(size, offset)) {
            InterruptedLater(g, old(file), between, file, data, offset, firstSize, kept, base);
          }
          return -1, kept + firstSize, base;
        }
        done := done + secondWrite;
      }
    }
  }

  /** offset & (block_size - 1) of a signed offset */
  function InBlock(g: Geometry, offset: int): (at: nat)
    ensures at < g.blockSize
    ensures offset >= 0 ==> at == Within(g, offset)
  {
    offset % g.blockSize
  }

  /** The file holds a BAT entry at `slot`, and it is `entry`. */
  predicate HasEntry(g: Geometry, f: seq<byte>, slot: int, entry: nat) {
    hide Be32;
    0 <= slot && slot + 4 <= |f| && Be32(f, slot) == entry
  }

  /** `entry` is what the file has for the block of `offset`. */
  predicate EntryRead(g: Geometry, f: seq<byte>, offset: int, entry: nat) {
    HasEntry(g, f, SlotOf(g, offset), entry)
  }

  lemma SplitData(buf: array<byte>, at: nat, first: nat, size: nat)
    requires first <= size && at + size <= buf.Length
    ensures buf[at..at + size][..first] == buf[at..at + first]
    ensures buf[at..at + size][first..] == buf[at + first..at + size]
  {
  }

  lemma FirstSizeIs(g: Geometry, size: nat, offset: nat, first: nat)
    requires first == if size + Within(g, offset) > g.blockSize then g.blockSize - Within(g, offset) else size
    ensures first == FirstSize(g, size, offset)
  {
  }

  /** `b` is `a` but for the bytes of a span. */
  ghost predicate SameOutside(a: seq<byte>, b: seq<byte>, at: nat, size: nat) {
    at + size <= |a| == |b| && a[..at] == b[..at] && a[at + size..] == b[at + size..]
  }

  lemma SameItself(a: seq<byte>, at: nat, size: nat)
    requires at + size <= |a|
    ensures SameOutside(a, a, at, size)
  {
  }

  lemma OutsideWider(a: seq<byte>, b: seq<byte>, at: nat, n: nat, m: nat)
    requires SameOutside(a, b, at, n) && n <= m && at + m <= |a|
    ensures SameOutside(a, b, at, m)
  {
    assert a[at + m..] == a[at + n..][m - n..] && b[at + m..] == b[at + n..][m - n..];
  }

  /** A change in the first part of a span and one in the rest are a change in the span. */
  lemma OutsideJoin(a: seq<byte>, b: seq<byte>, c: seq<byte>, at: nat, first: nat, size: nat)
    requires first <= size && SameOutside(a, b, at, size) && SameOutside(b, c, at + first, size - first)
    ensures SameOutside(a, c, at, size) && c[at..at + first] == b[at..at + first]
  {
    assert c[..at] == c[..at + first][..at] && b[..at] == b[..at + first][..at];
    assert c[at..at + first] == c[..at + first][at..] && b[at..at + first] == b[..at + first][at..];
  }

  /** The span of the buffer holds the span of the disk. */
  ghost predicate SameSpan(a: seq<byte>, at: nat, size: nat, disk: seq<byte>, offset: nat) {
    at + size <= |a| && offset + size <= |disk| && a[at..at + size] == disk[offset..offset + size]
  }

  /** A span whose first part was read before and whose rest was read after. */
  lemma SpanJoin(a: seq<byte>, b: seq<byte>, at: nat, first: nat, size: nat, disk: seq<byte>, offset: nat)
    requires first <= size && SameSpan(a, at, first, disk, offset) && SameOutside(a, b, at + first, size - first)
    requires SameSpan(b, at + first, size - first, disk, offset + first)
    ensures SameSpan(b, at, size, disk, offset)
  {
    assert a[at..at + first] == a[..at + first][at..] && b[at..at + first] == b[..at + first][at..];
    assert b[at..at + size] == b[at..at + first] + b[at + first..at + size];
    assert disk[offset..offset + size] == disk[offset..offset + first] + disk[offset + first..offset + size];
  }

  /** The BAT entry of every offset up to the end of the disk lies before the end of the file. */
  lemma SlotInFile(g: Geometry, f: seq<byte>, offset: nat)
    requires WellFormed(g, f) && offset <= g.currentSize
    ensures SlotOf(g, offset) == g.Slot(BlockOf(g, offset)) && BlockOf(g, offset) <= g.entries
    ensures 0 <= SlotOf(g, offset) && SlotOf(g, offset) + 4 <= |f| && |f| < TWO63
  {
    hide WellFormed, BlockOf, SlotOf;
    SizesFit(g, f);
    SlotIs(g, offset);
    EntryInFile(g, offset);
  }

  lemma EntryInFile(g: Geometry, offset: nat)
    requires offset <= g.currentSize <= g.entries * g.blockSize
    ensures BlockOf(g, offset) <= g.entries
  {
    assert offset == g.blockSize * (offset / g.blockSize) + offset % g.blockSize;
    MulStep(g.entries, offset / g.blockSize, g.blockSize);
  }

  /** The bytes of a block have positions that off_t_64 can hold. */
  lemma PlaceFits(g: Geometry, f: seq<byte>, entry: nat, at: nat, len: nat)
    requires WellFormed(g, f) && entry < TWO32 && at + len <= g.blockSize
    ensures SECTOR * entry + SECTOR + at + len < TWO63
    ensures SECTOR * entry + BitmapFrom(at) + BitmapBytes(len) < TWO63
  {
    hide WellFormed;
    SizesFit(g, f);
  }

  /** `PieceParts` in terms of the two writes. */
  lemma StoredParts(g: Geometry, base: seq<byte>, placed: seq<byte>, f: seq<byte>, d: seq<byte>, off: nat,
                    entry: nat, done: int)
    requires WellFormed(g, base) && d != [] && InRange(g, |d|, off) && Within(g, off) + |d| <= g.blockSize
    requires BlockOf(g, off) < g.entries && placed == Placing(g, base, BlockOf(g, off))
    requires entry == Bat(g, placed)[BlockOf(g, off)]
    requires f in {placed, Patch(placed, SECTOR * entry + SECTOR + Within(g, off), d)} || done != -1
    requires done != -1 ==> f == StoredAt(placed, entry, Within(g, off), d)
    ensures WellFormed(g, f)
    ensures f == placed ==> Logical(g, f) == Logical(g, base)
    ensures f != placed ==> Logical(g, f) == Splice(Logical(g, base), off, d)
    ensures done != -1 ==> f == WritePiece(g, base, d, off) && Logical(g, f) == Splice(Logical(g, base), off, d)
  {
    hide WellFormed, BlockOf, Within, Bat, Logical, Splice, Patch, Placing, BitmapBytes, BitmapFrom, Ones, WritePiece;
    PieceParts(g, base, placed, f, d, off, entry, done);
  }

  /** The writes that add a block are at positions that off_t_64 can hold. */
  predicate AddedSizes(g: Geometry, f: seq<byte>, n: nat) {
    FOOTER_SIZE == |g.footer| <= |f| && g.Slot(n) + 4 < TWO63 && |f| + g.Extent() < TWO63
  }

  lemma AddedFits(g: Geometry, f: seq<byte>, n: nat)
    requires WellFormed(g, f) && n < g.entries
    ensures AddedSizes(g, f, n) && |f| / SECTOR - 1 < TWO32
  {
    hide Bat;
    SizesFit(g, f);
    FooterSize(g, Bat(g, f), |f|);
  }

  lemma FooterSize(g: Geometry, bat: seq<nat>, len: nat)
    requires Layout(g, bat, len)
    ensures |g.footer| == FOOTER_SIZE
  {
  }

  /** The two writes that add a block. */
  lemma AddedBlock(g: Geometry, f: seq<byte>, n: nat)
    requires WellFormed(g, f) && n < g.entries && Bat(g, f)[n] == NO_BLOCK
    ensures AddedSizes(g, f, n)
    ensures var entry := (|f| - FOOTER_SIZE) / SECTOR % TWO32;
            var torn := Patch(f, g.Slot(n), Be32Bytes(entry));
            && TornAt(g, f, torn, n)
            && Placing(g, f, n) == Patch(torn, |f| - FOOTER_SIZE, Zeros(SECTOR + g.blockSize) + g.footer)
            && Bat(g, Placing(g, f, n))[n] == entry
  {
    hide WellFormed, Be32, Bat, Patch, Be32Bytes, Logical, Placing, Allocate, Growable;
    AddedFits(g, f, n);
    assert (|f| - FOOTER_SIZE) / SECTOR == |f| / SECTOR - 1;
    RoomToGrow(g, f, n);
    PlacedBlock(g, f, n);
  }

  lemma PlacedBlock(g: Geometry, f: seq<byte>, n: nat)
    requires WellFormed(g, f) && n < g.entries && Bat(g, f)[n] == NO_BLOCK && |f| / SECTOR - 1 < TWO32
    requires FOOTER_SIZE <= |f|
    ensures Placing(g, f, n) == Patch(Patch(f, g.Slot(n), Be32Bytes(|f| / SECTOR - 1)), |f| - FOOTER_SIZE,
                                      Zeros(SECTOR + g.blockSize) + g.footer)
    ensures Bat(g, Placing(g, f, n))[n] == |f| / SECTOR - 1
  {
    hide WellFormed, Be32, Bat, Patch, Be32Bytes, Logical;
    AllocateKeeps(g, f, n);
  }

  /** What a block that was read leaves in the buffer: `was` before, zero there, and `now` after. Behind the
      end of the file the disk is zero, as the buffer is. */
  lemma BlockRead(g: Geometry, f: seq<byte>, was: seq<byte>, now: seq<byte>, at: nat, size: nat, offset: nat,
                  entry: nat, done: nat)
    requires g.Slot(g.entries) <= |f| && g.currentSize <= g.entries * g.blockSize
    requires InRange(g, size, offset) && Within(g, offset) + size <= g.blockSize
    requires at + size <= |was| == |now| && was[at..at + size] == Zeros(size)
    requires EntryRead(g, f, offset, entry)
    requires var place := SECTOR * entry + SECTOR + Within(g, offset);
             if entry == NO_BLOCK then now == was
             else
               && done == Max(0, Min(size, |f| - place)) && SameOutside(was, now, at, done)
               && (done > 0 ==> SameSpan(now, at, done, f, place))
    ensures SameSpan(now, at, size, Logical(g, f), offset)
  {
    hide BlockOf, Within, Be32, Logical, Bat;
    forall p | at <= p < at + size
      ensures now[p] == Logical(g, f)[p - at + offset]
    {
      CellOfPiece(g, f, size, offset, entry, p - at);
      assert was[at..at + size][p - at] == was[p];
      if entry != NO_BLOCK {
        ByteRead(was, now, at, done, f, SECTOR * entry + SECTOR + Within(g, offset), p);
      }
    }
    SpanByBytes(now, at, size, Logical(g, f), offset);
  }

  /** A byte of the buffer after `done` bytes were read. */
  lemma ByteRead(was: seq<byte>, now: seq<byte>, at: nat, done: nat, f: seq<byte>, place: nat, p: nat)
    requires SameOutside(was, now, at, done) && (done > 0 ==> SameSpan(now, at, done, f, place)) && at <= p < |now|
    ensures p < at + done ==> p - at + place < |f|
    ensures now[p] == if p < at + done then f[p - at + place] else was[p]
  {
    if p < at + done {
      assert now[at..at + done][p - at] == f[place..place + done][p - at];
    } else {
      assert now[at + done..][p - at - done] == was[at + done..][p - at - done];
    }
  }

  lemma SpanByBytes(a: seq<byte>, at: nat, size: nat, disk: seq<byte>, offset: nat)
    requires at + size <= |a| && offset + size <= |disk|
    requires forall p :: at <= p < at + size ==> a[p] == disk[p - at + offset]
    ensures SameSpan(a, at, size, disk, offset)
  {
    var x, y := a[at..at + size], disk[offset..offset + size];
    forall k | 0 <= k < size
      ensures x[k] == y[k]
    {
      assert a[at + k] == disk[at + k - at + offset];
    }
  }

  /** Byte `k` of a piece of the disk in terms of its BAT entry. */
  lemma CellOfPiece(g: Geometry, f: seq<byte>, size: nat, offset: nat, entry: nat, k: nat)
    requires g.Slot(g.entries) <= |f| && g.currentSize <= g.entries * g.blockSize
    requires InRange(g, size, offset) && Within(g, offset) + size <= g.blockSize && k < size
    requires EntryRead(g, f, offset, entry)
    ensures var p := SECTOR * entry + SECTOR + Within(g, offset) + k;
            Logical(g, f)[offset + k] == if entry == NO_BLOCK || |f| <= p then 0 else f[p]
  {
    hide Within, Be32;
    PieceIndex(g, offset, size, offset + k);
    BlockOfByte(g, offset + k);
    SlotIs(g, offset);
  }

  lemma SlotIs(g: Geometry, offset: nat)
    ensures SlotOf(g, offset) == g.Slot(BlockOf(g, offset))
  {
  }

  /** A block of a well-formed file is read whole. */
  lemma BlockWhole(g: Geometry, f: seq<byte>, size: nat, offset: nat, entry: nat)
    requires WellFormed(g, f) && InRange(g, size, offset) && Within(g, offset) + size <= g.blockSize
    requires EntryRead(g, f, offset, entry) && entry != NO_BLOCK
    ensures SECTOR * entry + SECTOR + Within(g, offset) + size < TWO63
    ensures size > 0 ==> SECTOR * entry + SECTOR + Within(g, offset) + size <= |f|
  {
    hide WellFormed, Within, Be32, BlockOf;
    SizesFit(g, f);
    if size > 0 {
      BlockOfByte(g, offset);
      SlotIs(g, offset);
      BlockPlaced(g, f, BlockOf(g, offset));
    }
  }
}
