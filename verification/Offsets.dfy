/** What the offset of the MBR does to the partitions of a disk that begins inside an image. */
module Offsets {
  import opened Bytes
  import opened Partitions
  import opened Wrappers

  /** The partitions of a disk, counted from `off` bytes before its beginning. */
  function Shifted(parts: seq<Info>, off: nat): (r: seq<Info>)
    ensures |r| == |parts| && forall k :: 0 <= k < |r| ==> r[k] == parts[k].(start := off + parts[k].start)
  {
    seq(|parts|, k requires 0 <= k < |parts| => parts[k].(start := off + parts[k].start))
  }

  lemma ShiftedSum(a: seq<Info>, b: seq<Info>, off: nat)
    ensures Shifted(a + b, off) == Shifted(a, off) + Shifted(b, off)
  {
  }

  lemma ReadMoved(img: seq<byte>, off: nat, at: nat, ss: nat)
    requires off <= |img|
    ensures ReadSector(img, off + at, ss) == ReadSector(img[off..], at, ss)
  {
  }

  lemma TablesMoved(img: seq<byte>, off: nat, at: nat, ss: nat)
    requires off <= |img|
    ensures MbrTable(img, off + at, ss) == MbrTable(img[off..], at, ss)
    ensures EbrTable(img, off + at, ss) == EbrTable(img[off..], at, ss)
  {
    hide IsTable, ReadSector;
    ReadMoved(img, off, at, ss);
  }

  function LinkMoved(link: Option<nat>, off: nat): Option<nat> {
    if link.Some? then Some(off + link.value) else None
  }

  lemma {:induction false} EbrMoved(t: seq<byte>, e: nat, first: nat, cur: nat, off: nat, ss: nat, number: nat)
    requires |t| == TABLE_SIZE && e <= 4
    ensures EbrParts(t, e, off + cur, ss, number) == Shifted(EbrParts(t, e, cur, ss, number), off)
    ensures EbrLink(t, e, off + first, ss) == LinkMoved(EbrLink(t, e, first, ss), off)
    decreases 4 - e
  {
    hide EntryAt, EbrParts, EbrLink;
    EbrEnd(t, first, cur, ss, number);
    EbrEnd(t, off + first, off + cur, ss, number);
    if e < 4 {
      EbrUnfold(t, e, first, cur, ss, number);
      EbrUnfold(t, e, off + first, off + cur, ss, number);
      var entry := EntryAt(t, e);
      if entry.kind == 0 {
        EbrMoved(t, e + 1, first, cur, off, ss, number);
      } else if !IsContainer(entry.kind) {
        EbrMoved(t, e + 1, first, cur, off, ss, number + 1);
        ShiftedSum([InfoOf(entry, cur, ss, number)], EbrParts(t, e + 1, cur, ss, number + 1), off);
      }
    }
  }

  /** Both chains end, and with the same partitions. */
  predicate SameChain(img: seq<byte>, disk: seq<byte>, off: nat, ss: nat, first: nat, cur: nat, n: nat, number: nat) {
    hide ChainEnds, ChainParts, Shifted;
    && ChainEnds(disk, ss, first, cur, n) && ChainEnds(img, ss, off + first, off + cur, n)
    && ChainParts(img, ss, off + first, off + cur, n, number) ==
       Shifted(ChainParts(disk, ss, first, cur, n, number), off)
  }

  lemma {:induction false} ChainMoved(img: seq<byte>, disk: seq<byte>, off: nat, ss: nat, first: nat, cur: nat, n: nat,
                                      number: nat)
    requires off <= |img| && disk == img[off..] && ChainEnds(disk, ss, first, cur, n)
    ensures SameChain(img, disk, off, ss, first, cur, n, number)
    decreases n
  {
    hide EbrTable, EbrParts, EbrLink, ChainParts, ChainEnds, Shifted, InfoOf, IsTable;
    TablesMoved(img, off, cur, ss);
    ChainUnfold(disk, ss, first, cur, n, number);
    ChainFold(img, ss, off + first, off + cur, n, number);
    var t := EbrTable(disk, cur, ss);
    if t == [] {
      ShiftedNothing(off);
    } else {
      EbrMoved(t, 0, first, cur, off, ss, number);
      var parts, link := EbrParts(t, 0, cur, ss, number), EbrLink(t, 0, first, ss);
      if link.Some? {
        ChainMoved(img, disk, off, ss, first, link.value, n - 1, number + |parts|);
        ShiftedSum(parts, ChainParts(disk, ss, first, link.value, n - 1, number + |parts|), off);
      }
    }
  }

  lemma ShiftedNothing(off: nat)
    ensures Shifted([], off) == []
  {
  }

  predicate IsPrimary(e: Entry) {
    e.kind != 0 && !IsContainer(e.kind)
  }

  /** None of the entries `i`.. is a primary partition. */
  predicate NoPrimary(t: seq<byte>, i: nat)
    requires |t| == TABLE_SIZE
  {
    hide EntryAt;
    forall m :: i <= m < 4 ==> !IsPrimary(EntryAt(t, m))
  }

  /** The same partitions at the same places, or at places that differ by `off`. */
  predicate AtMostMoved(a: seq<Info>, b: seq<Info>, off: nat) {
    |a| == |b| && forall k :: 0 <= k < |a| ==> a[k] == b[k] || a[k] == b[k].(start := off + b[k].start)
  }

  /** What the offset does to the partitions of entry `i`. */
  predicate SlotMoves(img: seq<byte>, disk: seq<byte>, t: seq<byte>, i: nat, off: nat, ss: nat, n: nat, number: nat) {
    hide EntryAt, Finite, SlotParts, Shifted, AtMostMoved, IsPrimary;
    && |t| == TABLE_SIZE && i < 4 && Finite(disk, t, i, 0, ss, n) && Finite(img, t, i, off, ss, n)
    && var there, here := SlotParts(img, t, i, off, ss, n, number), SlotParts(disk, t, i, 0, ss, n, number);
       AtMostMoved(there, here, off) && (there == Shifted(here, off) <==> off == 0 || !IsPrimary(EntryAt(t, i)))
  }

  lemma SlotMoved(img: seq<byte>, disk: seq<byte>, t: seq<byte>, i: nat, off: nat, ss: nat, n: nat, number: nat)
    requires off <= |img| && disk == img[off..] && |t| == TABLE_SIZE && i < 4
    requires Finite(disk, t, i, 0, ss, n) && Finite(img, t, i, off, ss, n)
    ensures SlotMoves(img, disk, t, i, off, ss, n, number)
  {
    hide EntryAt, ChainEnds, ChainParts, Shifted, AtMostMoved, IsTable, EbrTable, EbrLink, EbrParts;
    var entry := EntryAt(t, i);
    if IsContainer(entry.kind) {
      ChainMoved(img, disk, off, ss, Span(ss, entry.start), Span(ss, entry.start), n, number);
      ShiftedMoved(SlotParts(disk, t, i, 0, ss, n, number), off);
    } else if IsPrimary(entry) {
      UnmovedOne(InfoOf(entry, 0, ss, number), off);
    } else {
      ShiftedNothing(off);
      ShiftedMoved([], off);
    }
  }

  lemma ShiftedMoved(parts: seq<Info>, off: nat)
    ensures AtMostMoved(Shifted(parts, off), parts, off)
  {
  }

  lemma UnmovedOne(p: Info, off: nat)
    ensures AtMostMoved([p], [p], off) && ([p] == Shifted([p], off) <==> off == 0)
  {
    assert Shifted([p], off)[0].start == off + p.start;
  }

  lemma {:induction false} FiniteMoved(img: seq<byte>, disk: seq<byte>, t: seq<byte>, i: nat, off: nat, ss: nat, n: nat)
    requires off <= |img| && disk == img[off..] && |t| == TABLE_SIZE && i <= 4 && Finite(disk, t, i, 0, ss, n)
    ensures Finite(img, t, i, off, ss, n)
    decreases 4 - i
  {
    hide EntryAt, ChainEnds;
    if i < 4 {
      var entry := EntryAt(t, i);
      if IsContainer(entry.kind) {
        ChainMoved(img, disk, off, ss, Span(ss, entry.start), Span(ss, entry.start), n, 1);
      }
      FiniteMoved(img, disk, t, i + 1, off, ss, n);
    }
  }

  lemma {:induction false} MbrMoved(img: seq<byte>, disk: seq<byte>, t: seq<byte>, i: nat, off: nat, ss: nat, n: nat,
                                    number: nat)
    requires off <= |img| && disk == img[off..] && |t| == TABLE_SIZE && i <= 4
    requires Finite(disk, t, i, 0, ss, n) && Finite(img, t, i, off, ss, n)
    ensures var there, here := MbrParts(img, t, i, off, ss, n, number), MbrParts(disk, t, i, 0, ss, n, number);
            AtMostMoved(there, here, off) && (there == Shifted(here, off) <==> off == 0 || NoPrimary(t, i))
    decreases 4 - i
  {
    hide EntryAt, ChainEnds, MbrParts, Finite, SlotParts, IsPrimary, Shifted;
    MbrUnfold(img, t, i, off, ss, n, number);
    MbrUnfold(disk, t, i, 0, ss, n, number);
    if i == 4 {
      ShiftedNothing(off);
    } else {
      SlotMoved(img, disk, t, i, off, ss, n, number);
      var a, b := SlotParts(img, t, i, off, ss, n, number), SlotParts(disk, t, i, 0, ss, n, number);
      MbrMoved(img, disk, t, i + 1, off, ss, n, number + |a|);
      var c := MbrParts(img, t, i + 1, off, ss, n, number + |a|);
      var d := MbrParts(disk, t, i + 1, 0, ss, n, number + |a|);
      ShiftedSum(b, d, off);
      SumsEqual(a, Shifted(b, off), c, Shifted(d, off));
      assert NoPrimary(t, i) <==> !IsPrimary(EntryAt(t, i)) && NoPrimary(t, i + 1);
    }
  }

  lemma SumsEqual<T>(a: seq<T>, b: seq<T>, c: seq<T>, d: seq<T>)
    requires |a| == |b|
    ensures a + c == b + d <==> a == b && c == d
  {
    assert (a + c)[..|a|] == a && (b + d)[..|a|] == b && (a + c)[|a|..] == c && (b + d)[|a|..] == d;
  }

  /** The walk at `off` finds the partitions of the disk that begins there, in order. It places them where
      they lie in the image exactly when `off` is 0 or none of them is primary: the start of a primary
      partition does not include the offset of the MBR, that of a logical one does. */
  lemma OffsetCounted(img: seq<byte>, off: nat, ss: nat, n: nat)
    requires off <= |img| && Walkable(img[off..], 0, ss, n)
    ensures MbrTable(img, off, ss) == MbrTable(img[off..], 0, ss) && Walkable(img, off, ss, n)
    ensures var there, here := ListPartitions(img, off, ss, n), ListPartitions(img[off..], 0, ss, n);
            && AtMostMoved(there, here, off)
            && (there == Shifted(here, off) <==>
                off == 0 || MbrTable(img, off, ss) == [] || NoPrimary(MbrTable(img, off, ss), 0))
  {
    hide MbrTable, Finite, MbrParts, NoPrimary;
    TablesMoved(img, off, 0, ss);
    var t := MbrTable(img, off, ss);
    if t != [] {
      FiniteMoved(img, img[off..], t, 0, off, ss, n);
      MbrMoved(img, img[off..], t, 0, off, ss, n, 1);
    }
  }

  /** An empty sector and, behind it, a disk of one sector with a primary partition in its sector 1. */
  function OnePrimary(): (img: seq<byte>)
    ensures |img| == 1024
  {
    Zeros(958) + SmallTable(0x07, 1, 1, 0, 0)
  }

  lemma OnePrimaryMbr() returns (mbr: seq<byte>)
    ensures mbr == MbrTable(OnePrimary(), 512, 512) && |mbr| == TABLE_SIZE
    ensures EntryAt(mbr, 0) == Entry(false, 0, 0x07, 1, 1)
    ensures EntryAt(mbr, 1).kind == 0 && EntryAt(mbr, 2).kind == 0 && EntryAt(mbr, 3).kind == 0
  {
    hide EntryAt, IsTable, SmallTable;
    mbr := SmallTable(0x07, 1, 1, 0, 0);
    SmallTableMeans(0x07, 1, 1, 0, 0);
    assert OnePrimary()[512..1024][446..512] == OnePrimary()[958..1024] == mbr;
  }

  /** The partition in sector 1 of the disk at byte 512 is reported at byte 512, which is where its own
      table lies, and not at byte 1024. */
  lemma OffsetNotCounted()
    ensures Walkable(OnePrimary(), 512, 512, 0)
    ensures ListPartitions(OnePrimary(), 512, 512, 0) == [Info(512, 512, 1, 1, 0x07, false)]
  {
    hide EntryAt, MbrTable, OnePrimary;
    var img := OnePrimary();
    var mbr := OnePrimaryMbr();
    assert Finite(img, mbr, 3, 512, 512, 0) && Finite(img, mbr, 2, 512, 512, 0) && Finite(img, mbr, 1, 512, 512, 0);
    assert MbrParts(img, mbr, 3, 512, 512, 0, 2) == MbrParts(img, mbr, 2, 512, 512, 0, 2) ==
           MbrParts(img, mbr, 1, 512, 512, 0, 2) == [];
  }
}
