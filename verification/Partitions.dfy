/** The MBR/EBR walker of cpl/drvio.c with its callback, and the two lookups built on it. */
module Partitions {
  import opened Bytes
  import opened Wrappers

  const TABLE_SIZE: int := 66

  /** A partition table entry: flags byte, type, and the two sector numbers. */
  datatype Entry = Entry(boot: bool, zero: nat, kind: byte, start: nat, sectors: nat)

  predicate IsContainer(kind: byte) {
    kind == 0x05 || kind == 0x0F
  }

  /** Entry `i` of a partition table of 66 bytes. */
  function EntryAt(table: seq<byte>, i: nat): Entry
    requires |table| == TABLE_SIZE && i < 4
  {
    var e := table[16 * i..16 * i + 16];
    Entry(e[0] >= 0x80, e[0] % 0x80, e[4], FromLe(e[8..12]), FromLe(e[12..16]))
  }

  /** An entry whose sector numbers are below 256. */
  lemma SmallEntry(t: seq<byte>, i: nat)
    requires |t| == TABLE_SIZE && i < 4
    requires forall p :: 16 * i + 9 <= p < 16 * i + 12 || 16 * i + 13 <= p < 16 * i + 16 ==> t[p] == 0
    ensures EntryAt(t, i) ==
            Entry(t[16 * i] >= 0x80, t[16 * i] % 0x80, t[16 * i + 4], t[16 * i + 8], t[16 * i + 12])
  {
    hide EntryAt;
    EntryFields(t, i);
  }

  /** Where the fields of an entry are: the boot indicator in the top bit of its first byte, the type at 4, the
      sector numbers at 8 and 12. */
  lemma EntryFields(t: seq<byte>, i: nat)
    requires |t| == TABLE_SIZE && i < 4
    ensures var p := 16 * i;
            EntryAt(t, i) == Entry(t[p] >= 0x80, t[p] % 0x80, t[p + 4], Le32(t, p + 8), Le32(t, p + 12))
  {
    hide FromLe;
    var e := t[16 * i..16 * i + 16];
    var p, a, b := 16 * i, e[8..12], e[12..16];
    FromLeFour(a);
    FromLeFour(b);
    assert a[0] == t[p + 8] && a[1] == t[p + 9] && a[2] == t[p + 10] && a[3] == t[p + 11];
    assert b[0] == t[p + 12] && b[1] == t[p + 13] && b[2] == t[p + 14] && b[3] == t[p + 15];
  }

  /** The signature is there and no flag but the boot indicator is set. */
  predicate IsTable(table: seq<byte>)
    requires |table| == TABLE_SIZE
  {
    && table[64] == 0x55 && table[65] == 0xAA
    && EntryAt(table, 0).zero == 0 && EntryAt(table, 1).zero == 0
    && EntryAt(table, 2).zero == 0 && EntryAt(table, 3).zero == 0
  }

  /** A table of at most two entries whose sector numbers are below 256. */
  function SmallTable(kind0: byte, start0: byte, sectors0: byte, kind1: byte, start1: byte): (t: seq<byte>)
    ensures |t| == TABLE_SIZE
  {
    seq(TABLE_SIZE, p requires 0 <= p =>
      if p == 4 then kind0
      else if p == 8 then start0
      else if p == 12 then sectors0
      else if p == 20 then kind1
      else if p == 24 then start1
      else if p == 64 then 0x55
      else if p == 65 then 0xAA
      else 0)
  }

  lemma SmallTableMeans(kind0: byte, start0: byte, sectors0: byte, kind1: byte, start1: byte)
    ensures var t := SmallTable(kind0, start0, sectors0, kind1, start1);
            && IsTable(t)
            && EntryAt(t, 0) == Entry(false, 0, kind0, start0, sectors0)
            && EntryAt(t, 1) == Entry(false, 0, kind1, start1, 0)
            && EntryAt(t, 2).kind == 0 && EntryAt(t, 3).kind == 0
  {
    hide EntryAt;
    var t := SmallTable(kind0, start0, sectors0, kind1, start1);
    SmallEntry(t, 0);
    SmallEntry(t, 1);
    SmallEntry(t, 2);
    SmallEntry(t, 3);
  }

  /** What the callback is told about a partition. */
  datatype Info = Info(start: nat, length: nat, hidden: nat, number: nat, kind: byte, boot: bool)

  /** Bytes in so many sectors of `ss` bytes. */
  function Span(ss: nat, sectors: nat): nat {
    ss * sectors
  }

  function InfoOf(e: Entry, base: nat, ss: nat, number: nat): Info {
    Info(base + Span(ss, e.start), Span(ss, e.sectors), e.start, number, e.kind, e.boot)
  }

  // ---------- reads ----------

  /** ReadFileProc: the bytes of the image from `off` on, fewer than asked for at its end. */
  function ReadSector(img: seq<byte>, off: nat, ss: nat): (r: seq<byte>)
    ensures |r| == Max(0, Min(ss, |img| - off))
    ensures forall k :: 0 <= k < |r| ==> r[k] == img[off + k]
  {
    if |img| <= off then [] else img[off..Min(off + ss, |img|)]
  }

  /** The table of the first sector lies at the end of its first 512 bytes. */
  function MbrTable(img: seq<byte>, off: nat, ss: nat): (t: seq<byte>)
    ensures t == [] || (|t| == TABLE_SIZE && IsTable(t))
  {
    var s := ReadSector(img, off, ss);
    if |s| != ss || ss < 512 || !IsTable(s[446..512]) then [] else s[446..512]
  }

  /** The table of an extended boot record lies at the end of the sector. */
  function EbrTable(img: seq<byte>, off: nat, ss: nat): (t: seq<byte>)
    ensures t == [] || (|t| == TABLE_SIZE && IsTable(t))
  {
    var s := ReadSector(img, off, ss);
    if |s| != ss || ss < 512 || !IsTable(s[ss - TABLE_SIZE..]) then [] else s[ss - TABLE_SIZE..]
  }

  /** The bytes from `p` on are a partition table: signature 55h AAh, and no flag but the boot indicator in
      any entry. */
  predicate TableBytes(img: seq<byte>, p: nat) {
    && p + 66 <= |img| && img[p + 64] == 0x55 && img[p + 65] == 0xAA
    && img[p] in {0x00, 0x80} && img[p + 16] in {0x00, 0x80}
    && img[p + 32] in {0x00, 0x80} && img[p + 48] in {0x00, 0x80}
  }

  lemma IsTableExactly(t: seq<byte>)
    requires |t| == TABLE_SIZE
    ensures IsTable(t) <==> TableBytes(t, 0)
  {
    hide Le32;
    EntryFields(t, 0);
    EntryFields(t, 1);
    EntryFields(t, 2);
    EntryFields(t, 3);
  }

  lemma Slice(img: seq<byte>, off: nat, ss: nat, lo: nat, hi: nat)
    requires lo <= hi <= ss && off + ss <= |img|
    ensures img[off..off + ss][lo..hi] == img[off + lo..off + hi]
  {
    var a, b := img[off..off + ss][lo..hi], img[off + lo..off + hi];
    assert forall k :: 0 <= k < |a| ==> a[k] == b[k];
  }

  /** Which sectors hold a partition table: the table of the first sector is at byte 446, that of an extended
      boot record at the end of the sector. */
  lemma TablesExactly(img: seq<byte>, off: nat, ss: nat)
    requires 512 <= ss
    ensures MbrTable(img, off, ss) != [] <==> off + ss <= |img| && TableBytes(img, off + 446)
    ensures MbrTable(img, off, ss) != [] ==> MbrTable(img, off, ss) == img[off + 446..off + 512]
    ensures EbrTable(img, off, ss) != [] <==> off + ss <= |img| && TableBytes(img, off + ss - 66)
    ensures EbrTable(img, off, ss) != [] ==> EbrTable(img, off, ss) == img[off + ss - 66..off + ss]
  {
    hide IsTable;
    if off + ss <= |img| {
      var s := img[off..off + ss];
      Slice(img, off, ss, 446, 512);
      Slice(img, off, ss, ss - 66, ss);
      assert s[ss - 66..] == s[ss - 66..ss];
      IsTableExactly(s[446..512]);
      IsTableExactly(s[ss - 66..]);
    }
  }

  // ---------- the partitions of an image ----------

  /** The partitions that entries `e`.. of an EBR at `cur` describe, up to the first link. Their starts count
      from this EBR. */
  function EbrParts(t: seq<byte>, e: nat, cur: nat, ss: nat, number: nat): seq<Info>
    requires |t| == TABLE_SIZE && e <= 4
    decreases 4 - e
  {
    if e == 4 || IsContainer(EntryAt(t, e).kind) then []
    else if EntryAt(t, e).kind == 0 then EbrParts(t, e + 1, cur, ss, number)
    else [InfoOf(EntryAt(t, e), cur, ss, number)] + EbrParts(t, e + 1, cur, ss, number + 1)
  }

  /** Where the first link among entries `e`.. leads; links count from the first EBR. */
  function EbrLink(t: seq<byte>, e: nat, first: nat, ss: nat): Option<nat>
    requires |t| == TABLE_SIZE && e <= 4
    decreases 4 - e
  {
    if e == 4 then None
    else if IsContainer(EntryAt(t, e).kind) then Some(first + Span(ss, EntryAt(t, e).start))
    else EbrLink(t, e + 1, first, ss)
  }

  /** The chain of EBRs from `cur` on ends within `n` links. */
  predicate ChainEnds(img: seq<byte>, ss: nat, first: nat, cur: nat, n: nat)
    decreases n
  {
    var t := EbrTable(img, cur, ss);
    t == [] || EbrLink(t, 0, first, ss).None?
    || (n > 0 && ChainEnds(img, ss, first, EbrLink(t, 0, first, ss).value, n - 1))
  }

  function ChainParts(img: seq<byte>, ss: nat, first: nat, cur: nat, n: nat, number: nat): seq<Info>
    requires ChainEnds(img, ss, first, cur, n)
    decreases n
  {
    hide EbrLink, EntryAt, IsTable;
    var t := EbrTable(img, cur, ss);
    if t == [] then []
    else
      var parts := EbrParts(t, 0, cur, ss, number);
      match EbrLink(t, 0, first, ss)
      case None => parts
      case Some(next) => parts + ChainParts(img, ss, first, next, n - 1, number + |parts|)
  }

  /** Every extended partition of entries `i`.. has a finite chain. */
  predicate Finite(img: seq<byte>, t: seq<byte>, i: nat, off: nat, ss: nat, n: nat)
    requires |t| == TABLE_SIZE && i <= 4
    decreases 4 - i
  {
    i < 4 ==>
      && (IsContainer(EntryAt(t, i).kind) ==>
            ChainEnds(img, ss, off + Span(ss, EntryAt(t, i).start), off + Span(ss, EntryAt(t, i).start), n))
      && Finite(img, t, i + 1, off, ss, n)
  }

  /** The partitions of entry `i` of the MBR: its chain if it is extended, else itself. As in the code, the
      start of a primary partition does not include the offset of the MBR. */
  function SlotParts(img: seq<byte>, t: seq<byte>, i: nat, off: nat, ss: nat, n: nat, number: nat): seq<Info>
    requires |t| == TABLE_SIZE && i < 4 && Finite(img, t, i, off, ss, n)
  {
    hide EntryAt, ChainEnds;
    var entry := EntryAt(t, i);
    if IsContainer(entry.kind) then
      ChainParts(img, ss, off + Span(ss, entry.start), off + Span(ss, entry.start), n, number)
    else if entry.kind != 0 then [InfoOf(entry, 0, ss, number)]
    else []
  }

  /** Entries `i`.. of the MBR. */
  function MbrParts(img: seq<byte>, t: seq<byte>, i: nat, off: nat, ss: nat, n: nat, number: nat): seq<Info>
    requires |t| == TABLE_SIZE && i <= 4 && Finite(img, t, i, off, ss, n)
    decreases 4 - i
  {
    if i == 4 then []
    else
      var parts := SlotParts(img, t, i, off, ss, n, number);
      parts + MbrParts(img, t, i + 1, off, ss, n, number + |parts|)
  }

  /** The image has an MBR at `off`, if any, whose extended partitions have chains of at most `n` links. */
  predicate Walkable(img: seq<byte>, off: nat, ss: nat, n: nat) {
    var t := MbrTable(img, off, ss);
    t != [] ==> Finite(img, t, 0, off, ss, n)
  }

  function ListPartitions(img: seq<byte>, off: nat, ss: nat, n: nat): seq<Info>
    requires Walkable(img, off, ss, n)
  {
    var t := MbrTable(img, off, ss);
    if t == [] then [] else MbrParts(img, t, 0, off, ss, n, 1)
  }

  /** The bound is only a measure: every bound that is large enough gives the same partitions. */
  lemma {:induction false} ChainBound(img: seq<byte>, ss: nat, first: nat, cur: nat, n: nat, m: nat, number: nat)
    requires ChainEnds(img, ss, first, cur, n) && n <= m
    ensures ChainEnds(img, ss, first, cur, m)
    ensures ChainParts(img, ss, first, cur, m, number) == ChainParts(img, ss, first, cur, n, number)
    decreases n
  {
    hide EbrTable, EbrParts, EbrLink, ChainParts, ChainEnds, InfoOf, IsTable;
    ChainUnfold(img, ss, first, cur, n, number);
    ChainFold(img, ss, first, cur, m, number);
    var t := EbrTable(img, cur, ss);
    if t != [] {
      var link := EbrLink(t, 0, first, ss);
      if link.Some? {
        ChainBound(img, ss, first, link.value, n - 1, m - 1, number + |EbrParts(t, 0, cur, ss, number)|);
      }
    }
  }

  lemma {:induction false} MbrBound(img: seq<byte>, t: seq<byte>, i: nat, off: nat, ss: nat, n: nat, m: nat,
                                    number: nat)
    requires |t| == TABLE_SIZE && i <= 4 && Finite(img, t, i, off, ss, n) && n <= m
    ensures Finite(img, t, i, off, ss, m)
    ensures MbrParts(img, t, i, off, ss, m, number) == MbrParts(img, t, i, off, ss, n, number)
    decreases 4 - i
  {
    hide EntryAt, ChainEnds, ChainParts, InfoOf, SlotParts;
    if i < 4 {
      MbrUnfold(img, t, i, off, ss, n, number);
      var e, size := EntryAt(t, i), |SlotParts(img, t, i, off, ss, n, number)|;
      MbrBound(img, t, i + 1, off, ss, n, m, number + size);
      if IsContainer(e.kind) {
        ChainBound(img, ss, off + Span(ss, e.start), off + Span(ss, e.start), n, m, number);
      }
      SlotBound(img, t, i, off, ss, n, m, number);
    }
  }

  lemma SlotBound(img: seq<byte>, t: seq<byte>, i: nat, off: nat, ss: nat, n: nat, m: nat, number: nat)
    requires |t| == TABLE_SIZE && i < 4 && Finite(img, t, i, off, ss, n) && Finite(img, t, i, off, ss, m) && n <= m
    ensures SlotParts(img, t, i, off, ss, m, number) == SlotParts(img, t, i, off, ss, n, number)
  {
    hide EntryAt, ChainEnds, ChainParts, InfoOf;
    var e := EntryAt(t, i);
    if IsContainer(e.kind) {
      ChainBound(img, ss, off + Span(ss, e.start), off + Span(ss, e.start), n, m, number);
    }
  }

  lemma PartitionsBound(img: seq<byte>, off: nat, ss: nat, n: nat, m: nat)
    requires Walkable(img, off, ss, n) && n <= m
    ensures Walkable(img, off, ss, m) && ListPartitions(img, off, ss, m) == ListPartitions(img, off, ss, n)
  {
    hide MbrTable, Finite, MbrParts;
    var t := MbrTable(img, off, ss);
    if t != [] {
      MbrBound(img, t, 0, off, ss, n, m, 1);
    }
  }

  // ---------- numbers ----------

  ghost predicate NumberedFrom(parts: seq<Info>, number: nat) {
    forall k :: 0 <= k < |parts| ==> parts[k].number == number + k
  }

  lemma {:induction false} EbrNumbers(t: seq<byte>, e: nat, cur: nat, ss: nat, number: nat)
    requires |t| == TABLE_SIZE && e <= 4
    ensures NumberedFrom(EbrParts(t, e, cur, ss, number), number)
    decreases 4 - e
  {
    hide EntryAt;
    if e < 4 {
      EbrNumbers(t, e + 1, cur, ss, number);
      EbrNumbers(t, e + 1, cur, ss, number + 1);
    }
  }

  lemma {:induction false} ChainNumbers(img: seq<byte>, ss: nat, first: nat, cur: nat, n: nat, number: nat)
    requires ChainEnds(img, ss, first, cur, n)
    ensures NumberedFrom(ChainParts(img, ss, first, cur, n, number), number)
    decreases n
  {
    hide EntryAt, EbrTable, EbrParts, EbrLink, IsTable;
    var t := EbrTable(img, cur, ss);
    if t != [] {
      EbrNumbers(t, 0, cur, ss, number);
      var link := EbrLink(t, 0, first, ss);
      if link.Some? {
        ChainNumbers(img, ss, first, link.value, n - 1, number + |EbrParts(t, 0, cur, ss, number)|);
      }
    }
  }

  lemma {:induction false} MbrNumbers(img: seq<byte>, t: seq<byte>, i: nat, off: nat, ss: nat, n: nat, number: nat)
    requires |t| == TABLE_SIZE && i <= 4 && Finite(img, t, i, off, ss, n)
    ensures NumberedFrom(MbrParts(img, t, i, off, ss, n, number), number)
    decreases 4 - i
  {
    hide EntryAt, ChainEnds, ChainParts, Span, MbrParts, Finite;
    MbrUnfold(img, t, i, off, ss, n, number);
    if i < 4 {
      var entry := EntryAt(t, i);
      if IsContainer(entry.kind) {
        ChainNumbers(img, ss, off + Span(ss, entry.start), off + Span(ss, entry.start), n, number);
      }
      MbrNumbers(img, t, i + 1, off, ss, n, number + |SlotParts(img, t, i, off, ss, n, number)|);
    }
  }

  /** Partitions are numbered 1, 2, 3, ... in the order they are delivered. */
  lemma PartitionNumbers(img: seq<byte>, off: nat, ss: nat, n: nat)
    requires Walkable(img, off, ss, n)
    ensures NumberedFrom(ListPartitions(img, off, ss, n), 1)
  {
    hide EntryAt, Finite, MbrParts;
    var t := MbrTable(img, off, ss);
    if t != [] {
      MbrNumbers(img, t, 0, off, ss, n, 1);
    }
  }

  // ---------- types ----------

  /** No partition that is delivered is of type 0 or extended. */
  ghost predicate OrdinaryTypes(parts: seq<Info>) {
    forall k :: 0 <= k < |parts| ==> parts[k].kind !in {0x00, 0x05, 0x0F}
  }

  lemma {:induction false} EbrTypes(t: seq<byte>, e: nat, cur: nat, ss: nat, number: nat)
    requires |t| == TABLE_SIZE && e <= 4
    ensures OrdinaryTypes(EbrParts(t, e, cur, ss, number))
    decreases 4 - e
  {
    hide EntryAt;
    if e < 4 {
      EbrTypes(t, e + 1, cur, ss, number);
      EbrTypes(t, e + 1, cur, ss, number + 1);
    }
  }

  lemma {:induction false} ChainTypes(img: seq<byte>, ss: nat, first: nat, cur: nat, n: nat, number: nat)
    requires ChainEnds(img, ss, first, cur, n)
    ensures OrdinaryTypes(ChainParts(img, ss, first, cur, n, number))
    decreases n
  {
    hide EbrTable, EbrParts, EbrLink, ChainParts, ChainEnds;
    ChainUnfold(img, ss, first, cur, n, number);
    var t := EbrTable(img, cur, ss);
    if t != [] {
      EbrTypes(t, 0, cur, ss, number);
      var link := EbrLink(t, 0, first, ss);
      if link.Some? {
        ChainTypes(img, ss, first, link.value, n - 1, number + |EbrParts(t, 0, cur, ss, number)|);
      }
    }
  }

  lemma {:induction false} MbrTypes(img: seq<byte>, t: seq<byte>, i: nat, off: nat, ss: nat, n: nat, number: nat)
    requires |t| == TABLE_SIZE && i <= 4 && Finite(img, t, i, off, ss, n)
    ensures OrdinaryTypes(MbrParts(img, t, i, off, ss, n, number))
    decreases 4 - i
  {
    hide EntryAt, ChainEnds, ChainParts, Span, MbrParts, Finite;
    MbrUnfold(img, t, i, off, ss, n, number);
    if i < 4 {
      var entry := EntryAt(t, i);
      if IsContainer(entry.kind) {
        ChainTypes(img, ss, off + Span(ss, entry.start), off + Span(ss, entry.start), n, number);
      }
      MbrTypes(img, t, i + 1, off, ss, n, number + |SlotParts(img, t, i, off, ss, n, number)|);
    }
  }

  /** These are the partitions of the chain that begins at `first`. */
  predicate IsChain(img: seq<byte>, first: nat, ss: nat, n: nat, number: nat, parts: seq<Info>) {
    hide ChainEnds, ChainParts;
    ChainEnds(img, ss, first, first, n) && parts == ChainParts(img, ss, first, first, n, number)
  }

  /** What an entry of the MBR contributes, by its type byte: nothing for 0, exactly its chain for 05h and 0Fh,
      and exactly itself for every other type. */
  predicate Contributes(img: seq<byte>, t: seq<byte>, i: nat, off: nat, ss: nat, n: nat, number: nat,
                        parts: seq<Info>) {
    hide IsChain, Le32;
    && |t| == TABLE_SIZE && i < 4
    && var kind, start, sectors := t[16 * i + 4], Le32(t, 16 * i + 8), Le32(t, 16 * i + 12);
       && (kind == 0x00 ==> parts == [])
       && (kind in {0x05, 0x0F} ==> IsChain(img, off + ss * start, ss, n, number, parts))
       && (kind !in {0x00, 0x05, 0x0F} ==>
             parts == [Info(ss * start, ss * sectors, start, number, kind, t[16 * i] >= 0x80)])
  }

  lemma EntryContributes(img: seq<byte>, t: seq<byte>, i: nat, off: nat, ss: nat, n: nat, number: nat)
    requires |t| == TABLE_SIZE && i < 4 && Finite(img, t, i, off, ss, n)
    ensures Contributes(img, t, i, off, ss, n, number, SlotParts(img, t, i, off, ss, n, number))
  {
    hide EntryAt, ChainEnds, ChainParts, Le32;
    EntryFields(t, i);
  }

  /** The list is what the four entries of the table at byte 446 contribute, in order and numbered from 1. */
  lemma FourEntries(img: seq<byte>, off: nat, ss: nat, n: nat) returns (a: seq<Info>, b: seq<Info>, c: seq<Info>,
                                                                        d: seq<Info>)
    requires Walkable(img, off, ss, n) && MbrTable(img, off, ss) != []
    ensures var t := MbrTable(img, off, ss);
            && ListPartitions(img, off, ss, n) == a + b + c + d
            && Contributes(img, t, 0, off, ss, n, 1, a)
            && Contributes(img, t, 1, off, ss, n, 1 + |a|, b)
            && Contributes(img, t, 2, off, ss, n, 1 + |a| + |b|, c)
            && Contributes(img, t, 3, off, ss, n, 1 + |a| + |b| + |c|, d)
  {
    hide EntryAt, ChainEnds, MbrTable, SlotParts, MbrParts, Finite, Contributes;
    var t := MbrTable(img, off, ss);
    MbrUnfold(img, t, 0, off, ss, n, 1);
    EntryContributes(img, t, 0, off, ss, n, 1);
    a := SlotParts(img, t, 0, off, ss, n, 1);
    MbrUnfold(img, t, 1, off, ss, n, 1 + |a|);
    EntryContributes(img, t, 1, off, ss, n, 1 + |a|);
    b := SlotParts(img, t, 1, off, ss, n, 1 + |a|);
    MbrUnfold(img, t, 2, off, ss, n, 1 + |a| + |b|);
    EntryContributes(img, t, 2, off, ss, n, 1 + |a| + |b|);
    c := SlotParts(img, t, 2, off, ss, n, 1 + |a| + |b|);
    MbrUnfold(img, t, 3, off, ss, n, 1 + |a| + |b| + |c|);
    EntryContributes(img, t, 3, off, ss, n, 1 + |a| + |b| + |c|);
    d := SlotParts(img, t, 3, off, ss, n, 1 + |a| + |b| + |c|);
    MbrUnfold(img, t, 4, off, ss, n, 1 + |a| + |b| + |c| + |d|);
  }

  /** Which entry of an EBR is its link: the first of type 05h or 0Fh, counted from the first EBR. The entries
      before it that are not of type 0 are its partitions, counted from this EBR. */
  predicate EbrReads(t: seq<byte>, e: nat, first: nat, cur: nat, ss: nat, number: nat) {
    hide EntryAt, Le32, EbrParts, EbrLink;
    && |t| == TABLE_SIZE && e < 4
    && var kind, start, sectors := t[16 * e + 4], Le32(t, 16 * e + 8), Le32(t, 16 * e + 12);
       var parts, link := EbrParts(t, e, cur, ss, number), EbrLink(t, e, first, ss);
       && (kind == 0x00 ==>
             parts == EbrParts(t, e + 1, cur, ss, number) && link == EbrLink(t, e + 1, first, ss))
       && (kind in {0x05, 0x0F} ==> parts == [] && link == Some(first + ss * start))
       && (kind !in {0x00, 0x05, 0x0F} ==>
             && parts == [Info(cur + ss * start, ss * sectors, start, number, kind, t[16 * e] >= 0x80)]
                         + EbrParts(t, e + 1, cur, ss, number + 1)
             && link == EbrLink(t, e + 1, first, ss))
  }

  lemma EbrEntry(t: seq<byte>, e: nat, first: nat, cur: nat, ss: nat, number: nat)
    requires |t| == TABLE_SIZE && e < 4
    ensures EbrReads(t, e, first, cur, ss, number)
  {
    hide EntryAt, Le32;
    EntryFields(t, e);
  }

  // ---------- the walk ----------

  /** A callback: new user data, and whether to go on. */
  type Callback<!S> = (S, Info) -> (S, bool)

  /** Hands partitions to the callback until it asks to stop. */
  function Deliver<S>(step: Callback<S>, s: S, parts: seq<Info>): (S, bool) {
    if parts == [] then (s, true)
    else
      var (s', go) := step(s, parts[0]);
      if go then Deliver(step, s', parts[1..]) else (s', false)
  }

  lemma {:induction false} DeliverMore<S>(step: Callback<S>, s: S, a: seq<Info>, b: seq<Info>)
    ensures Deliver(step, s, a + b) ==
            var (s', go) := Deliver(step, s, a); if go then Deliver(step, s', b) else (s', false)
  {
    if a == [] {
      assert a + b == b;
    } else {
      assert (a + b)[1..] == a[1..] + b;
      DeliverMore(step, step(s, a[0]).0, a[1..], b);
    }
  }

  /** One more partition after those in `done`. */
  lemma DeliverNext<S>(step: Callback<S>, s0: S, done: seq<Info>, s: S, info: Info, rest: seq<Info>)
    requires Deliver(step, s0, done) == (s, true)
    ensures Deliver(step, s0, done + [info]) == step(s, info)
    ensures !step(s, info).1 ==> Deliver(step, s0, done + ([info] + rest)) == step(s, info)
  {
    DeliverMore(step, s0, done, [info]);
    DeliverMore(step, s0, done, [info] + rest);
    assert Deliver(step, s, [info]) == step(s, info);
    assert ([info] + rest)[0] == info;
  }

  lemma DeliverNothing<S>(step: Callback<S>, s0: S)
    ensures Deliver(step, s0, []) == (s0, true)
  {
  }

  lemma EbrEnd(t: seq<byte>, first: nat, cur: nat, ss: nat, number: nat)
    requires |t| == TABLE_SIZE
    ensures EbrParts(t, 4, cur, ss, number) == [] && EbrLink(t, 4, first, ss) == None
  {
  }

  lemma EbrUnfold(t: seq<byte>, e: nat, first: nat, cur: nat, ss: nat, number: nat)
    requires |t| == TABLE_SIZE && e < 4
    ensures var entry := EntryAt(t, e);
            if IsContainer(entry.kind) then
              EbrParts(t, e, cur, ss, number) == [] && EbrLink(t, e, first, ss) == Some(first + Span(ss, entry.start))
            else
              && EbrLink(t, e, first, ss) == EbrLink(t, e + 1, first, ss)
              && EbrParts(t, e, cur, ss, number) ==
                 if entry.kind == 0 then EbrParts(t, e + 1, cur, ss, number)
                 else [InfoOf(entry, cur, ss, number)] + EbrParts(t, e + 1, cur, ss, number + 1)
  {
    hide EntryAt;
  }

  datatype WalkError = NoError | DiskCorrupt | Cancelled

  /** Entries of one EBR: delivers them in order and finds the link. */
  method WalkEbr<S>(t: seq<byte>, first: nat, cur: nat, ss: nat, step: Callback<S>, s0: S, count: nat)
    returns (go: bool, s: S, count': nat, next: Option<nat>)
    requires |t| == TABLE_SIZE
    ensures (s, go) == Deliver(step, s0, EbrParts(t, 0, cur, ss, count + 1))
    ensures go ==> count' == count + |EbrParts(t, 0, cur, ss, count + 1)| && next == EbrLink(t, 0, first, ss)
  {
    hide EntryAt, EbrParts, EbrLink, Deliver, InfoOf;
    s, count', next := s0, count, None;
    ghost var all, done := EbrParts(t, 0, cur, ss, count + 1), [];
    DeliverNothing(step, s0);
    var e: nat := 0;
    while e < 4
      invariant e <= 4 && count' == count + |done| && EbrLink(t, 0, first, ss) == EbrLink(t, e, first, ss)
      invariant all == done + EbrParts(t, e, cur, ss, count' + 1)
      invariant Deliver(step, s0, done) == (s, true)
    {
      EbrUnfold(t, e, first, cur, ss, count' + 1);
      var entry := EntryAt(t, e);
      e := e + 1;
      if entry.kind == 0 {
        continue;
      }
      if IsContainer(entry.kind) {
        next := Some(first + Span(ss, entry.start));
        assert done + [] == done;
        return true, s, count', next;
      }
      count' := count' + 1;
      var info := InfoOf(entry, cur, ss, count');
      ghost var rest := EbrParts(t, e, cur, ss, count' + 1);
      assert all == done + ([info] + rest) == (done + [info]) + rest;
      DeliverNext(step, s0, done, s, info, rest);
      done := done + [info];
      s, go := step(s, info).0, step(s, info).1;
      if !go {
        return;
      }
    }
    EbrEnd(t, first, cur, ss, count' + 1);
    assert done + [] == done;
    go := true;
  }

  lemma ChainUnfold(img: seq<byte>, ss: nat, first: nat, cur: nat, n: nat, number: nat)
    requires ChainEnds(img, ss, first, cur, n)
    ensures var t := EbrTable(img, cur, ss);
            if t == [] then ChainParts(img, ss, first, cur, n, number) == []
            else
              var parts, link := EbrParts(t, 0, cur, ss, number), EbrLink(t, 0, first, ss);
              if link.None? then ChainParts(img, ss, first, cur, n, number) == parts
              else n > 0 && ChainEnds(img, ss, first, link.value, n - 1) &&
                   ChainParts(img, ss, first, cur, n, number) ==
                   parts + ChainParts(img, ss, first, link.value, n - 1, number + |parts|)
  {
    hide EbrTable, EbrParts, EbrLink, IsTable;
  }

  lemma ChainFold(img: seq<byte>, ss: nat, first: nat, cur: nat, n: nat, number: nat)
    ensures var t := EbrTable(img, cur, ss);
            if t == [] then ChainEnds(img, ss, first, cur, n) && ChainParts(img, ss, first, cur, n, number) == []
            else
              var parts, link := EbrParts(t, 0, cur, ss, number), EbrLink(t, 0, first, ss);
              if link.None? then
                ChainEnds(img, ss, first, cur, n) && ChainParts(img, ss, first, cur, n, number) == parts
              else
                n > 0 && ChainEnds(img, ss, first, link.value, n - 1) ==>
                  ChainEnds(img, ss, first, cur, n) && ChainParts(img, ss, first, cur, n, number) ==
                  parts + ChainParts(img, ss, first, link.value, n - 1, number + |parts|)
  {
    hide EbrTable, EbrParts, EbrLink, IsTable;
  }

  /** The partitions of one more EBR after those in `done`. */
  lemma ChainDeliver<S>(step: Callback<S>, s0: S, done: seq<Info>, s: S,
                        img: seq<byte>, ss: nat, first: nat, cur: nat, n: nat, number: nat)
    requires ChainEnds(img, ss, first, cur, n) && Deliver(step, s0, done) == (s, true)
    ensures var t, all := EbrTable(img, cur, ss), done + ChainParts(img, ss, first, cur, n, number);
            if t == [] then all == done
            else
              var parts, link := EbrParts(t, 0, cur, ss, number), EbrLink(t, 0, first, ss);
              && Deliver(step, s0, done + parts) == Deliver(step, s, parts)
              && (!Deliver(step, s, parts).1 ==> Deliver(step, s0, all) == Deliver(step, s, parts))
              && (link.None? ==> all == done + parts)
              && (link.Some? ==>
                    n > 0 && ChainEnds(img, ss, first, link.value, n - 1) &&
                    all == done + parts + ChainParts(img, ss, first, link.value, n - 1, number + |parts|))
  {
    hide EbrTable, EbrParts, EbrLink, Deliver, ChainEnds, ChainParts, IsTable;
    ChainUnfold(img, ss, first, cur, n, number);
    var t := EbrTable(img, cur, ss);
    if t != [] {
      var parts, link := EbrParts(t, 0, cur, ss, number), EbrLink(t, 0, first, ss);
      var rest := if link.None? then [] else ChainParts(img, ss, first, link.value, n - 1, number + |parts|);
      assert done + (parts + rest) == done + parts + rest;
      DeliverMore(step, s0, done, parts);
      DeliverMore(step, s0, done + parts, rest);
    }
  }

  /** A chain of EBRs. */
  method WalkChain<S>(img: seq<byte>, first: nat, ss: nat, step: Callback<S>, s0: S, count: nat, ghost n: nat)
    returns (go: bool, s: S, count': nat)
    requires ChainEnds(img, ss, first, first, n)
    ensures var parts := ChainParts(img, ss, first, first, n, count + 1);
            (s, go) == Deliver(step, s0, parts) && (go ==> count' == count + |parts|)
  {
    hide EbrTable, EbrParts, EbrLink, Deliver, ChainEnds, ChainParts, IsTable, EntryAt, InfoOf;
    ghost var all, done, left := ChainParts(img, ss, first, first, n, count + 1), [], n;
    s, count' := s0, count;
    DeliverNothing(step, s0);
    var cur, readNext := first, true;
    while readNext
      invariant readNext ==> ChainEnds(img, ss, first, cur, left)
      invariant count' == count + |done| && Deliver(step, s0, done) == (s, true)
      invariant all == done + if readNext then ChainParts(img, ss, first, cur, left, count' + 1) else []
      decreases readNext, left
    {
      ChainDeliver(step, s0, done, s, img, ss, first, cur, left, count' + 1);
      readNext := false;
      var t := EbrTable(img, cur, ss);
      if t == [] {
        break;
      }
      ghost var parts := EbrParts(t, 0, cur, ss, count' + 1);
      var next;
      go, s, count', next := WalkEbr(t, first, cur, ss, step, s, count');
      done := done + parts;
      if !go {
        return;
      }
      if next.Some? {
        cur, readNext, left := next.value, true, left - 1;
      }
    }
    go := true;
    assert done + [] == done;
  }

  /** ImDiskGetPartitionInfoIndirectEx: delivers the partitions in order to the callback, which may cancel. */
  method Walk<S>(img: seq<byte>, sectorSize: nat, off: nat, step: Callback<S>, s0: S, ghost n: nat)
    returns (ok: bool, error: WalkError, s: S)
    requires sectorSize == 0 || 512 <= sectorSize
    requires Walkable(img, off, if sectorSize == 0 then 512 else sectorSize, n)
    ensures var ss := if sectorSize == 0 then 512 else sectorSize;
            if MbrTable(img, off, ss) == [] then !ok && error == DiskCorrupt && s == s0
            else (s, ok) == Deliver(step, s0, ListPartitions(img, off, ss, n))
                 && error == if ok then NoError else Cancelled
  {
    hide EntryAt, MbrTable, Deliver, ChainEnds, ChainParts, MbrParts, Finite, InfoOf;
    var ss := if sectorSize == 0 then 512 else sectorSize;
    s := s0;
    var t := MbrTable(img, off, ss);
    if t == [] {
      return false, DiskCorrupt, s;
    }
    ghost var all, done := MbrParts(img, t, 0, off, ss, n, 1), [];
    DeliverNothing(step, s0);
    var count, i: nat := 0, 0;
    while i < 4
      invariant i <= 4 && Finite(img, t, i, off, ss, n)
      invariant count == |done| && Deliver(step, s0, done) == (s, true)
      invariant all == done + MbrParts(img, t, i, off, ss, n, count + 1)
    {
      MbrUnfold(img, t, i, off, ss, n, count + 1);
      var entry := EntryAt(t, i);
      ghost var parts := SlotParts(img, t, i, off, ss, n, count + 1);
      ghost var rest := MbrParts(img, t, i + 1, off, ss, n, count + 1 + |parts|);
      assert all == done + (parts + rest) == (done + parts) + rest;
      DeliverMore(step, s0, done, parts);
      DeliverMore(step, s0, done + parts, rest);
      var go := true;
      if IsContainer(entry.kind) {
        go, s, count := WalkChain(img, off + Span(ss, entry.start), ss, step, s, count, n);
      } else if entry.kind != 0 {
        count := count + 1;
        var info := InfoOf(entry, 0, ss, count);
        DeliverNext(step, s0, done, s, info, []);
        s, go := step(s, info).0, step(s, info).1;
      } else {
        assert done + parts == done;
      }
      done := done + parts;
      if !go {
        return false, Cancelled, s;
      }
      i := i + 1;
    }
    MbrUnfold(img, t, 4, off, ss, n, count + 1);
    assert done + [] == done;
    return true, NoError, s;
  }

  function Sector(sectorSize: nat): nat {
    if sectorSize == 0 then 512 else sectorSize
  }

  lemma MbrUnfold(img: seq<byte>, t: seq<byte>, i: nat, off: nat, ss: nat, n: nat, number: nat)
    requires |t| == TABLE_SIZE && i <= 4 && Finite(img, t, i, off, ss, n)
    ensures i == 4 ==> MbrParts(img, t, i, off, ss, n, number) == []
    ensures i < 4 ==>
              && Finite(img, t, i + 1, off, ss, n)
              && (IsContainer(EntryAt(t, i).kind) ==>
                    ChainEnds(img, ss, off + Span(ss, EntryAt(t, i).start), off + Span(ss, EntryAt(t, i).start), n))
              && MbrParts(img, t, i, off, ss, n, number) ==
                 SlotParts(img, t, i, off, ss, n, number) +
                 MbrParts(img, t, i + 1, off, ss, n, number + |SlotParts(img, t, i, off, ss, n, number)|)
  {
    hide EntryAt, ChainEnds, ChainParts;
  }

  // ---------- the first eight partitions ----------

  const NO_INFO := Info(0, 0, 0, 0, 0, false)

  /** User data of the array callback: the caller's eight entries, the next one, and how many are left. */
  datatype ArrayData = ArrayData(slots: seq<Info>, next: nat, count: nat)

  /** GotPartInfoForArray. It is never called with no entry left. */
  function GotForArray(d: ArrayData, info: Info): (ArrayData, bool) {
    if d.next < |d.slots| && d.count > 0 then
      (ArrayData(d.slots[d.next := info], d.next + 1, d.count - 1), d.count - 1 > 0)
    else (d, false)
  }

  /** `slots` with `parts` stored from `at` on. */
  function Stored(slots: seq<Info>, at: nat, parts: seq<Info>): seq<Info>
    requires at + |parts| <= |slots|
  {
    slots[..at] + parts + slots[at + |parts|..]
  }

  lemma StoredNext(slots: seq<Info>, at: nat, parts: seq<Info>)
    requires parts != [] && at + |parts| <= |slots|
    ensures Stored(slots, at, parts) == Stored(slots[at := parts[0]], at + 1, parts[1..])
  {
  }

  lemma StoredNothing(slots: seq<Info>, at: nat)
    requires at <= |slots|
    ensures Stored(slots, at, []) == slots
  {
  }

  lemma {:induction false} ArrayDelivery(d: ArrayData, parts: seq<Info>)
    requires d.count > 0 && d.next + d.count == |d.slots|
    ensures var n := Min(|parts|, d.count);
            Deliver(GotForArray, d, parts) ==
            (ArrayData(Stored(d.slots, d.next, parts[..n]), d.next + n, d.count - n), |parts| < d.count)
    decreases |parts|
  {
    hide Stored;
    StoredNothing(d.slots, d.next);
    if parts != [] {
      var d' := GotForArray(d, parts[0]).0;
      var n := Min(|parts|, d.count);
      StoredNext(d.slots, d.next, parts[..n]);
      if d.count > 1 {
        ArrayDelivery(d', parts[1..]);
        assert parts[..n][1..] == parts[1..][..n - 1];
      } else {
        assert parts[..n][1..] == [];
        StoredNothing(d'.slots, d'.next);
      }
    }
  }

  /** ImDiskGetPartitionInfoIndirect: the first eight partitions, the other entries zero. It reports success
      only when there are fewer than eight, because the eighth cancels the walk. */
  method GetPartitions(img: seq<byte>, sectorSize: nat, off: nat, ghost n: nat)
    returns (ok: bool, error: WalkError, slots: seq<Info>)
    requires sectorSize == 0 || 512 <= sectorSize
    requires Walkable(img, off, Sector(sectorSize), n)
    ensures var parts := ListPartitions(img, off, Sector(sectorSize), n);
            && |slots| == 8
            && (forall k :: 0 <= k < 8 ==> slots[k] == if k < |parts| then parts[k] else Info(0, 0, 0, 0, 0, false))
            && (ok <==> MbrTable(img, off, Sector(sectorSize)) != [] && |parts| < 8)
            && error == if MbrTable(img, off, Sector(sectorSize)) == [] then DiskCorrupt
                        else if |parts| < 8 then NoError else Cancelled
  {
    hide MbrTable, Deliver, Finite, MbrParts;
    var data := ArrayData(seq(8, _ => NO_INFO), 0, 8);
    ghost var parts := ListPartitions(img, off, Sector(sectorSize), n);
    ArrayDelivery(data, parts);
    ok, error, data := Walk(img, sectorSize, off, GotForArray, data, n);
    slots := data.slots;
  }

  // ---------- the k-th partition ----------

  /** User data of the single callback: the caller's entry and the wanted number, set to 0 when found. */
  datatype SingleData = SingleData(info: Info, count: nat)

  /** GotPartInfoForSingle */
  function GotForSingle(d: SingleData, info: Info): (SingleData, bool) {
    if info.number == d.count then (SingleData(info, 0), false) else (d, true)
  }

  lemma {:induction false} SingleDelivery(d: SingleData, parts: seq<Info>, number: nat)
    requires NumberedFrom(parts, number)
    ensures Deliver(GotForSingle, d, parts) ==
            if number <= d.count < number + |parts| then (SingleData(parts[d.count - number], 0), false)
            else (d, true)
    decreases |parts|
  {
    if parts != [] {
      SingleDelivery(d, parts[1..], number + 1);
    }
  }

  /** A 32-bit signed number stored as a DWORD. */
  function Dword(k: int): nat
    requires -TWO31 <= k
  {
    if k < 0 then k + TWO32 else k
  }

  /** ImDiskGetSinglePartitionInfoIndirect: partition `k`, which exists exactly when the list is that long. The
      number is compared as a DWORD. Asking for partition 0 succeeds, with nothing stored, when the image has
      no partition table. */
  method GetSinglePartition(img: seq<byte>, sectorSize: nat, off: nat, was: Info, k: int, ghost n: nat)
    returns (ok: bool, info: Info)
    requires sectorSize == 0 || 512 <= sectorSize
    requires Walkable(img, off, Sector(sectorSize), n)
    requires -TWO31 <= k < TWO31
    ensures var parts, wanted := ListPartitions(img, off, Sector(sectorSize), n), Dword(k);
            if k != 0 then (ok <==> wanted <= |parts|) && info == if ok then parts[wanted - 1] else was
            else (ok <==> MbrTable(img, off, Sector(sectorSize)) == []) && info == was
    ensures k < 0 && |ListPartitions(img, off, Sector(sectorSize), n)| < TWO31 ==> !ok
  {
    hide MbrTable, Deliver, Finite, MbrParts;
    var data := SingleData(was, Dword(k));
    ghost var parts := ListPartitions(img, off, Sector(sectorSize), n);
    PartitionNumbers(img, off, Sector(sectorSize), n);
    SingleDelivery(data, parts, 1);
    var walked, error;
    walked, error, data := Walk(img, sectorSize, off, GotForSingle, data, n);
    ok := !walked && data.count == 0;
    info := data.info;
  }
}
