/** devio's own search for a partition (main in devio.c) against the library's list of partitions. Sectors
    are 512 bytes and the table is at offset 0. */
module Finder {
  import opened Bytes
  import opened Partitions
  import opened Wrappers

  const SS: nat := 512

  /** The variables c, image_offset and devio_info.file_size. */
  datatype Found = Found(c: nat, offset: nat, size: nat)

  // ---------- the search as a value ----------

  /** Entries `e`.. of the EBR at `f.offset`; the flag is read_next_ebr. */
  function ScanEbr(t: seq<byte>, e: nat, first: nat, k: nat, f: Found): (Found, bool)
    requires |t| == TABLE_SIZE && e <= 4
    decreases 4 - e
  {
    if e == 4 then (f, false)
    else
      var entry := EntryAt(t, e);
      if entry.kind == 0 then ScanEbr(t, e + 1, first, k, f)
      else if IsContainer(entry.kind) then (f.(offset := first + Span(SS, entry.start)), true)
      else if f.c + 1 == k then (Found(k, f.offset + Span(SS, entry.start), Span(SS, entry.sectors)), false)
      else ScanEbr(t, e + 1, first, k, f.(c := f.c + 1))
  }

  /** The partition was among `parts`, the first of which is number `f.c` + 1. */
  predicate Hit(f: Found, k: nat, parts: seq<Info>) {
    f.c < k <= f.c + |parts|
  }

  lemma {:induction false} ScanEbrMeans(t: seq<byte>, e: nat, first: nat, k: nat, f: Found)
    requires |t| == TABLE_SIZE && e <= 4
    ensures var parts, link := EbrParts(t, e, f.offset, SS, f.c + 1), EbrLink(t, e, first, SS);
            ScanEbr(t, e, first, k, f) ==
            if Hit(f, k, parts) then (Found(k, parts[k - f.c - 1].start, parts[k - f.c - 1].length), false)
            else (Found(f.c + |parts|, if link.Some? then link.value else f.offset, f.size), link.Some?)
    decreases 4 - e
  {
    hide EntryAt, EbrParts, EbrLink;
    EbrEnd(t, first, f.offset, SS, f.c + 1);
    if e < 4 {
      EbrUnfold(t, e, first, f.offset, SS, f.c + 1);
      var entry := EntryAt(t, e);
      if entry.kind == 0 {
        ScanEbrMeans(t, e + 1, first, k, f);
      } else if !IsContainer(entry.kind) && f.c + 1 != k {
        ScanEbrMeans(t, e + 1, first, k, f.(c := f.c + 1));
      }
    }
  }

  function SearchChain(img: seq<byte>, first: nat, k: nat, f: Found, n: nat): Found
    requires ChainEnds(img, SS, first, f.offset, n)
    decreases n
  {
    hide EbrTable, EbrParts, EbrLink, EntryAt, InfoOf, ScanEbr, IsTable;
    var t := EbrTable(img, f.offset, SS);
    if t == [] then f
    else
      ScanEbrMeans(t, 0, first, k, f);
      var (f', again) := ScanEbr(t, 0, first, k, f);
      if again then SearchChain(img, first, k, f', n - 1) else f'
  }

  /** The EBR at which a chain ends. */
  function LastEbr(img: seq<byte>, first: nat, cur: nat, n: nat): nat
    requires ChainEnds(img, SS, first, cur, n)
    decreases n
  {
    hide EbrTable, EbrLink, EntryAt, IsTable;
    var t := EbrTable(img, cur, SS);
    if t == [] || EbrLink(t, 0, first, SS).None? then cur
    else LastEbr(img, first, EbrLink(t, 0, first, SS).value, n - 1)
  }

  lemma {:induction false} SearchChainMeans(img: seq<byte>, first: nat, k: nat, f: Found, n: nat)
    requires ChainEnds(img, SS, first, f.offset, n)
    ensures var parts := ChainParts(img, SS, first, f.offset, n, f.c + 1);
            SearchChain(img, first, k, f, n) ==
            if Hit(f, k, parts) then Found(k, parts[k - f.c - 1].start, parts[k - f.c - 1].length)
            else Found(f.c + |parts|, LastEbr(img, first, f.offset, n), f.size)
    decreases n
  {
    hide EbrTable, EbrParts, EbrLink, ScanEbr, InfoOf, IsTable;
    ChainUnfold(img, SS, first, f.offset, n, f.c + 1);
    var t := EbrTable(img, f.offset, SS);
    if t != [] {
      ScanEbrMeans(t, 0, first, k, f);
      var (f', again) := ScanEbr(t, 0, first, k, f);
      if again {
        SearchChainMeans(img, first, k, f', n - 1);
      }
    }
  }

  function SearchMbr(img: seq<byte>, t: seq<byte>, i: nat, k: nat, f: Found, n: nat): Found
    requires |t| == TABLE_SIZE && i <= 4 && Finite(img, t, i, 0, SS, n)
    decreases 4 - i
  {
    if i == 4 then f
    else
      var entry := EntryAt(t, i);
      if entry.kind == 0 then SearchMbr(img, t, i + 1, k, f, n)
      else if IsContainer(entry.kind) then
        var f0 := f.(offset := Span(SS, entry.start));
        SearchMbr(img, t, i + 1, k, SearchChain(img, Span(SS, entry.start), k, f0, n), n)
      else if f.c + 1 == k then Found(k, Span(SS, entry.start), Span(SS, entry.sectors))
      else SearchMbr(img, t, i + 1, k, f.(c := f.c + 1), n)
  }

  /** The last extended partition among entries `i`.. */
  function LastContainer(t: seq<byte>, i: nat): (m: Option<nat>)
    requires |t| == TABLE_SIZE && i <= 4
    ensures m.Some? ==> i <= m.value < 4 && IsContainer(EntryAt(t, m.value).kind)
    ensures forall a :: i <= a < 4 && IsContainer(EntryAt(t, a).kind) ==> m.Some? && a <= m.value
    decreases 4 - i
  {
    hide EntryAt;
    if i == 4 then None
    else if LastContainer(t, i + 1).Some? then LastContainer(t, i + 1)
    else if IsContainer(EntryAt(t, i).kind) then Some(i)
    else None
  }

  lemma {:induction false} ContainerFinite(img: seq<byte>, t: seq<byte>, i: nat, m: nat, n: nat)
    requires |t| == TABLE_SIZE && i <= m < 4 && Finite(img, t, i, 0, SS, n) && IsContainer(EntryAt(t, m).kind)
    ensures ChainEnds(img, SS, Span(SS, EntryAt(t, m).start), Span(SS, EntryAt(t, m).start), n)
    decreases m - i
  {
    hide EntryAt, ChainEnds;
    if i < m {
      ContainerFinite(img, t, i + 1, m, n);
    }
  }

  /** Where entries `i`.. leave image_offset when they do not hold the wanted partition: at the last EBR of
      the last extended partition, if there is one. */
  function Settled(img: seq<byte>, t: seq<byte>, i: nat, offset: nat, n: nat): nat
    requires |t| == TABLE_SIZE && i <= 4 && Finite(img, t, i, 0, SS, n)
  {
    hide EntryAt, ChainEnds, Finite;
    match LastContainer(t, i)
    case None => offset
    case Some(m) =>
      ContainerFinite(img, t, i, m, n);
      LastEbr(img, Span(SS, EntryAt(t, m).start), Span(SS, EntryAt(t, m).start), n)
  }

  lemma {:induction false} SearchMisses(img: seq<byte>, t: seq<byte>, i: nat, k: nat, f: Found, n: nat)
    requires |t| == TABLE_SIZE && i <= 4 && Finite(img, t, i, 0, SS, n)
    requires !Hit(f, k, MbrParts(img, t, i, 0, SS, n, f.c + 1))
    ensures SearchMbr(img, t, i, k, f, n).offset == Settled(img, t, i, f.offset, n)
    ensures SearchMbr(img, t, i, k, f, n).size == f.size
    decreases 4 - i
  {
    hide ChainEnds, ChainParts, EntryAt, SearchChain, LastEbr, InfoOf;
    MbrUnfold(img, t, i, 0, SS, n, f.c + 1);
    if i < 4 {
      var entry := EntryAt(t, i);
      if entry.kind == 0 {
        SearchMisses(img, t, i + 1, k, f, n);
      } else if IsContainer(entry.kind) {
        var f0 := f.(offset := Span(SS, entry.start));
        SearchChainMeans(img, Span(SS, entry.start), k, f0, n);
        SearchMisses(img, t, i + 1, k, SearchChain(img, Span(SS, entry.start), k, f0, n), n);
      } else {
        SearchMisses(img, t, i + 1, k, f.(c := f.c + 1), n);
      }
    }
  }

  /** Entry `j`, with `q` partitions before it, holds partition `k`, which is `p`. */
  predicate Holds(img: seq<byte>, t: seq<byte>, j: nat, q: nat, k: nat, p: Info, n: nat) {
    hide EntryAt, ChainEnds, ChainParts, InfoOf;
    && |t| == TABLE_SIZE && j < 4 && Finite(img, t, j, 0, SS, n) && Finite(img, t, j + 1, 0, SS, n)
    && q < k <= q + |SlotParts(img, t, j, 0, SS, n, q + 1)|
    && SlotParts(img, t, j, 0, SS, n, q + 1)[k - q - 1] == p
  }

  /** The entry among `i`.. that holds partition `k`, and how many partitions come before that entry, when
      `q` come before entry `i`. */
  function Holder(img: seq<byte>, t: seq<byte>, i: nat, k: nat, q: nat, n: nat): (h: (nat, nat))
    requires |t| == TABLE_SIZE && i < 4 && Finite(img, t, i, 0, SS, n)
    ensures i <= h.0 < 4
    decreases 4 - i
  {
    hide EntryAt, ChainEnds, SlotParts;
    var next := q + |SlotParts(img, t, i, 0, SS, n, q + 1)|;
    if i == 3 || k <= next then (i, q) else Holder(img, t, i + 1, k, next, n)
  }

  lemma {:induction false} HolderHolds(img: seq<byte>, t: seq<byte>, i: nat, k: nat, q: nat, n: nat)
    requires |t| == TABLE_SIZE && i < 4 && Finite(img, t, i, 0, SS, n)
    requires q < k <= q + |MbrParts(img, t, i, 0, SS, n, q + 1)|
    ensures var (j, before) := Holder(img, t, i, k, q, n);
            Holds(img, t, j, before, k, MbrParts(img, t, i, 0, SS, n, q + 1)[k - q - 1], n)
    decreases 4 - i
  {
    hide EntryAt, ChainEnds, MbrParts, Finite, SlotParts;
    MbrUnfold(img, t, i, 0, SS, n, q + 1);
    var next := q + |SlotParts(img, t, i, 0, SS, n, q + 1)|;
    if k > next {
      MbrUnfold(img, t, i + 1, 0, SS, n, next + 1);
      HolderHolds(img, t, i + 1, k, next, n);
    }
  }

  /** What devio's search leaves when entries `i`.. hold partition `k`: its size always; its start if it is
      a primary partition, and otherwise whatever the extended partitions after its own entry leave. */
  lemma {:induction false} SearchHits(img: seq<byte>, t: seq<byte>, i: nat, k: nat, f: Found, n: nat)
    requires |t| == TABLE_SIZE && i < 4 && Finite(img, t, i, 0, SS, n)
    requires Hit(f, k, MbrParts(img, t, i, 0, SS, n, f.c + 1))
    ensures var j, p := Holder(img, t, i, k, f.c, n).0, MbrParts(img, t, i, 0, SS, n, f.c + 1)[k - f.c - 1];
            Left(img, t, j, p, n, SearchMbr(img, t, i, k, f, n))
    decreases 4 - i
  {
    hide ChainEnds, EntryAt, SearchMbr, Left, MbrParts, Finite, SlotParts, InfoOf;
    MbrUnfold(img, t, i, 0, SS, n, f.c + 1);
    if Hit(f, k, SlotParts(img, t, i, 0, SS, n, f.c + 1)) {
      SearchHitsHere(img, t, i, k, f, n);
    } else {
      var f1 := SearchPasses(img, t, i, k, f, n);
      MbrUnfold(img, t, i + 1, 0, SS, n, f1.c + 1);
      SearchHits(img, t, i + 1, k, f1, n);
    }
  }

  /** The search has found partition `p` in entry `j` and left the rest of the entries. */
  predicate Left(img: seq<byte>, t: seq<byte>, j: nat, p: Info, n: nat, d: Found) {
    hide EntryAt, ChainEnds, Settled;
    && |t| == TABLE_SIZE && j < 4 && Finite(img, t, j, 0, SS, n)
    && d.size == p.length
    && d.offset == if IsContainer(EntryAt(t, j).kind) then Settled(img, t, j + 1, p.start, n) else p.start
  }

  lemma SearchHitsHere(img: seq<byte>, t: seq<byte>, i: nat, k: nat, f: Found, n: nat)
    requires |t| == TABLE_SIZE && i < 4 && Finite(img, t, i, 0, SS, n) && Finite(img, t, i + 1, 0, SS, n)
    requires Hit(f, k, SlotParts(img, t, i, 0, SS, n, f.c + 1))
    ensures var p := SlotParts(img, t, i, 0, SS, n, f.c + 1)[k - f.c - 1];
            Left(img, t, i, p, n, SearchMbr(img, t, i, k, f, n))
  {
    hide ChainEnds, ChainParts, EntryAt, SearchChain, Settled, MbrParts;
    var entry := EntryAt(t, i);
    if IsContainer(entry.kind) {
      var f0 := f.(offset := Span(SS, entry.start));
      SearchChainMeans(img, Span(SS, entry.start), k, f0, n);
      SearchMisses(img, t, i + 1, k, SearchChain(img, Span(SS, entry.start), k, f0, n), n);
    }
  }

  /** The search goes on behind entry `i` with the partitions of that entry counted. */
  lemma SearchPasses(img: seq<byte>, t: seq<byte>, i: nat, k: nat, f: Found, n: nat) returns (f1: Found)
    requires |t| == TABLE_SIZE && i < 4 && Finite(img, t, i, 0, SS, n) && Finite(img, t, i + 1, 0, SS, n)
    requires !Hit(f, k, SlotParts(img, t, i, 0, SS, n, f.c + 1)) && f.c < k
    ensures SearchMbr(img, t, i, k, f, n) == SearchMbr(img, t, i + 1, k, f1, n)
    ensures f1.c == f.c + |SlotParts(img, t, i, 0, SS, n, f.c + 1)|
  {
    hide ChainEnds, ChainParts, EntryAt, SearchChain, Settled, MbrParts;
    var entry := EntryAt(t, i);
    if entry.kind == 0 {
      f1 := f;
    } else if IsContainer(entry.kind) {
      var f0 := f.(offset := Span(SS, entry.start));
      SearchChainMeans(img, Span(SS, entry.start), k, f0, n);
      f1 := SearchChain(img, Span(SS, entry.start), k, f0, n);
    } else {
      f1 := f.(c := f.c + 1);
    }
  }

  /** The type bytes that devio tells apart: it skips 0, walks a chain for 05h and 0Fh, and counts the others. */
  lemma SearchTypes(img: seq<byte>, t: seq<byte>, i: nat, k: nat, f: Found, n: nat)
    requires |t| == TABLE_SIZE && i < 4 && Finite(img, t, i, 0, SS, n)
    ensures var kind, start, sectors := t[16 * i + 4], 512 * Le32(t, 16 * i + 8), 512 * Le32(t, 16 * i + 12);
            && Finite(img, t, i + 1, 0, SS, n)
            && (kind == 0x00 ==> SearchMbr(img, t, i, k, f, n) == SearchMbr(img, t, i + 1, k, f, n))
            && (kind in {0x05, 0x0F} ==>
                  && ChainEnds(img, SS, start, start, n)
                  && SearchMbr(img, t, i, k, f, n) ==
                     SearchMbr(img, t, i + 1, k, SearchChain(img, start, k, Found(f.c, start, f.size), n), n))
            && (kind !in {0x00, 0x05, 0x0F} ==>
                  SearchMbr(img, t, i, k, f, n) ==
                  if f.c + 1 == k then Found(k, start, sectors)
                  else SearchMbr(img, t, i + 1, k, Found(f.c + 1, f.offset, f.size), n))
  {
    hide EntryAt, ChainEnds, SearchChain, Le32;
    EntryFields(t, i);
  }

  lemma ScanTypes(t: seq<byte>, e: nat, first: nat, k: nat, f: Found)
    requires |t| == TABLE_SIZE && e < 4
    ensures var kind, start, sectors := t[16 * e + 4], 512 * Le32(t, 16 * e + 8), 512 * Le32(t, 16 * e + 12);
            && (kind == 0x00 ==> ScanEbr(t, e, first, k, f) == ScanEbr(t, e + 1, first, k, f))
            && (kind in {0x05, 0x0F} ==> ScanEbr(t, e, first, k, f) == (Found(f.c, first + start, f.size), true))
            && (kind !in {0x00, 0x05, 0x0F} ==>
                  ScanEbr(t, e, first, k, f) ==
                  if f.c + 1 == k then (Found(k, f.offset + start, sectors), false)
                  else ScanEbr(t, e + 1, first, k, Found(f.c + 1, f.offset, f.size)))
  {
    hide EntryAt, Le32;
    EntryFields(t, e);
  }

  // ---------- the two finders ----------

  /** devio's answer for partition `k`, with image_offset 0 and the size of the image to begin with. */
  function DevioFind(img: seq<byte>, k: nat, size: nat, n: nat): Found
    requires Walkable(img, 0, SS, n)
  {
    var t := MbrTable(img, 0, SS);
    if t == [] then Found(0, 0, size) else SearchMbr(img, t, 0, k, Found(0, 0, size), n)
  }

  /** For a partition that the library finds, devio always has the length. It has the start of a primary
      partition, and for a logical one what the extended partitions after its own entry leave: the start
      exactly when there are none or the last EBR of the last of them happens to be that start. */
  lemma FindersAgree(img: seq<byte>, k: nat, size: nat, n: nat)
    requires Walkable(img, 0, SS, n) && 0 < k <= |ListPartitions(img, 0, SS, n)|
    ensures MbrTable(img, 0, SS) != []
    ensures var t, p, d := MbrTable(img, 0, SS), ListPartitions(img, 0, SS, n)[k - 1], DevioFind(img, k, size, n);
            var (j, q) := Holder(img, t, 0, k, 0, n);
            && Holds(img, t, j, q, k, p, n)
            && Left(img, t, j, p, n, d)
            && (d.offset == p.start <==>
                || !IsContainer(EntryAt(t, j).kind)
                || LastContainer(t, j + 1).None?
                || Settled(img, t, j + 1, p.start, n) == p.start)
  {
    hide MbrTable, EntryAt, SearchMbr, MbrParts, Finite, SlotParts, LastContainer, LastEbr, Holder, Holds;
    HolderHolds(img, MbrTable(img, 0, SS), 0, k, 0, n);
    SearchHits(img, MbrTable(img, 0, SS), 0, k, Found(0, 0, size), n);
  }

  /** devio takes what it has found: it is not empty and lies inside the disk. */
  predicate Accepts(f: Found, currentSize: nat) {
    f.size != 0 && (currentSize == 0 || f.offset + f.size <= currentSize)
  }

  /** A number behind the last partition is no error by itself: devio keeps the size it had and takes that
      if it fits behind the last EBR. So it takes the whole image when there is no extended partition, and
      fails exactly when the last EBR of the last one is not at the start of the image. */
  lemma MissingAccepted(img: seq<byte>, k: nat, size: nat, currentSize: nat, n: nat)
    requires Walkable(img, 0, SS, n) && MbrTable(img, 0, SS) != [] && k > |ListPartitions(img, 0, SS, n)|
    ensures var t, d := MbrTable(img, 0, SS), DevioFind(img, k, size, n);
            && d.size == size && d.offset == Settled(img, t, 0, 0, n)
            && (size == currentSize > 0 ==> (Accepts(d, currentSize) <==> d.offset == 0))
            && (LastContainer(t, 0).None? ==> d.offset == 0)
  {
    hide MbrTable, EntryAt, SearchMbr, MbrParts, Finite, LastContainer, LastEbr;
    SearchMisses(img, MbrTable(img, 0, SS), 0, k, Found(0, 0, size), n);
  }

  /** The library's answer for partition `k`. */
  function LibraryFind(img: seq<byte>, k: nat, n: nat): Option<Info>
    requires Walkable(img, 0, SS, n)
  {
    if 0 < k <= |ListPartitions(img, 0, SS, n)| then Some(ListPartitions(img, 0, SS, n)[k - 1]) else None
  }

  /** Both fail, or both find the same bytes. */
  predicate SameOutcome(lib: Option<Info>, d: Found, currentSize: nat) {
    match lib
    case None => !Accepts(d, currentSize)
    case Some(p) => Accepts(d, currentSize) && d.offset == p.start && d.size == p.length
  }

  /** When the two finders come to the same outcome, for every number on every image with a table. */
  lemma OutcomesAgree(img: seq<byte>, k: nat, size: nat, currentSize: nat, n: nat)
    requires Walkable(img, 0, SS, n) && MbrTable(img, 0, SS) != [] && k > 0
    ensures var t, lib := MbrTable(img, 0, SS), LibraryFind(img, k, n);
            SameOutcome(lib, DevioFind(img, k, size, n), currentSize) <==>
            if lib.Some? then
              var p, j := lib.value, Holder(img, t, 0, k, 0, n).0;
              && (|| !IsContainer(EntryAt(t, j).kind)
                  || LastContainer(t, j + 1).None?
                  || Settled(img, t, j + 1, p.start, n) == p.start)
              && p.length != 0 && (currentSize == 0 || p.start + p.length <= currentSize)
            else size == 0 || (currentSize != 0 && Settled(img, t, 0, 0, n) + size > currentSize)
  {
    hide MbrTable, EntryAt, DevioFind, ListPartitions, Finite, LastContainer, Settled, Holder;
    if k <= |ListPartitions(img, 0, SS, n)| {
      FindersAgree(img, k, size, n);
    } else {
      MissingAccepted(img, k, size, currentSize, n);
    }
  }

  /** With at most one extended partition both finders have start and length of every partition, and devio
      takes it if it is not empty and inside the disk. */
  lemma FindersAgreeWithOneContainer(img: seq<byte>, k: nat, size: nat, currentSize: nat, n: nat)
    requires Walkable(img, 0, SS, n) && MbrTable(img, 0, SS) != [] && k > 0
    requires var t := MbrTable(img, 0, SS);
             forall a, b :: 0 <= a < b < 4 && IsContainer(EntryAt(t, a).kind) ==> !IsContainer(EntryAt(t, b).kind)
    ensures var lib, d := LibraryFind(img, k, n), DevioFind(img, k, size, n);
            && (lib.Some? ==>
                  && d.offset == lib.value.start && d.size == lib.value.length
                  && (Accepts(d, currentSize) <==>
                      && lib.value.length != 0
                      && (currentSize == 0 || lib.value.start + lib.value.length <= currentSize)))
            && (lib.None? && size == currentSize > 0 ==>
                  (Accepts(d, currentSize) <==> Settled(img, MbrTable(img, 0, SS), 0, 0, n) == 0))
  {
    hide MbrTable, EntryAt, DevioFind, ListPartitions, Finite, Settled, Holder, LastContainer;
    if k <= |ListPartitions(img, 0, SS, n)| {
      FindersAgree(img, k, size, n);
    } else {
      MissingAccepted(img, k, size, currentSize, n);
    }
  }

  // ---------- the loops of main ----------

  method ScanEbrLoop(t: seq<byte>, first: nat, k: nat, c0: nat, offset0: nat, size0: nat)
    returns (c: nat, imageOffset: nat, fileSize: nat, readNextEbr: bool)
    requires |t| == TABLE_SIZE
    ensures (Found(c, imageOffset, fileSize), readNextEbr) == ScanEbr(t, 0, first, k, Found(c0, offset0, size0))
  {
    hide EntryAt;
    c, imageOffset, fileSize, readNextEbr := c0, offset0, size0, false;
    var e: nat := 0;
    while e < 4
      invariant e <= 4 && !readNextEbr
      invariant ScanEbr(t, 0, first, k, Found(c0, offset0, size0)) ==
                ScanEbr(t, e, first, k, Found(c, imageOffset, fileSize))
    {
      var entry := EntryAt(t, e);
      e := e + 1;
      if entry.kind == 0 {
        continue;
      }
      if IsContainer(entry.kind) {
        imageOffset := first + Span(SS, entry.start);
        readNextEbr := true;
        return;
      }
      c := c + 1;
      if c == k {
        imageOffset := imageOffset + Span(SS, entry.start);
        fileSize := Span(SS, entry.sectors);
        return;
      }
    }
  }

  method SearchChainLoop(img: seq<byte>, first: nat, k: nat, c0: nat, size0: nat, ghost n: nat)
    returns (c: nat, imageOffset: nat, fileSize: nat)
    requires ChainEnds(img, SS, first, first, n)
    ensures Found(c, imageOffset, fileSize) == SearchChain(img, first, k, Found(c0, first, size0), n)
  {
    hide EbrTable, ChainEnds, ScanEbr, SearchChain, IsTable;
    c, imageOffset, fileSize := c0, first, size0;
    var readNextEbr := true;
    ghost var left := n;
    while readNextEbr
      invariant readNextEbr ==> ChainEnds(img, SS, first, imageOffset, left)
      invariant SearchChain(img, first, k, Found(c0, first, size0), n) ==
                if readNextEbr then SearchChain(img, first, k, Found(c, imageOffset, fileSize), left)
                else Found(c, imageOffset, fileSize)
      decreases readNextEbr, left
    {
      SearchChainUnfold(img, first, k, Found(c, imageOffset, fileSize), left);
      readNextEbr := false;
      var ebr := EbrTable(img, imageOffset, SS);
      if ebr == [] {
        break;
      }
      c, imageOffset, fileSize, readNextEbr := ScanEbrLoop(ebr, first, k, c, imageOffset, fileSize);
      left := if left > 0 then left - 1 else 0;
    }
  }

  lemma SearchChainUnfold(img: seq<byte>, first: nat, k: nat, f: Found, n: nat)
    requires ChainEnds(img, SS, first, f.offset, n)
    ensures var t := EbrTable(img, f.offset, SS);
            if t == [] then SearchChain(img, first, k, f, n) == f
            else
              var (f', again) := ScanEbr(t, 0, first, k, f);
              if again then
                n > 0 && ChainEnds(img, SS, first, f'.offset, n - 1) &&
                SearchChain(img, first, k, f, n) == SearchChain(img, first, k, f', n - 1)
              else SearchChain(img, first, k, f, n) == f'
  {
    hide EbrTable, ScanEbr, EbrParts, EbrLink, InfoOf, IsTable;
    var t := EbrTable(img, f.offset, SS);
    if t != [] {
      ScanEbrMeans(t, 0, first, k, f);
    }
  }

  /** The search of main. `accepted` is false where devio ends with "Partition not found". */
  method FindPartition(img: seq<byte>, k: nat, size: nat, currentSize: nat, ghost n: nat)
    returns (accepted: bool, imageOffset: nat, fileSize: nat)
    requires Walkable(img, 0, SS, n) && 0 < k < 512
    ensures imageOffset == DevioFind(img, k, size, n).offset && fileSize == DevioFind(img, k, size, n).size
    ensures accepted <==> MbrTable(img, 0, SS) == [] || Accepts(DevioFind(img, k, size, n), currentSize)
  {
    hide MbrTable, EntryAt, SearchChain, ChainEnds;
    accepted, imageOffset, fileSize := true, 0, size;
    var mbr := MbrTable(img, 0, SS);
    if mbr == [] {
      return;
    }
    var i: nat, c: nat := 0, 0;
    while i < 4
      invariant i <= 4 && Finite(img, mbr, i, 0, SS, n)
      invariant DevioFind(img, k, size, n) ==
                SearchMbr(img, mbr, i, k, Found(c, imageOffset, fileSize), n)
    {
      var entry := EntryAt(mbr, i);
      i := i + 1;
      if entry.kind == 0 {
        continue;
      }
      if IsContainer(entry.kind) {
        c, imageOffset, fileSize := SearchChainLoop(img, Span(SS, entry.start), k, c, fileSize, n);
      } else {
        c := c + 1;
        if c == k {
          imageOffset := Span(SS, entry.start);
          fileSize := Span(SS, entry.sectors);
          break;
        }
      }
    }
    accepted := fileSize != 0 && (currentSize == 0 || imageOffset + fileSize <= currentSize);
  }

  // ---------- two extended partitions ----------

  /** Four sectors: an MBR with extended partitions at sectors 1 and 3, and an EBR at sector 1 with one
      partition of one sector, one sector on. */
  function TwoContainers(): (img: seq<byte>)
    ensures |img| == 2048
  {
    Zeros(446) + SmallTable(0x0F, 1, 0, 0x05, 3) + Zeros(446) + SmallTable(0x07, 1, 1, 0, 0) + Zeros(1024)
  }

  lemma TwoContainersMbr() returns (mbr: seq<byte>)
    ensures mbr == MbrTable(TwoContainers(), 0, SS) && |mbr| == TABLE_SIZE
    ensures EntryAt(mbr, 0) == Entry(false, 0, 0x0F, 1, 0) && EntryAt(mbr, 1) == Entry(false, 0, 0x05, 3, 0)
    ensures EntryAt(mbr, 2).kind == 0 && EntryAt(mbr, 3).kind == 0
  {
    hide EntryAt, IsTable, SmallTable;
    mbr := SmallTable(0x0F, 1, 0, 0x05, 3);
    SmallTableMeans(0x0F, 1, 0, 0x05, 3);
    assert ReadSector(TwoContainers(), 0, SS)[446..512] == mbr;
  }

  lemma TwoContainersEbr() returns (ebr: seq<byte>)
    ensures ebr == EbrTable(TwoContainers(), 512, SS) && |ebr| == TABLE_SIZE
    ensures EntryAt(ebr, 0) == Entry(false, 0, 0x07, 1, 1)
    ensures EntryAt(ebr, 1).kind == 0 && EntryAt(ebr, 2).kind == 0 && EntryAt(ebr, 3).kind == 0
  {
    hide EntryAt, IsTable, SmallTable;
    ebr := SmallTable(0x07, 1, 1, 0, 0);
    SmallTableMeans(0x07, 1, 1, 0, 0);
    assert ReadSector(TwoContainers(), 512, SS)[446..] == ebr;
  }

  lemma TwoContainersEnd()
    ensures EbrTable(TwoContainers(), 1536, SS) == []
  {
    hide EntryAt, SmallTable;
    assert ReadSector(TwoContainers(), 1536, SS)[446..][64] == 0;
  }

  /** The library finds partition 1 at byte 1024; devio has its length but takes the bytes from 1536 on. */
  lemma FindersDisagree()
    ensures Walkable(TwoContainers(), 0, SS, 0)
    ensures LibraryFind(TwoContainers(), 1, 0) == Some(Info(1024, 512, 1, 1, 0x07, false))
    ensures var d := DevioFind(TwoContainers(), 1, 2048, 0);
            d.offset == 1536 && d.size == 512 && Accepts(d, 2048)
  {
    hide EntryAt, MbrTable, EbrTable, TwoContainers, DevioFind, IsTable;
    var img := TwoContainers();
    var mbr := TwoContainersMbr();
    var ebr := TwoContainersEbr();
    TwoContainersEnd();
    assert EbrLink(ebr, 3, 512, SS) == EbrLink(ebr, 2, 512, SS) == EbrLink(ebr, 1, 512, SS) == None;
    assert EbrParts(ebr, 3, 512, SS, 2) == EbrParts(ebr, 2, 512, SS, 2) == EbrParts(ebr, 1, 512, SS, 2) == [];
    assert EbrParts(ebr, 0, 512, SS, 1) == [Info(1024, 512, 1, 1, 0x07, false)];
    assert ChainEnds(img, SS, 512, 512, 0) && ChainEnds(img, SS, 1536, 1536, 0);
    assert ChainParts(img, SS, 512, 512, 0, 1) == [Info(1024, 512, 1, 1, 0x07, false)];
    assert Finite(img, mbr, 3, 0, SS, 0) && Finite(img, mbr, 2, 0, SS, 0) && Finite(img, mbr, 1, 0, SS, 0);
    assert MbrParts(img, mbr, 3, 0, SS, 0, 2) == MbrParts(img, mbr, 2, 0, SS, 0, 2) ==
           MbrParts(img, mbr, 1, 0, SS, 0, 2) == [];
    FindersAgree(img, 1, 2048, 0);
    assert Holder(img, mbr, 0, 1, 0, 0) == (0, 0);
    assert LastContainer(mbr, 1) == Some(1) && LastEbr(img, 1536, 1536, 0) == 1536;
  }

  // ---------- a number behind the last partition ----------

  /** One sector with an empty partition table. */
  function EmptyTable(): (img: seq<byte>)
    ensures |img| == 512
  {
    Zeros(446) + SmallTable(0, 0, 0, 0, 0)
  }

  lemma EmptyTableMbr() returns (mbr: seq<byte>)
    ensures mbr == MbrTable(EmptyTable(), 0, SS) && |mbr| == TABLE_SIZE
    ensures forall i :: 0 <= i < 4 ==> EntryAt(mbr, i).kind == 0
  {
    hide EntryAt, IsTable, SmallTable;
    mbr := SmallTable(0, 0, 0, 0, 0);
    SmallTableMeans(0, 0, 0, 0, 0);
    assert ReadSector(EmptyTable(), 0, SS)[446..512] == mbr;
  }

  /** Asked for partition 1 of an image that has none, the library fails and devio takes the whole image. */
  lemma WholeImageTaken()
    ensures MbrTable(EmptyTable(), 0, SS) != [] && Walkable(EmptyTable(), 0, SS, 0)
    ensures LibraryFind(EmptyTable(), 1, 0) == None
    ensures var d := DevioFind(EmptyTable(), 1, 512, 0);
            d.offset == 0 && d.size == 512 && Accepts(d, 512)
  {
    hide EntryAt, MbrTable, EbrTable, EmptyTable, DevioFind, IsTable;
    var img := EmptyTable();
    var mbr := EmptyTableMbr();
    assert Finite(img, mbr, 3, 0, SS, 0) && Finite(img, mbr, 2, 0, SS, 0) && Finite(img, mbr, 1, 0, SS, 0);
    assert MbrParts(img, mbr, 3, 0, SS, 0, 1) == MbrParts(img, mbr, 2, 0, SS, 0, 1) ==
           MbrParts(img, mbr, 1, 0, SS, 0, 1) == [];
    MissingAccepted(img, 1, 512, 512, 0);
  }
}
