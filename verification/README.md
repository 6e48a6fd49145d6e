# Verified model of the ImDisk disk layers

This project models the parts of ImDisk that turn requests into bytes, and proves what they promise.

* **Dynamic VHD layer** (`devio/devio.c`). `Vhd.dfy` says where header, block allocation table (BAT), blocks and
  footer lie in the file bytes, when a file is well formed, and which flat disk it stands for. `VhdWrite.dfy` gives
  the file after a write and proves that, over every sequence of writes, file and flat disk stay the same disk.
  `Image.dfy` has `vhd_read` and `vhd_write` as methods over the file, including requests that fail half-way.
  `Format.dfy` says in plain numbers where everything is in the bytes. `BigEndian.dfy` is the decoding of the header's
  64-bit fields.
* **Request server** (`devio/devio.c`, `devio/safeio.c`). `Protocol.dfy` is the protocol as values: requests,
  responses, and a server over a flat disk. `Runs.dfy` says what else can happen to a run of requests: failed I/O,
  torn blocks, and positions that wrap around. `Wire.dfy` is the protocol as clients see it: bytes on the stream, and
  reads as the history of writes. `Transport.dfy` has the loops that make whole transfers out of short ones.
  `Server.dfy` has the request loop and its handlers, which refine the flat-disk server on an image that does not
  fail, and answer every request in its form on one that does.
* **Partition tables** (`cpl/drvio.c`, `devio/devio.c`). `Partitions.dfy` is the walker with its cancelling callback
  and the two lookups built on it, `Chains.dfy` when a chain ends, `Offsets.dfy` what the offset of the table does to
  the partitions, `Finder.dfy` devio's own search and its comparison with the library, `Mbr.dfy` the table builder
  with its overlapping stores, and the CHS conversions.
* **Saved configuration** (`ImDiskGui/MainWindow.xaml.cs`). `Text.dfy` has the string operations, `Config.dfy` the
  writer and the reader of the RAM disk list, `Forms.dfy` which texts the reader takes and when it gives up.
* **Saved devices** (`cpl/drvio.c`, `sys/imdisk.cpp`). `Registry.dfy` has saving and removing a device, and the
  driver's reader of the same values.
* **Transfer loops**. `SafeRead.dfy` (`sys/commonio.cpp`), `SaveImage.dfy` (`cpl/drvio.c`), `Floppy.dfy`
  (`sys/floppy.cpp`).

Code that changes things step by step is a method or a class over its state and is tied by its postcondition to a
function of the old state; the lemmas are about those functions. The VHD layout is that of Microsoft's Virtual Hard
Disk Image Format Specification 1.0, sections "Dynamic Disk Header Format" and "Block Allocation Table and Data
Blocks"; the partition entry is that of section 5.2.1 of the UEFI Specification.

Foreign calls are modelled as follows. Physical I/O on an image either succeeds completely or fails and changes
nothing (`Image.Image.reliable` says that it does not fail; the server is stated for both). It always fails at
negative offsets and may fail for spans that a signed 64-bit offset cannot hold. A stream descriptor delivers and
accepts any nonzero number of bytes per call, or fails. Native reads, device reads and file writes in the kernel and
library loops may be short, empty, rejected or failing at any call. Registry calls on an open key succeed.

Where the code does not do what one would expect, the model follows the code and says exactly when it does:

* The scan for an all-zero new block stops at its first word, so every nonempty write to an absent block adds the
  block (`Image.Image.LocateBlock`, `VhdWrite.SpanPlaces`). Leaving zero pieces out would have been sound
  (`VhdWrite.ZeroSkipIsSound`).
* The range check of `vhd_read` and `vhd_write` adds a signed offset and an unsigned size in 64 bits. It lets a span
  through that is not on the disk exactly when the sum wraps around to a position on the disk
  (`VhdWrite.RangeCheckExactly`), and such a write can ruin the file (`VhdWrite.NegativeOffset`). In a plain file the
  wrapped sum lies in front of the partition (`Runs.InFrontOfPartition`). The server keeps to the flat disk for
  exactly the requests that do not go astray in this way (`Runs.AstrayExactly`, `Server.Server.DoComm`).
* The bitmap bytes of a block are set as if the write began a group of eight sectors (`Vhd.BitmapCovers`,
  `Vhd.BitmapMissesSector`).
* A new block that cannot be written after its BAT entry leaves a file whose next block gets the same place
  (`VhdWrite.TornState`); if the failed piece is written again, then the next block is put over the end of it
  (`VhdWrite.RetriedState`).
* `GetBigEndian64` sign-extends its bytes (`BigEndian.DecodesBigEndian`, `BigEndian.EightMegabytes`).
* devio's partition search goes on to later extended partitions after it has found a logical one, so it may serve
  other bytes than the library finds (`Finder.FindersAgree`, `Finder.OutcomesAgree`, `Finder.FindersDisagree`).
* A partition number behind the last partition is no error for devio: it takes the whole image, unless an extended
  partition has moved the offset away from 0 (`Finder.MissingAccepted`, `Finder.WholeImageTaken`).
* The array lookup reports success only for fewer than eight partitions (`Partitions.GetPartitions`), and the lookup
  of partition 0 succeeds on a disk without a table (`Partitions.GetSinglePartition`).
* The start of a primary partition does not include the offset of the MBR, that of a logical one does
  (`Offsets.OffsetCounted`, `Offsets.OffsetNotCounted`).
* The saved list restores every field only for strings the format can carry (`Config.RoundTrip`).
* The device counter is a DWORD that wraps (`Registry.SaveKeepsBelow`).
* The two floppy paths differ for ranges that run backwards or end beyond 4 GiB (`Floppy.SameRange`,
  `Floppy.SameBytes`).

## Model

| member | source | states |
|---|---|---|
| Vhd.BitmapInSector | devio/devio.c:949-962 | the bitmap bytes a write sets stay inside the block's own bitmap sector for blocks up to 2 MiB |
| Vhd.BitmapCovers | devio/devio.c:949-957 | the set bitmap bytes cover every sector the write touches if and only if the write, moved to its distance within an eight-sector group, fits the set groups; always so at a multiple of 4096 |
| Vhd.BitmapMissesSector | devio/devio.c:949-957 | a two-sector write at sector 7 of a block leaves its second sector unmarked |
| Vhd.AllocateKeeps | devio/devio.c:880-937 | adding a block keeps the file well formed, puts the block where the footer was, moves no other BAT entry and leaves the disk as it was |
| Vhd.StoreBitmap | devio/devio.c:939-969 | storing a piece keeps the file well formed and every block where it is; the marked bitmap bytes become FFh and no other bitmap byte of any block changes |
| Vhd.StoreCell | devio/devio.c:939-947 | storing a piece changes exactly its own bytes of its own block as the disk sees them |
| Vhd.LayoutGrows | devio/devio.c:886-898 | the place of a new block is disjoint from header, BAT, footer and all other blocks, and its sector number stays below the reserved value |
| VhdWrite.WritePiece | devio/devio.c:825-969 | a piece inside one block, absent or not, is spliced into the flat disk and the file stays well formed |
| VhdWrite.WriteSpan | devio/devio.c:808-982 | a request over any number of blocks is spliced into the flat disk as a whole, leaving all other bytes, and the file stays well formed |
| VhdWrite.Write | devio/devio.c:808-982 | a request that is not in range changes nothing, any other is the write of the flat disk |
| VhdWrite.WritesRefine | devio/devio.c:793-983 | after every sequence of requests the file stands for the flat disk with the same writes applied |
| VhdWrite.SpanPlaces | devio/devio.c:836-937 | a request gives a place to exactly the blocks it touches, moves none, and file length plus space still needed is conserved |
| VhdWrite.SpanBitmaps | devio/devio.c:949-969 | over a whole request every bitmap byte of a block that was there keeps its value or becomes FFh, so no set bit is cleared |
| VhdWrite.SpanMarks | devio/devio.c:949-969 | a request that begins an eight-sector group marks every byte it writes, in however many blocks |
| VhdWrite.ZeroSkipIsSound | devio/devio.c:843-869 | leaving an all-zero piece of an absent block out of the file would not change the disk |
| VhdWrite.TornState | devio/devio.c:897-934 | with the BAT entry written and the block missing, the disk still reads the same but the file is not well formed and the next new block shares that place |
| VhdWrite.RetriedState | devio/devio.c:870-969 | when the piece of such a block is written again, its data lies behind the old footer and its bitmap bytes in it; the disk reads as if it had been written, but the file is not well formed and the next new block wipes out the last byte of the piece |
| VhdWrite.InterruptedLater | devio/devio.c:971-978 | a failure in a later block leaves a prefix of the whole request on the disk |
| VhdWrite.InterruptedDisk | devio/devio.c:897-978 | after a failed request the file is well formed or has one torn block, and in either case the disk has the first bytes written |
| VhdWrite.RangeCheckExactly | devio/devio.c:811-812 | for every 64-bit position and length the range check lets a span through that is not on the disk if and only if their sum wraps around to a position on the disk |
| VhdWrite.NegativeOffset | devio/devio.c:811-969 | 512 bytes at 2^64 - 512 pass the range check, and on a file whose header ends in zeros their bitmap byte is written into the header, which is then not that of the disk |
| VhdWrite.NegativeOffsetFile | devio/devio.c:811-969 | an empty disk is such a file |
| VhdWrite.BlankIsZero | devio/devio.c:764-765 | a file with header, empty BAT and footer has one sector of BAT for every 128 blocks, is well formed if all its blocks can be numbered, and is a disk of zeros |
| Format.ValidExactly | devio/devio.c:1426-1445 | the disks that the other results are about are those with blocks of a power of two from 512 bytes to 2 MiB, a BAT behind the headers and an entry for every block of the disk |
| Format.DiskByteInFile | devio/devio.c:735-776 | a byte of the disk is at 512 times the big-endian BAT entry, plus the bitmap sector, plus its distance in the block, and is 0 where the entry is FF FF FF FF |
| Format.NewBlockBytes | devio/devio.c:837-969 | after a piece for an absent block the entry holds the sector of the old footer, there follow a bitmap sector with exactly the marked bytes, the data between zeros and the footer, and every other byte is as it was |
| Format.OldBlockBytes | devio/devio.c:939-969 | a piece for a block that has a place changes its own bytes and the marked bitmap bytes of that block and no other byte of the file |
| Image.Image.PhysicalRead | devio/devio.c:311-318 | a read delivers the bytes up to the end of the file or fails, always so at a negative offset |
| Image.Image.PhysicalWrite | devio/devio.c:320-327 | a write replaces or extends the file by all its bytes, or fails and changes nothing, always so at a negative offset |
| Image.Image.ReadEntry | devio/devio.c:746-755 | the BAT entry of a block in host order |
| Image.Image.ReadBlock | devio/devio.c:757-776 | the part of a read in one block delivers the disk's bytes, zeros for an absent block and behind the end of the file |
| Image.Image.VhdRead | devio/devio.c:721-790 | on every file that holds a BAT, well formed or not, a read on the disk that does not fail fills exactly its part of the buffer with the bytes of the flat disk; on a well-formed file it returns its size; one that the range check rejects returns 0 and touches nothing; any other ends inside its part of the buffer |
| Image.Image.AddBlock | devio/devio.c:880-937 | the block is added as a whole, or nothing changed, or only its BAT entry was written |
| Image.Image.LocateBlock | devio/devio.c:825-937 | after it the block of a nonempty piece has a place; only an empty request takes the branch meant for zero data |
| Image.Image.StorePiece | devio/devio.c:939-969 | data and bitmap bytes are written at the block, or a failure leaves at most the data |
| Image.Image.WriteBlock | devio/devio.c:825-969 | a piece is written as a whole or leaves a prefix |
| Image.Image.VhdWrite | devio/devio.c:792-983 | on the disk of a well-formed file a complete request makes the change of WriteSpan and of the flat disk and returns its size; a failed one leaves a well-formed file with a prefix of the data on the disk, unless the new block itself was torn; one that the range check rejects returns 0 and changes nothing; one that it lets through wrongly is stored where the four bytes taken for a BAT entry say |
| BigEndian.GetBigEndian64 | devio/devio.c:212-221 | the loop combines sign-extended bytes |
| BigEndian.CombinedAt | devio/devio.c:212-221 | a byte of the result is FFh if a later stored byte is negative, else its own |
| BigEndian.DecodesBigEndian | devio/devio.c:212-221 | the stored number comes out if and only if every byte is below 80h or has only FFh bytes before it |
| BigEndian.EightMegabytes | devio/devio.c:1444-1445 | a disk size of 8 MiB is decoded wrongly |
| Transport.Channel.SafeRead | devio/safeio.c:33-58 | under any pattern of short reads it takes exactly the next size bytes off the stream, and on a working stream it fails only when there are fewer |
| Transport.Channel.SafeWrite | devio/safeio.c:60-85 | under any pattern of short writes it sends all the bytes, or a prefix when the descriptor fails |
| Protocol.ParseOne | devio/devio.c:2205-2236 | a request is taken only if it is whole, and a write only if it fits the buffer |
| Protocol.ParseEncoded | devio/devio.c:1010-1015 | exactly the bytes of one request are taken off the stream, whatever follows |
| Protocol.ServeSession | devio/devio.c:2205-2236 | a session of any length gets one response per request, in order, and ends with the code of whatever comes next that ends the loop: the close request, the end of the stream, a request cut short, a write that is too large |
| Protocol.ServeIs | devio/devio.c:2205-2236 | on any stream of bytes the flat-disk server answers exactly the requests taken off it, which do not depend on the disk |
| Protocol.AnswersFit | devio/devio.c:1003-1167 | the answers of the flat-disk server have the form the client expects of each request; writes are refused with error 9 exactly when bit 0 of the flags is set, unknown requests with error 19 |
| Protocol.ResponsesAreFramed | devio/devio.c:1045-1077 | a client that knows its requests cuts any responses of the expected form, failures included, into exactly one for each request, the length field of a read giving the number of data bytes |
| Protocol.ReadAfterWrite | devio/devio.c:1003-1167 | after a completed write a read sees its data where it was put and the old disk elsewhere |
| Protocol.DiskRead | devio/devio.c:1028-1046 | a read request delivers the disk's bytes and zeros where there are none |
| Protocol.RequestsEncodable | devio/devio.c:1010-1015 | every request that is taken off a stream is one that a client can send |
| Wire.RequestBytes | inc/imdproxy.h:57-70 | on the bytes of the stream, request codes 1, 2, 3 and 5 are information, read, write and close, with offset and length at 8 and 16, and all other codes are unknown requests |
| Wire.ResponseBytes | inc/imdproxy.h:89-118 | where the fields of the four responses are: size, alignment and flags; error number and length |
| Wire.InfoTellsReadOnly | devio/devio.c:1109-1114 | a client can tell from byte 16 of the information response: if it is odd every write is answered with error 9 and length 0 and changes nothing, if it is even a write on the disk is done in full |
| Wire.AnswersAt | devio/devio.c:2205-2236 | each response is the answer in the state that the requests before it have left |
| Wire.ReadsLastWritten | devio/devio.c:1003-1167 | over every run of requests each byte that a read delivers is the one that the last write over its position has put there, or that of the original disk, or 0 outside it; the read gets as many bytes as it asked for, up to 2^63 - 1 |
| Wire.BufferIsLargestRead | devio/devio.c:587-597 | after every run the buffer is as large as the largest read, or as it was, and never larger than 2^63 - 1 |
| Wire.NearIsProper | devio/devio.c:1032-1117 | no run of requests whose bytes end in front of 2^63 has one that goes astray, and refused writes may have any offset |
| Wire.WriteIsDone | devio/devio.c:1109-1134 | in a run on an image that does not fail and without bit 0 in the flags, a write on the disk that no failed write precedes is answered with error 0 and its length, and the disk then has its bytes |
| Runs.AstrayExactly | devio/devio.c:1032-1117 | over every offset and length of a client, a request goes astray if and only if the end of its span, or in a plain file its beginning, wraps around in 64 bits onto the disk |
| Runs.InFrontOfPartition | devio/devio.c:1032-1034 | a read at 2^64 less the image offset goes to the beginning of the image, where the flat disk delivers zeros |
| Runs.ExplainsNext | devio/devio.c:1119-1134 | a run goes on with a request that is answered as by a flat disk, or fails and leaves the disk with a prefix of the write, or reads elsewhere, or loses the disk by a write that goes astray or follows a torn one |
| Runs.RunGoesOn | devio/devio.c:2205-2236 | one more request handled keeps the responses in form and the run explained |
| Runs.ExplainsFlat | devio/devio.c:1003-1167 | on an image that does not fail, a run of requests that do not go astray is the run of the flat disk: the same responses and the same disk |
| Runs.ReadOnlyKeepsDisk | devio/devio.c:1109-1114 | if bit 0 of the flags is set, no run changes the disk at any point, whatever I/O fails; every write is answered with error 9 and length 0, none tears a block or loses the disk |
| Server.Server.LogicalRead | devio/devio.c:985-992 | in both modes, and on a file with a torn block, the zeroed buffer receives what the flat disk delivers, unless I/O has failed or the read goes astray |
| Server.Server.LogicalWrite | devio/devio.c:994-1001 | in both modes a complete write leaves the flat disk with the data written, and its count, if and only if it does not go astray; a failed one that does not leaves the disk with a prefix written, in good order or with one torn block |
| Server.Server.SendInfo | devio/devio.c:685-699 | the response to an info request |
| Server.Server.SendFailed | devio/devio.c:701-718 | an unknown request is answered with ENODEV and never ends the loop |
| Server.Server.ReadData | devio/devio.c:1003-1078 | a read request is taken whole, answered once with the data or with an error number and no data, and may enlarge the buffer up to its largest size; nothing else changes |
| Server.Server.WriteData | devio/devio.c:1080-1167 | a write request is taken whole with its payload and answered once, with its count or with an error number and -1; if bit 0 of the flags is set the answer is error 9 and length 0, and no byte of the image file changes |
| Server.Server.DoComm | devio/devio.c:2074-2237 | on a working transport every request of the stream gets exactly one response of its form, whatever the image does, and the client cuts the output into exactly these; until a write goes astray or follows a torn one, each request is answered as by a flat disk, or fails with a prefix written, or reads elsewhere; on an image that does not fail and without requests that go astray, output, final disk and return value are those of the flat-disk server; with bit 0 in the flags every byte of the image file stays and every write is answered with error 9 and length 0 |
| Partitions.ChainBound | cpl/drvio.c:539-618 | the partitions of a finite EBR chain do not depend on the bound on its length |
| Partitions.PartitionsBound | cpl/drvio.c:508-632 | the partitions of an image do not depend on the bound on its chains |
| Partitions.ChainNumbers | cpl/drvio.c:595-604 | logical partitions are numbered consecutively through a chain |
| Partitions.PartitionNumbers | cpl/drvio.c:595-632 | all partitions are numbered 1, 2, 3 and so on in the order of delivery |
| Partitions.TablesExactly | cpl/drvio.c:492-501 | a sector holds a partition table if and only if it can be read whole, has the bytes 55h AAh behind the four entries and no flag bit but the top one in any entry; in the first sector the table is at byte 446, in an EBR at the end of the sector |
| Partitions.EntryFields | inc/imdisk.h:327-337 | where flag, type, first sector and number of sectors are in the bytes of an entry |
| Partitions.EntryContributes | cpl/drvio.c:525-632 | by its type byte, an MBR entry of type 0 contributes nothing, one of type 05h or 0Fh exactly its chain, and one of any other type exactly itself |
| Partitions.FourEntries | cpl/drvio.c:508-632 | the partitions of an image are what its four entries contribute, in order, numbered from 1 |
| Partitions.EbrEntry | cpl/drvio.c:566-617 | the first EBR entry of type 05h or 0Fh is the link, relative to the first EBR; entries before it of any other type but 0 are partitions, relative to this EBR |
| Partitions.WalkEbr | cpl/drvio.c:566-617 | one EBR delivers its partitions in order, relative to itself, up to its first link, which is relative to the first EBR |
| Partitions.WalkChain | cpl/drvio.c:531-618 | every finite chain is walked to its end, each EBR once, until the callback stops it |
| Chains.ChainEndsExactly | cpl/drvio.c:543-618 | a chain ends if and only if no EBR comes again, and then within as many links as the image has sectors |
| Chains.WalkableExactly | cpl/drvio.c:508-632 | an image can be walked to its end if and only if no chain of its table comes back to where it was |
| Partitions.MbrTypes | cpl/drvio.c:595-632 | no partition is delivered with a type byte of 00h, 05h or 0Fh |
| Partitions.Walk | cpl/drvio.c:460-633 | on every image with finite chains the walk ends and the callback sees exactly the listed partitions in order until it cancels; an image without a table is an error |
| Partitions.DeliverMore | cpl/drvio.c:606-630 | delivering two lists in a row is delivering the first and, unless cancelled, the second |
| Partitions.ArrayDelivery | cpl/drvio.c:641-653 | the array callback stores exactly as many partitions as there is room for and cancels at the last |
| Partitions.GetPartitions | cpl/drvio.c:671-686 | the eight entries hold the first min(8, n) partitions and zeros, and success means fewer than eight |
| Partitions.SingleDelivery | cpl/drvio.c:655-669 | the single callback stops at exactly the partition with the wanted number |
| Partitions.GetSinglePartition | cpl/drvio.c:689-714 | partition k is found if and only if the list has at least k entries and is its k-th, k being compared as a DWORD so that no negative number is found; number 0 succeeds only without a table |
| Offsets.ChainMoved | cpl/drvio.c:531-618 | the chain of a disk inside an image has the partitions of the chain of that disk alone, moved by the offset |
| Offsets.OffsetCounted | cpl/drvio.c:508-542 | the walk at an offset finds the partitions of the disk that begins there, in order, and places them where they lie in the image if and only if the offset is 0 or none of them is primary |
| Offsets.OffsetNotCounted | cpl/drvio.c:510-512 | a primary partition in sector 1 of a disk at byte 512 is reported at byte 512, where its own table lies |
| Finder.ScanEbrMeans | devio/devio.c:1672-1706 | devio's scan of an EBR counts and finds the library's partitions of that EBR |
| Finder.SearchChainMeans | devio/devio.c:1646-1707 | devio's search of a chain finds the library's partition, or ends at the last EBR with all counted |
| Finder.SearchTypes | devio/devio.c:1627-1724 | by its type byte, an MBR entry of type 0 is skipped, one of type 05h or 0Fh has its chain searched, and any other is counted as a partition |
| Finder.ScanTypes | devio/devio.c:1672-1706 | the same of an EBR entry, where type 05h or 0Fh is the link relative to the first EBR |
| Finder.SearchMisses | devio/devio.c:1627-1724 | entries without the wanted partition keep the size and leave image_offset at the last EBR of the last extended partition |
| Finder.HolderHolds | devio/devio.c:1627-1724 | every partition of the list is held by one entry of the MBR, with the partitions of the entries before it counted |
| Finder.SearchHits | devio/devio.c:1627-1724 | entries with the wanted partition give its length, and its start unless extended partitions follow the entry that holds it |
| Finder.FindersAgree | devio/devio.c:1607-1733 | for a partition the library finds, devio always has its length, and has its start if and only if the entry that holds it is primary, or no extended partition follows that entry, or the last EBR of the last of those happens to be that start |
| Finder.MissingAccepted | devio/devio.c:1726-1733 | for a number behind the last partition devio keeps the size and takes it if and only if it fits behind the last EBR: with the size of the disk, if and only if the offset is still 0 |
| Finder.OutcomesAgree | devio/devio.c:1607-1733 | for every number on every image with a table, the exact condition under which devio and the library find the same bytes or both fail |
| Finder.FindersAgreeWithOneContainer | devio/devio.c:1607-1733 | with at most one extended partition both finders have start and length of every partition, devio takes it if and only if it is not empty and inside the disk, and takes a missing one if and only if the offset is still 0 |
| Finder.FindersDisagree | devio/devio.c:1636-1707 | an image with two extended partitions on which devio takes other bytes than the library finds |
| Finder.WholeImageTaken | devio/devio.c:1726-1733 | an image with an empty table, of which devio takes the whole for partition 1 while the library fails |
| Finder.ScanEbrLoop | devio/devio.c:1670-1706 | the loop over the entries of an EBR |
| Finder.SearchChainLoop | devio/devio.c:1638-1707 | the loop over a chain ends on every finite chain |
| Finder.FindPartition | devio/devio.c:1607-1737 | the search of main computes DevioFind and accepts what it found exactly when there is no table, or it is not empty and lies inside the disk |
| Mbr.PackedBytes | cpl/drvio.c:3074-3078 | the packed value stores head, sector with the high cylinder bits, low cylinder bits and a zero byte, and unpacks to the address |
| Mbr.AddressOfLinear | cpl/drvio.c:3049-3062 | taking the sector number of an address apart gives the address |
| Mbr.LbaRoundTrip | cpl/drvio.c:3025-3079 | for 1 to 256 heads and 1 to 63 sectors every sector number below 1024 cylinders survives LBA to CHS to LBA |
| Mbr.ChsRoundTrip | cpl/drvio.c:3025-3079 | every valid CHS address survives CHS to LBA to CHS |
| Mbr.LbaSaturates | cpl/drvio.c:3064-3072 | every larger sector number becomes the bytes FEh FFh FFh |
| Mbr.FitsExactly | cpl/drvio.c:2986-2995 | a partition is accepted if and only if its first sector, its last sector and the number of its sectors are below 2^32, and it begins and counts at most less than a sector below 0; then first and last sector are quotients of start and of start plus length, less one |
| Mbr.ChsIsDword | cpl/drvio.c:3025-3035 | for every geometry and any three bytes the sector number is the linear one in DWORD arithmetic |
| Mbr.StoreEntry | cpl/drvio.c:2997-3017 | the overlapping stores leave exactly the sixteen bytes of the entry and nothing else changed |
| Mbr.BuildMBR | cpl/drvio.c:2954-3021 | success if and only if the buffer is large enough, there are at most four partitions and for each of them first sector, last sector and number of sectors are below 2^32; then the sector is boot code, the complete table and the signature, and the rest of the buffer is untouched; a failure leaves the entries before the first that does not fit; without partitions no geometry is needed |
| Mbr.EntryParses | inc/imdisk.h:327-337 | parsing an entry gives back flag, type and sector numbers |
| Mbr.EntryChs | cpl/drvio.c:3001-3010 | the CHS fields of an entry convert back to its first sector and to its first sector plus its number of sectors less one |
| Mbr.EntryEnds | cpl/drvio.c:2988-3010 | for an aligned nonempty partition whose last sector CHS can express, the sector after the end address of its entry begins where the partition ends |
| Mbr.TableParses | inc/imdisk.h:339-343 | every entry of the built table parses to its partition, the unused ones to none |
| Mbr.TableIsTable | cpl/drvio.c:492-501 | the built sector passes the walker's test for a partition table |
| Mbr.BuildThenWalk | cpl/drvio.c:2954-3021 | walking an image that starts with the built table reports the same starts, lengths, types and boot flags in order, numbered from 1 |
| Mbr.BuildThenWalkExactly | cpl/drvio.c:2954-3021 | of partitions that fit, the walk reports exactly the given ones if and only if every start and length is aligned and not negative and every type is neither 0 nor extended |
| Text.TrimQuoted | ImDiskGui/MainWindow.xaml.cs:1059-1060 | trimming quotes takes off the outer quotes and nothing else of a string without quotes at its ends |
| Text.SplitJoin | ImDiskGui/MainWindow.xaml.cs:1051 | splitting at a separator recovers pieces that do not contain it |
| Text.SplitFirstAt | ImDiskGui/MainWindow.xaml.cs:1056 | splitting in two at the first colon recovers name and value |
| Text.SplitPairAt | ImDiskGui/MainWindow.xaml.cs:1045 | splitting at a brace and comma recovers a piece without that pair |
| Text.UnescapeEscape | ImDiskGui/MainWindow.xaml.cs:1020 | halving doubled backslashes restores any string |
| Text.UnescapeKeeps | ImDiskGui/MainWindow.xaml.cs:1060 | halving keeps a string as it is if and only if it has no two backslashes in a row |
| Text.ParsePrintInt | ImDiskGui/MainWindow.xaml.cs:1064-1072 | parsing a printed integer gives it back |
| Config.Serialize | ImDiskGui/MainWindow.xaml.cs:1009-1030 | the loop writes the text of the list |
| Config.Deserialize | ImDiskGui/MainWindow.xaml.cs:1032-1085 | the loops read the list of a text, none at all after any failed conversion |
| Config.ReadCarried | ImDiskGui/MainWindow.xaml.cs:1048-1078 | whatever the text, every disk read has numbers in the range of their fields, a drive letter other than comma and quote, and strings without commas and without quotes at their ends |
| Config.DiskReads | ImDiskGui/MainWindow.xaml.cs:1052-1078 | the eight written properties of a disk set its eight fields |
| Config.CarriedComeBack | ImDiskGui/MainWindow.xaml.cs:1009-1085 | every list of disks that the format can carry comes back in order, null strings empty, with the backslashes of file system names halved |
| Config.RoundTrip | ImDiskGui/MainWindow.xaml.cs:1009-1085 | reading what was written restores every field of every disk if and only if each drive letter is no comma or quote, path and file system name have no comma and no quote at either end, and the file system name has no two backslashes in a row |
| Forms.PrintedDisk | ImDiskGui/MainWindow.xaml.cs:1016-1025 | the text of a disk, name by name |
| Forms.ParseIntExactly | ImDiskGui/MainWindow.xaml.cs:1064-1072 | a number is taken if and only if it is an optional sign and decimal digits with blanks around, and has that value |
| Forms.PrintedDecimal | ImDiskGui/MainWindow.xaml.cs:1017 | numbers are written in base ten without leading zeros, negative ones with a sign |
| Forms.ParseBoolExactly | ImDiskGui/MainWindow.xaml.cs:1069-1070 | a truth value is taken if and only if it is true or false in any case with white space around |
| Forms.NameExactly | ImDiskGui/MainWindow.xaml.cs:1059-1060 | names and values are what is left after white space and then quotes at both ends, values with halved backslashes |
| Forms.AssignExactly | ImDiskGui/MainWindow.xaml.cs:1062-1074 | each name sets its own field; exactly a number or truth value that is none or out of range, and an empty drive letter, are refused; a bad interval and an unknown name change nothing |
| Forms.BadExactly | ImDiskGui/MainWindow.xaml.cs:1056-1074 | a property fails, whatever came before it, if and only if it has a colon and its name and value are refused; without a colon it is ignored |
| Forms.ReadAllOrNone | ImDiskGui/MainWindow.xaml.cs:1032-1084 | a text yields one disk for each of its objects if none of their properties fails, and no disk at all otherwise |
| Forms.CleanExactly | ImDiskGui/MainWindow.xaml.cs:1050 | white space around an object and then its braces are taken off |
| Forms.BracketsExactly | ImDiskGui/MainWindow.xaml.cs:1039-1043 | one pair of brackets is taken off the text, and nothing else |
| Forms.NonEmptyExactly | ImDiskGui/MainWindow.xaml.cs:1045 | empty pieces are left out and the others kept in order |
| Forms.ObjectsExactly | ImDiskGui/MainWindow.xaml.cs:1039-1045 | the objects of a list in brackets are the pieces between brace-comma pairs that are not empty |
| Forms.ReadPadded | ImDiskGui/MainWindow.xaml.cs:1036 | white space around the text does not matter |
| Forms.EmptyObject | ImDiskGui/MainWindow.xaml.cs:1053 | an object without properties is a disk without a number, a letter, a size or strings |
| Registry.NamesDiffer | inc/imdisk.h:92-98 | no two value names of fields and device numbers collide, nor with the counter |
| Registry.Parameters.SaveSettings | cpl/drvio.c:3180-3424 | the key becomes that of Save and the number is reported: an explicit one as it was given; an automatic one, if all devices were below the counter, is one of which the key held no value, and every value of every device that was there is kept |
| Registry.Parameters.RemoveSettings | cpl/drvio.c:3430-3551 | fails without a counter, else the key becomes that of Remove |
| Registry.SaveAt | cpl/drvio.c:3243-3418 | a save stores its own fields and counter and leaves every value of every other device |
| Registry.SavedValues | cpl/drvio.c:3243-3418 | which value of which type is stored under which name for every field, and which fields are left out |
| Registry.CounterMoves | cpl/drvio.c:3210-3233 | what a save and a remove make of the counter, in plain numbers |
| Registry.AutoSaveKeeps | cpl/drvio.c:3210-3218 | if all devices are below the counter, an automatic save takes the counter as its number, of which there was no value, and keeps all others |
| Registry.RemoveAt | cpl/drvio.c:3467-3545 | a remove drops exactly the fields of its device and lowers the counter only for the last one |
| Registry.SaveKeepsBelow | cpl/drvio.c:3210-3233 | a save keeps every saved device below the counter if and only if it does not ask for a number at the last DWORD |
| Registry.RemoveKeepsBelow | cpl/drvio.c:3467-3486 | a remove keeps every saved device below the counter |
| Registry.RunKeepsBelow | cpl/drvio.c:3180-3551 | after every run of saves and removes all devices are below the counter and the next automatic number is free |
| Registry.EverySaveKeeps | cpl/drvio.c:3180-3551 | every automatic save within a run of saves and removes takes a number that is not in use and keeps every value that was there |
| Registry.SaveThenDecode | sys/imdisk.cpp:643-876 | the driver restores what was saved if and only if the name has no NUL and fits and size and offset are not negative; all other devices are as they were |
| SafeRead.ReadSome | sys/commonio.cpp:81-143 | the retry loop ends, never lets the request reach zero or exceed the buffer, and yields bytes of the file or the reason why there are none |
| SafeRead.ImDiskSafeReadFile | sys/commonio.cpp:46-189 | under any pattern of short reads, rejections and failed allocations it ends; the caller's buffer holds the file from the offset on up to what was done and is otherwise unchanged; it succeeds, with all bytes, if and only if no answer was empty, failed or rejected below 2048 bytes and no allocation failed, and otherwise ends at the first of these with its status; the next request is always for the rest, up to 8 MiB, or for a quarter after a rejection |
| SaveImage.ImDiskSaveImageFile | cpl/drvio.c:2707-2806 | under any short reads and writes it ends; the file holds a prefix of the device without a gap; it succeeds if and only if no read failed, no write failed or came back short and the flag to cancel was not found set; success means every byte read was written, and a complete copy if and only if the device never answered a request for more with no bytes; the modified flag is cleared only then; every request is for a whole buffer or for the rest |
| Floppy.FormatMemory | sys/floppy.cpp:72-96 | exactly the bytes of the range become the fill byte |
| Floppy.ImageFile.FormatTracks | sys/floppy.cpp:98-145 | the loop fills whole tracks from the start of the range, all of them if and only if no write failed |
| Floppy.TracksFollow | sys/floppy.cpp:76-82 | one head on is one track on, and one cylinder on is as many tracks on as there are heads |
| Floppy.BothEndsFilled | sys/floppy.cpp:98-145 | a range that runs forwards is filled from its first track through its last |
| Floppy.SameRange | sys/floppy.cpp:72-145 | start and length of the two fills are the same if and only if the range runs forwards and ends below 4 GiB |
| Floppy.SameBytes | sys/floppy.cpp:72-145 | both paths leave the same bytes on every image if the range runs forwards and ends below 4 GiB, and only then on an image without the fill byte |

## Left out

- Windows handles, device controls, services, mount points, windows, language tables: foreign calls and user interface.
- Shared-memory and driver transports, DLL mode, TCP setup and argument parsing of devio: operating system plumbing; allocation is taken to succeed.
- cplcore/drvio.c, cplcore/mbr.c: near-identical copies of the files modelled here.
- Server.Server.DoComm: what the disk is after a write that has gone astray or has followed a torn one; only the form of the responses is stated then. Sizes have 64 bits; where they have 32, the sum in the range check is signed. Error numbers are any positive 31-bit values.
- Image.Image.PhysicalWrite: a call that stores only a part of its bytes; a physical write is complete or changes nothing.
- Image.Image.VhdWrite: of a request that the range check lets through wrongly, what happens to more than one piece or to a piece without a BAT entry. The scan of an empty request reads memory behind the buffer; it is taken to be harmless.
- VhdWrite.WritesRefine: block sizes are powers of two from 512 bytes to 2 MiB, so that the bitmap is one sector; size and table offset are those of the header, whose decoding is BigEndian.DecodesBigEndian; sector numbers of all blocks fit below FFFFFFFFh.
- Partitions.Walk: sector sizes from 1 to 511, for which the code looks for the table in memory that no read has filled; reads that fail; 64-bit overflow of offsets for enormous sectors; cyclic EBR chains (`Chains.WalkableExactly`), on which the walker does not end.
- Partitions.GetPartitions: the same sector sizes, reads and chains.
- Partitions.GetSinglePartition: the same sector sizes, reads and chains.
- Finder.FindPartition: read errors, and the option parsing around the search.
- Mbr.BuildMBR: the two variants of the boot code are any 446 bytes; geometries whose product of heads and sectors is zero in 32 bits, on which the division fails.
- Config.Deserialize: a null text; signs other than those of the invariant culture, NUL characters behind a number or around a truth value, and letters outside ASCII that compare equal to those of a truth value.
- Registry.Parameters.SaveSettings: registry calls that fail, and values of foreign types under the same names other than as absent.
- Registry.SaveThenDecode: the driver's limit on the length of names is a parameter.
- Floppy.FormatMemory: ranges that run beyond the image buffer, where the code writes to foreign memory.
- Floppy.SameRange: 32-bit builds, where the length of the memory path wraps at 4 GiB; an empty track, on which the loop does not end.
- ImDiskSafeIOStream: after repeated rejections its request length reaches 0 and nothing bounds the loop.
- ImDiskNativePathToWin32, known image formats, free drive letters, size suffixes, partition type names: would only add easy members.
- SyncEngine.cs: mostly a straight-line swap of files whose effects are foreign calls.
