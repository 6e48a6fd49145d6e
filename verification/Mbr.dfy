/** ImDiskConvertLBAToCHS, ImDiskConvertCHSToLBA and ImDiskBuildMBR of cpl/drvio.c. */
module Mbr {
  import opened Bytes
  import opened Partitions

  /** The fields of DISK_GEOMETRY that are used: 32-bit counts. */
  datatype Geometry = Geometry(heads: nat, sectors: nat, bytesPerSector: nat)

  // ---------- cylinder, head, sector ----------

  datatype Chs = Chs(cylinder: nat, head: nat, sector: nat)

  /** The address fits 10, 8 and 6 bits. */
  predicate Packable(x: Chs) {
    x.cylinder < 1024 && x.head < 256 && x.sector < 64
  }

  const SATURATED := Chs(1023, 254, 63)

  /** The products of the 32-bit counts that the code divides by. */
  predicate Divisible(g: Geometry) {
    g.sectors > 0 && g.heads * g.sectors % TWO32 != 0
  }

  function AddressOf(g: Geometry, lba: nat): (x: Chs)
    requires Divisible(g)
    ensures Packable(x)
  {
    var perCylinder := g.heads * g.sectors % TWO32;
    var temp := lba % perCylinder;
    var x := Chs(lba / perCylinder, temp / g.sectors, temp % g.sectors + 1);
    if Packable(x) then x else SATURATED
  }

  /** head | sector << 8 | (cylinder & FFh) << 16 | (cylinder & 300h) << 6, whose bits do not overlap. */
  function Pack(x: Chs): (v: nat)
    requires Packable(x)
    ensures v < 0x100_0000
  {
    x.head + 0x100 * x.sector + 0x1_0000 * (x.cylinder % 0x100) + 0x4000 * (x.cylinder / 0x100)
  }

  function Unpack(b: seq<byte>): (x: Chs)
    requires |b| >= 3
    ensures Packable(x)
  {
    var middle: int := b[1];
    Chs(0x100 * (middle / 0x40) + b[2], b[0], middle % 0x40)
  }

  function ConvertLBAToCHS(g: Geometry, lba: nat): nat
    requires Divisible(g)
  {
    Pack(AddressOf(g, lba))
  }

  function ConvertCHSToLBA(g: Geometry, b: seq<byte>): nat
    requires |b| >= 3
  {
    var x := Unpack(b);
    ((x.cylinder * g.heads + x.head) * g.sectors + x.sector - 1) % TWO32
  }

  /** The three bytes that the stored value leaves in a partition entry. */
  function ChsBytes(x: Chs): (b: seq<byte>)
    requires Packable(x)
    ensures |b| == 3
  {
    [x.head, x.sector + 0x40 * (x.cylinder / 0x100), x.cylinder % 0x100]
  }

  lemma LeByte(b: nat, w: nat, n: nat)
    requires b < 256
    ensures Le(b + 256 * w, n + 1) == [b as byte] + Le(w, n)
  {
    assert (b + 256 * w) % 256 == b && (b + 256 * w) / 256 == w;
  }

  lemma PackedBytes(x: Chs)
    requires Packable(x)
    ensures Le(Pack(x), 4) == ChsBytes(x) + [0]
    ensures Unpack(ChsBytes(x)) == x
  {
    PackedLe(x);
    var hi, lo := x.cylinder / 0x100, x.cylinder % 0x100;
    assert (x.sector + 0x40 * hi) / 0x40 == hi && (x.sector + 0x40 * hi) % 0x40 == x.sector;
  }

  lemma PackedLe(x: Chs)
    requires Packable(x)
    ensures Le(Pack(x), 4) == ChsBytes(x) + [0]
  {
    hide Le;
    var hi, lo := x.cylinder / 0x100, x.cylinder % 0x100;
    var middle := x.sector + 0x40 * hi;
    assert Pack(x) == x.head + 256 * (middle + 256 * lo);
    LeByte(x.head, middle + 256 * lo, 3);
    LeByte(middle, lo, 2);
    LeByte(lo, 0, 1);
    LeByte(0, 0, 0);
    LeNothing(0);
  }

  lemma LeNothing(v: nat)
    ensures Le(v, 0) == []
  {
  }

  lemma UnpackedBytes(b: seq<byte>)
    requires |b| == 3
    ensures ChsBytes(Unpack(b)) == b
  {
  }

  predicate Ordinary(g: Geometry) {
    1 <= g.heads <= 256 && 1 <= g.sectors <= 63
  }

  lemma ProductBounds(g: Geometry)
    requires Ordinary(g)
    ensures 1 <= g.heads * g.sectors <= 16128
    ensures Divisible(g) && g.heads * g.sectors % TWO32 == g.heads * g.sectors
  {
    MulMono(1, g.heads, g.sectors);
    MulMono(g.heads, 256, g.sectors);
  }

  /** The sector number of a CHS address. */
  function Linear(g: Geometry, x: Chs): int {
    (x.cylinder * g.heads + x.head) * g.sectors + x.sector - 1
  }

  /** The geometry has this address. */
  predicate OnDisk(g: Geometry, x: Chs) {
    x.cylinder < 1024 && x.head < g.heads && 1 <= x.sector <= g.sectors
  }

  /** For every 32-bit geometry the sector number is the linear one in DWORD arithmetic. */
  lemma ChsIsDword(g: Geometry, b: seq<byte>)
    requires |b| >= 3
    ensures ConvertCHSToLBA(g, b) < 0x1_0000_0000
    ensures (Linear(g, Unpack(b)) - ConvertCHSToLBA(g, b)) % 0x1_0000_0000 == 0
  {
    hide Unpack;
    var x := Linear(g, Unpack(b));
    assert x == TWO32 * (x / TWO32) + x % TWO32;
  }

  lemma Distribute(c: nat, h: nat, k: nat, s: nat)
    ensures (c * h + k) * s == c * (h * s) + k * s
  {
  }

  lemma WithinCylinder(h: nat, heads: nat, s: nat, sectors: nat)
    requires h < heads && 1 <= s <= sectors
    ensures 0 <= h * sectors + s - 1 < heads * sectors
  {
    MulStep(h, heads, sectors);
  }

  lemma BelowLimit(c: nat, per: nat, temp: nat)
    requires c < 1024 && temp < per <= 16128
    ensures c * per + temp < 1024 * 16128
  {
    MulStep(c, 1024, per);
  }

  lemma LinearBound(g: Geometry, x: Chs)
    requires Ordinary(g) && OnDisk(g, x)
    ensures 0 <= Linear(g, x) < 1024 * 16128
    ensures Linear(g, x) == x.cylinder * (g.heads * g.sectors) + (x.head * g.sectors + x.sector - 1)
    ensures 0 <= x.head * g.sectors + x.sector - 1 < g.heads * g.sectors
  {
    hide Divisible;
    ProductBounds(g);
    WithinCylinder(x.head, g.heads, x.sector, g.sectors);
    BelowLimit(x.cylinder, g.heads * g.sectors, x.head * g.sectors + x.sector - 1);
    Distribute(x.cylinder, g.heads, x.head, g.sectors);
  }

  /** Taking the sector number of an address apart gives the address. */
  lemma AddressOfLinear(g: Geometry, x: Chs)
    requires Ordinary(g) && OnDisk(g, x)
    ensures Divisible(g) && Linear(g, x) >= 0 && AddressOf(g, Linear(g, x)) == x
  {
    hide Linear, Divisible;
    ProductBounds(g);
    LinearBound(g, x);
    DivModOf(x.cylinder, g.heads * g.sectors, x.head * g.sectors + x.sector - 1);
    DivModOf(x.head, g.sectors, x.sector - 1);
  }

  /** Every sector number below the limit is the sector number of an address. */
  lemma LinearOnto(g: Geometry, lba: nat) returns (x: Chs)
    requires Ordinary(g) && lba < 1024 * (g.heads * g.sectors)
    ensures OnDisk(g, x) && Linear(g, x) == lba
  {
    hide Linear;
    ProductBounds(g);
    var per := g.heads * g.sectors;
    QuotientBelow(lba, per, 1024);
    var c, temp := Divide(lba, per);
    QuotientBelow(temp, g.sectors, g.heads);
    var h, s := Divide(temp, g.sectors);
    x := Chs(c, h, s + 1);
    LinearBound(g, x);
  }

  lemma Divide(n: nat, b: nat) returns (q: nat, r: nat)
    requires b > 0
    ensures q == n / b && r == n % b && r < b && n == q * b + r
  {
    q, r := n / b, n % b;
  }

  lemma StoredAddress(g: Geometry, x: Chs)
    requires Ordinary(g) && OnDisk(g, x)
    ensures Packable(x) && ConvertCHSToLBA(g, Le(Pack(x), 4)) == ConvertCHSToLBA(g, ChsBytes(x)) == Linear(g, x)
  {
    hide Pack, Le, ChsBytes;
    PackedBytes(x);
    LinearBound(g, x);
    assert Unpack(ChsBytes(x) + [0]) == Unpack(ChsBytes(x));
  }

  /** Sector numbers that fit 1024 cylinders survive the conversion to CHS and back. */
  lemma LbaRoundTrip(g: Geometry, lba: nat)
    requires Ordinary(g) && lba < 1024 * (g.heads * g.sectors)
    ensures Divisible(g) && ConvertCHSToLBA(g, Le(ConvertLBAToCHS(g, lba), 4)) == lba
  {
    hide Linear, Pack, Le, AddressOf, ConvertCHSToLBA, Divisible;
    var x := LinearOnto(g, lba);
    AddressOfLinear(g, x);
    StoredAddress(g, x);
  }

  /** Valid CHS bytes survive the conversion to a sector number and back. */
  lemma ChsRoundTrip(g: Geometry, b: seq<byte>)
    requires Ordinary(g) && |b| == 3 && OnDisk(g, Unpack(b))
    ensures Divisible(g) && Le(ConvertLBAToCHS(g, ConvertCHSToLBA(g, b)), 4) == b + [0]
  {
    hide Linear, Pack, Le, AddressOf, ConvertCHSToLBA, Divisible, Unpack, ChsBytes;
    var x := Unpack(b);
    AddressOfLinear(g, x);
    StoredAddress(g, x);
    PackedBytes(x);
    UnpackedBytes(b);
  }

  /** Sector numbers beyond 1024 cylinders all become the bytes FEh FFh FFh. */
  lemma LbaSaturates(g: Geometry, lba: nat)
    requires Ordinary(g) && lba >= 1024 * (g.heads * g.sectors)
    ensures Divisible(g) && Le(ConvertLBAToCHS(g, lba), 4) == [0xFE, 0xFF, 0xFF, 0x00]
  {
    hide Le, Pack, Divisible;
    ProductBounds(g);
    QuotientBelow(lba, g.heads * g.sectors, 1024);
    PackedBytes(SATURATED);
  }

  // ---------- building a partition table ----------

  /** The fields of PARTITION_INFORMATION that the builder reads: 64-bit signed start and length. */
  datatype Spec = Spec(start: int, length: int, kind: byte, boot: bool)

  /** The quotient as an unsigned 64-bit value; signed division truncates toward zero. */
  function SectorCount(x: int, bytesPerSector: nat): (n: nat)
    requires bytesPerSector > 0
  {
    (if x >= 0 then x / bytesPerSector else -(-x / bytesPerSector)) % TWO64
  }

  function StartSector(g: Geometry, p: Spec): nat
    requires g.bytesPerSector > 0
  {
    SectorCount(p.start, g.bytesPerSector)
  }

  function Sectors(g: Geometry, p: Spec): nat
    requires g.bytesPerSector > 0
  {
    SectorCount(p.length, g.bytesPerSector)
  }

  function EndSector(g: Geometry, p: Spec): nat
    requires g.bytesPerSector > 0
  {
    (StartSector(g, p) + Sectors(g, p) - 1) % TWO64
  }

  /** First and last sector number and the number of sectors are 32-bit values. */
  predicate Fits(g: Geometry, p: Spec)
    requires g.bytesPerSector > 0
  {
    StartSector(g, p) < TWO32 && Sectors(g, p) < TWO32 && EndSector(g, p) < TWO32
  }

  /** Start and length are LONGLONG values. */
  predicate LongFields(p: Spec) {
    -TWO63 <= p.start < TWO63 && -TWO63 <= p.length < TWO63
  }

  /** The partition as a caller sees it: less than a sector below zero at most, and its first sector, its last
      sector and the number of its sectors are 32-bit values. */
  predicate Buildable(g: Geometry, p: Spec)
    requires g.bytesPerSector > 0
  {
    var first, count := Max(p.start, 0) / g.bytesPerSector, Max(p.length, 0) / g.bytesPerSector;
    && p.start + g.bytesPerSector > 0 && p.length + g.bytesPerSector > 0
    && first < 0x1_0000_0000 && count < 0x1_0000_0000 && 1 <= first + count <= 0x1_0000_0000
  }

  lemma QuotientSmall(x: nat, b: nat)
    requires b > 0
    ensures x / b <= x && (x / b == 0 <==> x < b)
  {
    QuotientBelow(x, b, x + 1);
    MulMono(1, b, x + 1);
    QuotientBelow(x, b, 1);
  }

  lemma CountOf(x: int, b: nat)
    requires b > 0 && -TWO63 <= x < TWO63
    ensures x + b > 0 ==> SectorCount(x, b) == Max(x, 0) / b
    ensures x + b <= 0 ==> SectorCount(x, b) >= TWO63
  {
    var q := (if x >= 0 then x else -x) / b;
    QuotientSmall(if x >= 0 then x else -x, b);
    assert x < 0 ==> Max(x, 0) / b == 0;
  }

  /** Which partitions are accepted, and the sector numbers they get. */
  lemma FitsExactly(g: Geometry, p: Spec)
    requires g.bytesPerSector > 0 && LongFields(p)
    ensures Fits(g, p) <==> Buildable(g, p)
    ensures Fits(g, p) ==>
              && StartSector(g, p) == Max(p.start, 0) / g.bytesPerSector
              && Sectors(g, p) == Max(p.length, 0) / g.bytesPerSector
              && EndSector(g, p) == StartSector(g, p) + Sectors(g, p) - 1
  {
    hide SectorCount;
    CountOf(p.start, g.bytesPerSector);
    CountOf(p.length, g.bytesPerSector);
  }

  lemma FitsAll(g: Geometry, ps: seq<Spec>)
    requires Usable(g, ps)
    ensures (forall p :: p in ps ==> LongFields(p)) ==> forall p :: p in ps ==> (Fits(g, p) <==> Buildable(g, p))
  {
    hide Fits, Buildable, LongFields, Divisible;
    forall p | p in ps && LongFields(p)
      ensures Fits(g, p) <==> Buildable(g, p)
    {
      FitsExactly(g, p);
    }
  }

  /** The sixteen bytes of an entry as section 5.2.1 of the UEFI Specification lays them out. */
  function EntryBytes(g: Geometry, p: Spec): (b: seq<byte>)
    requires g.bytesPerSector > 0 && Divisible(g)
    ensures |b| == 16
  {
    [if p.boot then 0x80 else 0]
    + ChsBytes(AddressOf(g, StartSector(g, p))) + [p.kind]
    + ChsBytes(AddressOf(g, EndSector(g, p)))
    + Le(StartSector(g, p), 4) + Le(Sectors(g, p), 4)
  }

  /** The geometry is divided by as soon as there is a partition. */
  predicate Usable(g: Geometry, ps: seq<Spec>) {
    ps != [] ==> g.bytesPerSector > 0 && Divisible(g)
  }

  function Entries(g: Geometry, ps: seq<Spec>): (b: seq<byte>)
    requires Usable(g, ps)
    ensures |b| == 16 * |ps|
  {
    if ps == [] then [] else Entries(g, ps[..|ps| - 1]) + EntryBytes(g, ps[|ps| - 1])
  }

  const BOOT_SIZE := 446

  /** Boot code, entries, empty entries and the signature. */
  function Table(boot: seq<byte>, g: Geometry, ps: seq<Spec>): (b: seq<byte>)
    requires |boot| == BOOT_SIZE && |ps| <= 4 && Usable(g, ps)
    ensures |b| == 512
  {
    boot + Entries(g, ps) + Zeros(64 - 16 * |ps|) + [0x55, 0xAA]
  }

  /** *(LPDWORD)p = v */
  method StoreDword(a: array<byte>, at: nat, v: nat)
    requires at + 4 <= a.Length
    modifies a
    ensures forall k :: 0 <= k < a.Length ==> a[k] == if at <= k < at + 4 then Le(v, 4)[k - at] else old(a[k])
  {
    var b := Le(v, 4);
    forall k | 0 <= k < 4 {
      a[at + k] := b[k];
    }
  }

  /** The stores into one entry, each of which but the last two spills into the byte behind it. */
  method StoreEntry(mbr: array<byte>, e: nat, g: Geometry, p: Spec)
    requires e + 16 <= mbr.Length && mbr[e] == 0 && g.bytesPerSector > 0 && Divisible(g)
    modifies mbr
    ensures mbr[..] == old(mbr[..e]) + EntryBytes(g, p) + old(mbr[e + 16..])
  {
    hide Le, Pack, AddressOf, ChsBytes, StartSector, EndSector, Sectors, Divisible, EntryBytes;
    EntryLayout(g, p);
    if p.boot {
      mbr[e] := 0x80;
    }
    StoreDword(mbr, e + 1, ConvertLBAToCHS(g, StartSector(g, p)));
    mbr[e + 4] := p.kind;
    StoreDword(mbr, e + 5, ConvertLBAToCHS(g, EndSector(g, p)));
    StoreDword(mbr, e + 8, StartSector(g, p));
    StoreDword(mbr, e + 12, Sectors(g, p));
    assert forall k :: 0 <= k < 16 ==> mbr[e + k] == EntryBytes(g, p)[k];
    assert mbr[e..e + 16] == EntryBytes(g, p);
    assert mbr[..e] == old(mbr[..e]) && mbr[e + 16..] == old(mbr[e + 16..]);
    assert mbr[..] == mbr[..e] + mbr[e..e + 16] + mbr[e + 16..];
  }

  /** Which stored value each byte of an entry belongs to. */
  lemma EntryLayout(g: Geometry, p: Spec)
    requires g.bytesPerSector > 0 && Divisible(g)
    ensures var b := EntryBytes(g, p);
            && b[0] == (if p.boot then 0x80 else 0) && b[4] == p.kind
            && (forall k :: 1 <= k < 4 ==> b[k] == Le(ConvertLBAToCHS(g, StartSector(g, p)), 4)[k - 1])
            && (forall k :: 5 <= k < 8 ==> b[k] == Le(ConvertLBAToCHS(g, EndSector(g, p)), 4)[k - 5])
            && (forall k :: 8 <= k < 12 ==> b[k] == Le(StartSector(g, p), 4)[k - 8])
            && (forall k :: 12 <= k < 16 ==> b[k] == Le(Sectors(g, p), 4)[k - 12])
  {
    hide Le, Pack, AddressOf, ChsBytes, StartSector, EndSector, Sectors, Divisible;
    PackedBytes(AddressOf(g, StartSector(g, p)));
    PackedBytes(AddressOf(g, EndSector(g, p)));
  }

  datatype BuildError = Built | InsufficientBuffer | InvalidParameter

  /** ImDiskBuildMBR. The table is complete exactly when the buffer is large enough, there are at most four
      partitions and all of them fit; a failure leaves the entries before the one that does not. */
  method BuildMBR(boot: seq<byte>, g: Geometry, ps: seq<Spec>, mbr: array<byte>) returns (ok: bool, error: BuildError)
    requires |boot| == BOOT_SIZE && (512 <= mbr.Length && |ps| <= 4 ==> Usable(g, ps))
    modifies mbr
    ensures ok <==> 512 <= mbr.Length && |ps| <= 4 && forall p :: p in ps ==> Fits(g, p)
    ensures (forall p :: p in ps ==> LongFields(p)) ==>
              (ok <==> 512 <= mbr.Length && |ps| <= 4 && forall p :: p in ps ==> Buildable(g, p))
    ensures ok ==> mbr[..446] == boot && mbr[510] == 0x55 && mbr[511] == 0xAA
    ensures ok ==> error == Built && mbr[..] == Table(boot, g, ps) + old(mbr[..])[512..]
    ensures mbr.Length < 512 ==> error == InsufficientBuffer && mbr[..] == old(mbr[..])
    ensures mbr.Length >= 512 && |ps| > 4 ==> error == InvalidParameter && mbr[..] == old(mbr[..])
    ensures !ok && mbr.Length >= 512 && |ps| <= 4 ==>
              error == InvalidParameter &&
              exists i :: 0 <= i < |ps| && !Fits(g, ps[i]) &&
                          mbr[..] == Table(boot, g, ps[..i]) + old(mbr[..])[512..]
  {
    hide EntryBytes, Fits, Divisible, Buildable;
    if 512 <= mbr.Length && |ps| <= 4 {
      FitsAll(g, ps);
    }
    if mbr.Length < 512 {
      return false, InsufficientBuffer;
    }
    if |ps| > 4 {
      return false, InvalidParameter;
    }
    ghost var tail := mbr[512..];
    var initial := boot + Zeros(64) + [0x55, 0xAA];
    forall k | 0 <= k < 512 {
      mbr[k] := initial[k];
    }
    assert ps[..0] == [];
    var i: nat := 0;
    while i < |ps|
      invariant i <= |ps| && forall k :: 0 <= k < i ==> Fits(g, ps[k])
      invariant mbr[..] == Table(boot, g, ps[..i]) + tail
    {
      if !Fits(g, ps[i]) {
        return false, InvalidParameter;
      }
      TableNext(boot, g, ps, i, tail);
      StoreEntry(mbr, BOOT_SIZE + 16 * i, g, ps[i]);
      i := i + 1;
    }
    assert ps[..i] == ps;
    ok, error := true, Built;
  }

  lemma TableNext(boot: seq<byte>, g: Geometry, ps: seq<Spec>, i: nat, tail: seq<byte>)
    requires |boot| == BOOT_SIZE && i < |ps| <= 4 && g.bytesPerSector > 0 && Divisible(g)
    ensures var e, was := BOOT_SIZE + 16 * i, Table(boot, g, ps[..i]) + tail;
            was[e] == 0 && Table(boot, g, ps[..i + 1]) + tail == was[..e] + EntryBytes(g, ps[i]) + was[e + 16..]
  {
    hide EntryBytes, Divisible;
    assert ps[..i + 1][..i] == ps[..i];
    var e, was := BOOT_SIZE + 16 * i, Table(boot, g, ps[..i]) + tail;
    assert was[..e] == boot + Entries(g, ps[..i]);
    assert was[e + 16..] == Zeros(64 - 16 * (i + 1)) + [0x55, 0xAA] + tail;
  }

  // ---------- what the walker makes of the table ----------

  /** A partition the table can express: aligned, inside 32-bit sector numbers, of an ordinary type. */
  predicate Expressible(g: Geometry, p: Spec)
    requires g.bytesPerSector > 0
  {
    && 0 <= p.start < TWO63 && 0 <= p.length < TWO63
    && p.start % g.bytesPerSector == 0 && p.length % g.bytesPerSector == 0
    && p.kind != 0 && !IsContainer(p.kind) && Fits(g, p)
  }

  /** What the walker should report for the partitions, numbered from `number`. */
  function Reports(g: Geometry, ps: seq<Spec>, number: nat): (r: seq<Info>)
    requires g.bytesPerSector > 0 && forall p :: p in ps ==> Expressible(g, p)
    ensures |r| == |ps|
  {
    if ps == [] then []
    else
      var p := ps[0];
      assert p in ps && Expressible(g, p);
      [Info(p.start, p.length, p.start / g.bytesPerSector, number, p.kind, p.boot)] + Reports(g, ps[1..], number + 1)
  }

  lemma {:induction false} EntriesAt(g: Geometry, ps: seq<Spec>, i: nat)
    requires g.bytesPerSector > 0 && Divisible(g) && i < |ps|
    ensures Entries(g, ps)[16 * i..16 * i + 16] == EntryBytes(g, ps[i])
    decreases |ps|
  {
    hide EntryBytes, Divisible;
    var n := |ps| - 1;
    var front, last := Entries(g, ps[..n]), EntryBytes(g, ps[n]);
    assert Entries(g, ps) == front + last;
    if i < n {
      EntriesAt(g, ps[..n], i);
      SliceOfFront(front, last, 16 * i, 16 * i + 16);
    } else {
      SliceOfEnd(front, last);
    }
  }

  lemma SliceOfFront(a: seq<byte>, b: seq<byte>, i: nat, j: nat)
    requires i <= j <= |a|
    ensures (a + b)[i..j] == a[i..j]
  {
    var x, y := (a + b)[i..j], a[i..j];
    assert forall k :: 0 <= k < |x| ==> x[k] == y[k];
  }

  lemma SliceOfEnd(a: seq<byte>, b: seq<byte>)
    ensures (a + b)[|a|..|a| + |b|] == b
  {
  }

  /** Parsing the sixteen bytes gives back flags, type and sector numbers: no store reaches a neighbour. */
  lemma EntryParses(g: Geometry, p: Spec, t: seq<byte>, i: nat)
    requires g.bytesPerSector > 0 && Divisible(g) && Fits(g, p) && |t| == TABLE_SIZE && i < 4
    requires t[16 * i..16 * i + 16] == EntryBytes(g, p)
    ensures EntryAt(t, i) == Entry(p.boot, 0, p.kind, StartSector(g, p), Sectors(g, p))
  {
    hide Le, FromLe, AddressOf, ChsBytes, StartSector, EndSector, Sectors, Divisible;
    var e := EntryBytes(g, p);
    Pow256Values();
    FromLeOfLe(StartSector(g, p), 4);
    FromLeOfLe(Sectors(g, p), 4);
    assert e[8..12] == Le(StartSector(g, p), 4) && e[12..16] == Le(Sectors(g, p), 4);
  }

  /** The CHS fields of an entry name its first and its last sector, as long as CHS can express them. */
  lemma EntryChs(g: Geometry, p: Spec)
    requires g.bytesPerSector > 0 && Ordinary(g)
    requires StartSector(g, p) < 1024 * (g.heads * g.sectors)
    requires 1 <= StartSector(g, p) + Sectors(g, p) <= 1024 * (g.heads * g.sectors)
    ensures Divisible(g)
    ensures ConvertCHSToLBA(g, EntryBytes(g, p)[1..4]) == StartSector(g, p)
    ensures ConvertCHSToLBA(g, EntryBytes(g, p)[5..8]) == StartSector(g, p) + Sectors(g, p) - 1
  {
    hide StartSector, Sectors, AddressOf, ConvertCHSToLBA, ChsBytes, EntryBytes, Divisible;
    ProductBounds(g);
    MulMono(g.heads * g.sectors, 16128, 1024);
    StoredSector(g, StartSector(g, p));
    StoredSector(g, StartSector(g, p) + Sectors(g, p) - 1);
    EntrySlices(g, p);
  }

  lemma StoredSector(g: Geometry, lba: nat)
    requires Ordinary(g) && lba < 1024 * (g.heads * g.sectors)
    ensures Divisible(g) && ConvertCHSToLBA(g, ChsBytes(AddressOf(g, lba))) == lba
  {
    hide Linear, AddressOf, ConvertCHSToLBA, ChsBytes, Divisible;
    var x := LinearOnto(g, lba);
    AddressOfLinear(g, x);
    StoredAddress(g, x);
  }

  lemma EntrySlices(g: Geometry, p: Spec)
    requires g.bytesPerSector > 0 && Divisible(g)
    ensures EntryBytes(g, p)[1..4] == ChsBytes(AddressOf(g, StartSector(g, p)))
    ensures EntryBytes(g, p)[5..8] == ChsBytes(AddressOf(g, EndSector(g, p)))
  {
    hide StartSector, EndSector, Sectors, AddressOf, ChsBytes, Le, Divisible;
  }

  /** The CHS fields of an aligned partition that is not empty give back where it begins and where it ends. */
  lemma EntryEnds(g: Geometry, p: Spec)
    requires g.bytesPerSector > 0 && Ordinary(g) && LongFields(p) && 0 <= p.start && 0 < p.length
    requires p.start % g.bytesPerSector == 0 && p.length % g.bytesPerSector == 0
    requires p.start + p.length <= g.bytesPerSector * (1024 * (g.heads * g.sectors))
    ensures Divisible(g)
    ensures g.bytesPerSector * ConvertCHSToLBA(g, EntryBytes(g, p)[1..4]) == p.start
    ensures g.bytesPerSector * (ConvertCHSToLBA(g, EntryBytes(g, p)[5..8]) + 1) == p.start + p.length
  {
    hide StartSector, Sectors, ConvertCHSToLBA, EntryBytes, Divisible, Fits;
    ProductBounds(g);
    AlignedCount(p.start, g.bytesPerSector);
    AlignedCount(p.length, g.bytesPerSector);
    var b, first, count, limit := g.bytesPerSector, p.start / g.bytesPerSector, p.length / g.bytesPerSector,
      1024 * (g.heads * g.sectors);
    assert StartSector(g, p) == first && Sectors(g, p) == count by { SectorsAre(g, p); }
    assert b * (first + count) == p.start + p.length;
    MulStep(limit, first + count, b);
    assert b * 0 == 0;
    EntryChs(g, p);
    assert b * (first + count) == b * (first + count - 1 + 1);
  }

  lemma SectorsAre(g: Geometry, p: Spec)
    requires g.bytesPerSector > 0
    ensures StartSector(g, p) == SectorCount(p.start, g.bytesPerSector)
    ensures Sectors(g, p) == SectorCount(p.length, g.bytesPerSector)
  {
  }

  lemma EmptyEntry(t: seq<byte>, i: nat)
    requires |t| == TABLE_SIZE && i < 4 && t[16 * i..16 * i + 16] == Zeros(16)
    ensures EntryAt(t, i).kind == 0 && EntryAt(t, i).zero == 0
  {
    hide FromLe;
  }

  /** The partition table inside the built sector. */
  lemma TableParses(boot: seq<byte>, g: Geometry, ps: seq<Spec>, i: nat)
    requires |boot| == BOOT_SIZE && |ps| <= 4 && g.bytesPerSector > 0 && Divisible(g) && i < 4
    requires forall p :: p in ps ==> Fits(g, p)
    ensures var e := EntryAt(Table(boot, g, ps)[446..], i);
            && e.zero == 0
            && if i < |ps| then e == Entry(ps[i].boot, 0, ps[i].kind, StartSector(g, ps[i]), Sectors(g, ps[i]))
               else e.kind == 0
  {
    hide EntryBytes, Divisible, Fits, EntryAt, StartSector, Sectors;
    var t := Table(boot, g, ps)[446..];
    assert t == Entries(g, ps) + Zeros(64 - 16 * |ps|) + [0x55, 0xAA];
    if i < |ps| {
      EntriesAt(g, ps, i);
      assert t[16 * i..16 * i + 16] == Entries(g, ps)[16 * i..16 * i + 16];
      EntryParses(g, ps[i], t, i);
    } else {
      assert t[16 * i..16 * i + 16] == Zeros(16);
      EmptyEntry(t, i);
    }
  }

  lemma TableIsTable(boot: seq<byte>, g: Geometry, ps: seq<Spec>)
    requires |boot| == BOOT_SIZE && |ps| <= 4 && g.bytesPerSector > 0 && Divisible(g)
    requires forall p :: p in ps ==> Fits(g, p)
    ensures IsTable(Table(boot, g, ps)[446..])
  {
    hide EntryAt, Fits, Divisible, StartSector, Sectors;
    TableParses(boot, g, ps, 0);
    TableParses(boot, g, ps, 1);
    TableParses(boot, g, ps, 2);
    TableParses(boot, g, ps, 3);
    var t := Table(boot, g, ps)[446..];
    assert t == Entries(g, ps) + Zeros(64 - 16 * |ps|) + [0x55, 0xAA];
  }

  lemma AlignedCount(x: nat, b: nat)
    requires b > 0 && x < TWO63 && x % b == 0
    ensures SectorCount(x, b) == x / b && b * (x / b) == x
  {
    assert x == b * (x / b) + x % b;
    MulMono(1, b, x / b);
  }

  lemma AlignedSectors(g: Geometry, p: Spec)
    requires g.bytesPerSector > 0 && Expressible(g, p)
    ensures g.bytesPerSector * StartSector(g, p) == p.start && g.bytesPerSector * Sectors(g, p) == p.length
    ensures StartSector(g, p) == p.start / g.bytesPerSector
  {
    hide Fits, SectorCount;
    AlignedCount(p.start, g.bytesPerSector);
    AlignedCount(p.length, g.bytesPerSector);
  }

  /** Entry `k` of the table is that of partition `k`, and the others are empty. */
  ghost predicate TableOf(t: seq<byte>, g: Geometry, ps: seq<Spec>)
    requires |t| == TABLE_SIZE && g.bytesPerSector > 0
  {
    hide EntryAt, StartSector, Sectors;
    |ps| <= 4 &&
    forall k :: 0 <= k < 4 ==>
      if k < |ps| then
        EntryAt(t, k) == Entry(ps[k].boot, 0, ps[k].kind, StartSector(g, ps[k]), Sectors(g, ps[k]))
      else EntryAt(t, k).kind == 0
  }

  /** The walker finds the built table. */
  lemma BuiltTable(boot: seq<byte>, g: Geometry, ps: seq<Spec>, img: seq<byte>, off: nat)
    requires |boot| == BOOT_SIZE && |ps| <= 4 && 512 <= g.bytesPerSector && Divisible(g)
    requires forall p :: p in ps ==> Fits(g, p)
    requires off + g.bytesPerSector <= |img| && img[off..off + 512] == Table(boot, g, ps)
    ensures var t := MbrTable(img, off, g.bytesPerSector);
            t != [] && TableOf(t, g, ps)
  {
    hide EntryAt, IsTable, Fits, Table, StartSector, Sectors, Divisible;
    var s := ReadSector(img, off, g.bytesPerSector);
    var t := Table(boot, g, ps)[446..];
    assert s[446..512] == img[off..off + 512][446..] == t;
    TableIsTable(boot, g, ps);
    forall k | 0 <= k < 4
      ensures if k < |ps| then
                EntryAt(t, k) == Entry(ps[k].boot, 0, ps[k].kind, StartSector(g, ps[k]), Sectors(g, ps[k]))
              else EntryAt(t, k).kind == 0
    {
      TableParses(boot, g, ps, k);
    }
  }

  /** A table with these entries and no link is walkable, and the walk delivers them in order. */
  lemma {:induction false} WalkEntries(img: seq<byte>, t: seq<byte>, g: Geometry, ps: seq<Spec>, i: nat, off: nat)
    requires |t| == TABLE_SIZE && g.bytesPerSector > 0 && i <= |ps| <= 4
    requires forall p :: p in ps ==> Expressible(g, p)
    requires TableOf(t, g, ps)
    ensures Finite(img, t, i, off, g.bytesPerSector, 0)
    ensures MbrParts(img, t, i, off, g.bytesPerSector, 0, i + 1) == Reports(g, ps[i..], i + 1)
    decreases 4 - i
  {
    hide EntryAt, StartSector, Sectors, Fits, MbrParts, ChainEnds, ChainParts;
    if i < |ps| {
      WalkEntries(img, t, g, ps, i + 1, off);
      AlignedSectors(g, ps[i]);
      MbrUnfold(img, t, i, off, g.bytesPerSector, 0, i + 1);
      assert ps[i..][0] == ps[i] && ps[i..][1..] == ps[i + 1..];
    } else {
      WalkEmpty(img, t, i, off, g.bytesPerSector, i + 1);
    }
  }

  lemma {:induction false} WalkEmpty(img: seq<byte>, t: seq<byte>, i: nat, off: nat, ss: nat, number: nat)
    requires |t| == TABLE_SIZE && i <= 4 && forall k :: i <= k < 4 ==> EntryAt(t, k).kind == 0
    ensures Finite(img, t, i, off, ss, 0) && MbrParts(img, t, i, off, ss, 0, number) == []
    decreases 4 - i
  {
    hide EntryAt;
    if i < 4 {
      WalkEmpty(img, t, i + 1, off, ss, number);
    }
  }

  /** Building a table and walking any image that starts with it gives the same starts, lengths, types and
      boot flags back, in order and numbered from 1. */
  lemma BuildThenWalk(boot: seq<byte>, g: Geometry, ps: seq<Spec>, img: seq<byte>, off: nat)
    requires |boot| == BOOT_SIZE && |ps| <= 4 && 512 <= g.bytesPerSector && Divisible(g)
    requires forall p :: p in ps ==> Expressible(g, p)
    requires off + g.bytesPerSector <= |img| && img[off..off + 512] == Table(boot, g, ps)
    ensures Walkable(img, off, g.bytesPerSector, 0)
    ensures MbrTable(img, off, g.bytesPerSector) != []
    ensures ListPartitions(img, off, g.bytesPerSector, 0) == Reports(g, ps, 1)
  {
    hide EntryAt, IsTable, Fits, Table, StartSector, Sectors, Divisible, Finite, MbrParts, MbrTable, TableOf;
    BuiltTable(boot, g, ps, img, off);
    WalkEntries(img, MbrTable(img, off, g.bytesPerSector), g, ps, 0, off);
    assert ps[0..] == ps;
  }

  /** The walk reports these partitions: same starts, lengths, types and flags in the same order. */
  predicate Reported(ps: seq<Spec>, list: seq<Info>) {
    && |list| == |ps|
    && forall k :: 0 <= k < |ps| ==>
         list[k].start == ps[k].start && list[k].length == ps[k].length &&
         list[k].kind == ps[k].kind && list[k].boot == ps[k].boot
  }

  /** Partitions of ordinary types are reported at whole sectors. */
  lemma {:induction false} WalkOrdinary(img: seq<byte>, t: seq<byte>, g: Geometry, ps: seq<Spec>, i: nat, off: nat,
                                        n: nat)
    requires |t| == TABLE_SIZE && g.bytesPerSector > 0 && i <= |ps| && TableOf(t, g, ps)
    requires forall k :: i <= k < |ps| ==> ps[k].kind != 0 && !IsContainer(ps[k].kind)
    requires Finite(img, t, i, off, g.bytesPerSector, n)
    ensures var list := MbrParts(img, t, i, off, g.bytesPerSector, n, i + 1);
            && |list| == |ps| - i
            && forall k :: i <= k < |ps| ==>
                 list[k - i].start == g.bytesPerSector * StartSector(g, ps[k]) &&
                 list[k - i].length == g.bytesPerSector * Sectors(g, ps[k])
    decreases 4 - i
  {
    hide EntryAt, StartSector, Sectors, MbrParts, ChainEnds, ChainParts, Finite;
    if i < |ps| {
      MbrUnfold(img, t, i, off, g.bytesPerSector, n, i + 1);
      WalkOrdinary(img, t, g, ps, i + 1, off, n);
    } else {
      WalkEmpty(img, t, i, off, g.bytesPerSector, i + 1);
      MbrBound(img, t, i, off, g.bytesPerSector, 0, n, i + 1);
    }
  }

  lemma MultipleAligned(x: int, b: nat, q: nat)
    requires b > 0 && b * q == x
    ensures 0 <= x && x % b == 0
  {
    DivModOf(q, b, 0);
  }

  lemma ReportedPlace(ps: seq<Spec>, list: seq<Info>, k: nat)
    requires Reported(ps, list) && k < |ps|
    ensures k < |list| && list[k].start == ps[k].start && list[k].length == ps[k].length
  {
  }

  lemma WholeSectors(g: Geometry, p: Spec)
    requires g.bytesPerSector > 0 && Fits(g, p) && p.kind != 0 && !IsContainer(p.kind)
    requires p.start < TWO63 && p.length < TWO63
    requires g.bytesPerSector * StartSector(g, p) == p.start && g.bytesPerSector * Sectors(g, p) == p.length
    ensures Expressible(g, p)
  {
    hide Fits, StartSector, Sectors;
    MultipleAligned(p.start, g.bytesPerSector, StartSector(g, p));
    MultipleAligned(p.length, g.bytesPerSector, Sectors(g, p));
  }

  lemma ReportedOrdinary(ps: seq<Spec>, list: seq<Info>)
    requires Reported(ps, list) && OrdinaryTypes(list)
    ensures forall m :: 0 <= m < |ps| ==> ps[m].kind != 0 && !IsContainer(ps[m].kind)
  {
    forall m | 0 <= m < |ps|
      ensures ps[m].kind != 0 && !IsContainer(ps[m].kind)
    {
      assert list[m].kind == ps[m].kind;
    }
  }

  /** What is reported as it was given can be expressed. */
  lemma ReportedExpressible(boot: seq<byte>, g: Geometry, ps: seq<Spec>, img: seq<byte>, off: nat, n: nat, k: nat)
    requires |boot| == BOOT_SIZE && |ps| <= 4 && 512 <= g.bytesPerSector && Divisible(g) && k < |ps|
    requires forall p :: p in ps ==> Fits(g, p) && p.start < TWO63 && p.length < TWO63
    requires off + g.bytesPerSector <= |img| && img[off..off + 512] == Table(boot, g, ps)
    requires Walkable(img, off, g.bytesPerSector, n) && Reported(ps, ListPartitions(img, off, g.bytesPerSector, n))
    ensures Expressible(g, ps[k])
  {
    hide EntryAt, IsTable, Fits, Table, StartSector, Sectors, Divisible, Finite, MbrParts, MbrTable, IsContainer,
         TableOf, OrdinaryTypes, Expressible, Reported;
    var list := ListPartitions(img, off, g.bytesPerSector, n);
    BuiltTable(boot, g, ps, img, off);
    var t := MbrTable(img, off, g.bytesPerSector);
    MbrTypes(img, t, 0, off, g.bytesPerSector, n, 1);
    ReportedOrdinary(ps, list);
    WalkOrdinary(img, t, g, ps, 0, off, n);
    ReportedPlace(ps, list, k);
    assert ps[k] in ps;
    WholeSectors(g, ps[k]);
  }

  /** Of partitions that fit, the walk reports exactly the given ones if and only if all of them are aligned,
      not negative and of an ordinary type. */
  lemma BuildThenWalkExactly(boot: seq<byte>, g: Geometry, ps: seq<Spec>, img: seq<byte>, off: nat, n: nat)
    requires |boot| == BOOT_SIZE && |ps| <= 4 && 512 <= g.bytesPerSector && Divisible(g)
    requires forall p :: p in ps ==> Fits(g, p) && p.start < TWO63 && p.length < TWO63
    requires off + g.bytesPerSector <= |img| && img[off..off + 512] == Table(boot, g, ps)
    requires Walkable(img, off, g.bytesPerSector, n)
    ensures Reported(ps, ListPartitions(img, off, g.bytesPerSector, n)) <==> forall p :: p in ps ==> Expressible(g, p)
  {
    hide Fits, Table, Divisible, Walkable, ListPartitions, Expressible, Reported;
    if forall p :: p in ps ==> Expressible(g, p) {
      BuildThenWalk(boot, g, ps, img, off);
      PartitionsBound(img, off, g.bytesPerSector, 0, n);
      ReportsReported(g, ps, 1);
    }
    if Reported(ps, ListPartitions(img, off, g.bytesPerSector, n)) {
      forall k | 0 <= k < |ps|
        ensures Expressible(g, ps[k])
      {
        ReportedExpressible(boot, g, ps, img, off, n, k);
      }
    }
  }

  lemma {:induction false} ReportsReported(g: Geometry, ps: seq<Spec>, number: nat)
    requires g.bytesPerSector > 0 && forall p :: p in ps ==> Expressible(g, p)
    ensures Reported(ps, Reports(g, ps, number))
  {
    hide Expressible;
    if ps != [] {
      ReportsReported(g, ps[1..], number + 1);
      forall k | 1 <= k < |ps|
        ensures Reports(g, ps, number)[k] == Reports(g, ps[1..], number + 1)[k - 1] && ps[k] == ps[1..][k - 1]
      {
      }
    }
  }
}
