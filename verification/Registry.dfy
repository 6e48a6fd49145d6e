/** The saved devices in the registry: ImDiskSaveRegistrySettings and ImDiskRemoveRegistrySettings of
    cpl/drvio.c, and what the driver reads back in sys/imdisk.cpp. */
module Registry {
  import opened Text
  import opened Wrappers

  const MAX_DWORD: int := 0xFFFF_FFFF
  const AUTO_DEVICE_NUMBER: int := MAX_DWORD

  datatype Value = Dword(n: nat) | Qword(q: int) | Sz(s: string)

  /** The values of the driver's parameter key. */
  type Key = map<string, Value>

  /** The fields of IMDISK_CREATE_DATA that are saved. */
  datatype CreateData = CreateData(
    deviceNumber: nat, fileName: string, size: int, flags: nat, driveLetter: char, imageOffset: int)
  {
    predicate Valid() {
      deviceNumber <= MAX_DWORD && flags <= MAX_DWORD
    }
  }

  // ---------- value names ----------

  const LOAD_DEVICES := "LoadDevices"

  datatype Field = FileName | Size | Flags | DriveLetter | ImageOffset

  function Prefix(f: Field): string {
    match f
    case FileName => "FileName"
    case Size => "Size"
    case Flags => "Flags"
    case DriveLetter => "DriveLetter"
    case ImageOffset => "ImageOffset"
  }

  function Name(f: Field, n: nat): string {
    Prefix(f) + PrintNat(n)
  }

  /** No two names of device values are the same, and none is that of the counter. */
  lemma NamesDiffer(f: Field, n: nat, f': Field, n': nat)
    ensures Name(f, n) == Name(f', n') <==> f == f' && n == n'
    ensures Name(f, n) != LOAD_DEVICES
  {
    hide PrintNat;
    PrefixesDiffer(f, PrintNat(n), f', PrintNat(n'));
    if f == f' && Name(f, n) == Name(f', n') {
      var k := |Prefix(f)|;
      assert PrintNat(n) == Name(f, n)[k..] && PrintNat(n') == Name(f', n')[k..];
      ParsePrintNat(n);
      ParsePrintNat(n');
    }
  }

  lemma PrefixesDiffer(f: Field, s: string, f': Field, s': string)
    ensures f != f' ==> Prefix(f) + s != Prefix(f') + s'
    ensures Prefix(f) + s != LOAD_DEVICES
  {
    var a, b := Prefix(f) + s, Prefix(f') + s';
    assert a[0] == Prefix(f)[0] && a[1] == Prefix(f)[1];
    assert b[0] == Prefix(f')[0] && b[1] == Prefix(f')[1];
    assert LOAD_DEVICES[0] == 'L';
  }

  // ---------- the counter ----------

  /** RegQueryValueEx into a DWORD. */
  function Counter(key: Key): Option<nat> {
    if LOAD_DEVICES in key && key[LOAD_DEVICES].Dword? then Some(key[LOAD_DEVICES].n) else None
  }

  function Load(key: Key): nat {
    match Counter(key)
    case None => 0
    case Some(n) => n
  }

  // ---------- saving ----------

  function UpToNul(s: string): string {
    if s == [] || s[0] == '\0' then [] else [s[0]] + UpToNul(s[1..])
  }

  /** What a field of the create data is stored as; nothing stands for deleting the value. */
  function Stored(cd: CreateData, f: Field): Option<Value> {
    match f
    case FileName => if cd.fileName != [] then Some(Sz(UpToNul(cd.fileName))) else None
    case Size => if cd.size > 0 then Some(Qword(cd.size)) else None
    case Flags => if cd.flags != 0 then Some(Dword(cd.flags)) else None
    case DriveLetter => if cd.driveLetter != '\0' then Some(Sz([cd.driveLetter])) else None
    case ImageOffset => if cd.imageOffset > 0 then Some(Qword(cd.imageOffset)) else None
  }

  function Put(key: Key, name: string, v: Option<Value>): Key {
    match v
    case None => key - {name}
    case Some(value) => key[name := value]
  }

  /** The number a device is saved under. */
  function Numbered(key: Key, cd: CreateData): CreateData {
    if cd.deviceNumber == AUTO_DEVICE_NUMBER then cd.(deviceNumber := Load(key)) else cd
  }

  /** The counter that a save stores: a DWORD, so it wraps. */
  function NewLoad(key: Key, cd: CreateData): nat {
    if cd.deviceNumber == AUTO_DEVICE_NUMBER then (Load(key) + 1) % (MAX_DWORD + 1)
    else if Load(key) >= cd.deviceNumber + 1 then Load(key) else cd.deviceNumber + 1
  }

  function Save(key: Key, cd: CreateData): Key {
    var n := Numbered(key, cd).deviceNumber;
    var k0 := key[LOAD_DEVICES := Dword(NewLoad(key, cd))];
    var k1 := Put(k0, Name(FileName, n), Stored(cd, FileName));
    var k2 := Put(k1, Name(Size, n), Stored(cd, Size));
    var k3 := Put(k2, Name(Flags, n), Stored(cd, Flags));
    var k4 := Put(k3, Name(DriveLetter, n), Stored(cd, DriveLetter));
    Put(k4, Name(ImageOffset, n), Stored(cd, ImageOffset))
  }

  /** The key, where every registry call succeeds. */
  class Parameters {
    var values: Key

    constructor (values: Key)
      ensures this.values == values
    {
      this.values := values;
    }

    method SetOrDelete(name: string, v: Option<Value>)
      modifies this
      ensures values == Put(old(values), name, v)
    {
      match v
      case Some(value) => values := values[name := value];
      case None => values := values - {name};
    }

    /** ImDiskSaveRegistrySettings: stores counter and fields and reports the number chosen. */
    method SaveSettings(cd: CreateData) returns (deviceNumber: nat)
      requires cd.deviceNumber <= 0xFFFF_FFFF && cd.flags <= 0xFFFF_FFFF
      modifies this
      ensures values == Save(old(values), cd) && deviceNumber == Numbered(old(values), cd).deviceNumber
      ensures cd.deviceNumber != 0xFFFF_FFFF ==> deviceNumber == cd.deviceNumber
      ensures Below(old(values)) && cd.deviceNumber == 0xFFFF_FFFF ==>
                !HasEntry(old(values), deviceNumber) && Kept(old(values), values)
    {
      hide Stored, Put, Name, HasEntry, Kept;
      if Below(values) && cd.deviceNumber == AUTO_DEVICE_NUMBER {
        AutoSaveKeeps(values, cd);
      }
      deviceNumber := cd.deviceNumber;
      var loadDevices: nat;
      if Counter(values).Some? {
        loadDevices := Counter(values).value;
        if cd.deviceNumber == AUTO_DEVICE_NUMBER {
          deviceNumber := loadDevices;
          loadDevices := (loadDevices + 1) % (MAX_DWORD + 1);
        } else if loadDevices < cd.deviceNumber + 1 {
          loadDevices := cd.deviceNumber + 1;
        }
      } else if cd.deviceNumber == AUTO_DEVICE_NUMBER {
        deviceNumber, loadDevices := 0, 1;
      } else {
        loadDevices := cd.deviceNumber + 1;
      }
      values := values[LOAD_DEVICES := Dword(loadDevices)];
      SetOrDelete(Name(FileName, deviceNumber), Stored(cd, FileName));
      SetOrDelete(Name(Size, deviceNumber), Stored(cd, Size));
      SetOrDelete(Name(Flags, deviceNumber), Stored(cd, Flags));
      SetOrDelete(Name(DriveLetter, deviceNumber), Stored(cd, DriveLetter));
      SetOrDelete(Name(ImageOffset, deviceNumber), Stored(cd, ImageOffset));
    }

    /** ImDiskRemoveRegistrySettings: fails without a counter, else drops the fields of the device and, if it
        is the last one, lowers the counter. */
    method RemoveSettings(deviceNumber: nat) returns (ok: bool)
      requires deviceNumber <= 0xFFFF_FFFF
      modifies this
      ensures ok <==> Counter(old(values)).Some?
      ensures values == Remove(old(values), deviceNumber)
    {
      hide Name;
      if Counter(values).None? {
        return false;
      }
      var loadDevices := Counter(values).value;
      if loadDevices == (deviceNumber + 1) % (MAX_DWORD + 1) {
        values := values[LOAD_DEVICES := Dword((loadDevices + MAX_DWORD) % (MAX_DWORD + 1))];
      }
      values := values - {Name(FileName, deviceNumber)};
      values := values - {Name(Size, deviceNumber)};
      values := values - {Name(Flags, deviceNumber)};
      values := values - {Name(DriveLetter, deviceNumber)};
      values := values - {Name(ImageOffset, deviceNumber)};
      ok := true;
    }
  }

  function Remove(key: Key, n: nat): Key {
    if Counter(key).None? then key
    else
      var k0 := if Load(key) == (n + 1) % (MAX_DWORD + 1)
                then key[LOAD_DEVICES := Dword((Load(key) + MAX_DWORD) % (MAX_DWORD + 1))] else key;
      k0 - {Name(FileName, n)} - {Name(Size, n)} - {Name(Flags, n)} - {Name(DriveLetter, n)} - {Name(ImageOffset, n)}
  }

  // ---------- single values after a save or a remove ----------

  function At(key: Key, n: nat, f: Field): Option<Value> {
    if Name(f, n) in key then Some(key[Name(f, n)]) else None
  }

  lemma PutAt(key: Key, n: nat, f: Field, v: Option<Value>, m: nat, g: Field)
    ensures At(Put(key, Name(f, n), v), m, g) == if m == n && g == f then v else At(key, m, g)
    ensures Counter(Put(key, Name(f, n), v)) == Counter(key)
  {
    hide Name;
    NamesDiffer(f, n, g, m);
  }

  lemma SaveAt(key: Key, cd: CreateData, m: nat, g: Field)
    ensures At(Save(key, cd), m, g) ==
            if m == Numbered(key, cd).deviceNumber then Stored(cd, g) else At(key, m, g)
    ensures Counter(Save(key, cd)) == Some(NewLoad(key, cd))
  {
    hide Name, Put, Stored, At, Counter, NewLoad, Numbered;
    var n := Numbered(key, cd).deviceNumber;
    var k0 := key[LOAD_DEVICES := Dword(NewLoad(key, cd))];
    var k1 := Put(k0, Name(FileName, n), Stored(cd, FileName));
    var k2 := Put(k1, Name(Size, n), Stored(cd, Size));
    var k3 := Put(k2, Name(Flags, n), Stored(cd, Flags));
    var k4 := Put(k3, Name(DriveLetter, n), Stored(cd, DriveLetter));
    CounterAt(key, NewLoad(key, cd), m, g);
    PutAt(k0, n, FileName, Stored(cd, FileName), m, g);
    PutAt(k1, n, Size, Stored(cd, Size), m, g);
    PutAt(k2, n, Flags, Stored(cd, Flags), m, g);
    PutAt(k3, n, DriveLetter, Stored(cd, DriveLetter), m, g);
    PutAt(k4, n, ImageOffset, Stored(cd, ImageOffset), m, g);
  }

  lemma CounterAt(key: Key, load: nat, m: nat, g: Field)
    ensures At(key[LOAD_DEVICES := Dword(load)], m, g) == At(key, m, g)
    ensures Counter(key[LOAD_DEVICES := Dword(load)]) == Some(load)
  {
    hide Name;
    NamesDiffer(g, m, g, m);
  }

  lemma RemoveAt(key: Key, n: nat, m: nat, g: Field)
    requires Counter(key).Some?
    ensures At(Remove(key, n), m, g) == if m == n then None else At(key, m, g)
    ensures Counter(Remove(key, n)) ==
            Some(if Load(key) == (n + 1) % (MAX_DWORD + 1) then (Load(key) + MAX_DWORD) % (MAX_DWORD + 1)
                 else Load(key))
  {
    hide Name, At, Counter;
    var last := Load(key) == (n + 1) % (MAX_DWORD + 1);
    var lower := (Load(key) + MAX_DWORD) % (MAX_DWORD + 1);
    var k0 := if last then key[LOAD_DEVICES := Dword(lower)] else key;
    CounterAt(key, lower, m, g);
    PutAt(k0, n, FileName, None, m, g);
    PutAt(k0 - {Name(FileName, n)}, n, Size, None, m, g);
    PutAt(k0 - {Name(FileName, n)} - {Name(Size, n)}, n, Flags, None, m, g);
    PutAt(k0 - {Name(FileName, n)} - {Name(Size, n)} - {Name(Flags, n)}, n, DriveLetter, None, m, g);
    PutAt(k0 - {Name(FileName, n)} - {Name(Size, n)} - {Name(Flags, n)} - {Name(DriveLetter, n)}, n, ImageOffset,
          None, m, g);
    assert Counter(key) == Some(Load(key)) by {
      CounterIsLoad(key);
    }
  }

  lemma CounterIsLoad(key: Key)
    ensures Counter(key).Some? ==> Counter(key).value == Load(key)
  {
  }

  // ---------- the invariant over runs ----------

  /** Some value of device `n` is in the key. */
  predicate HasEntry(key: Key, n: nat) {
    || At(key, n, FileName).Some? || At(key, n, Size).Some? || At(key, n, Flags).Some?
    || At(key, n, DriveLetter).Some? || At(key, n, ImageOffset).Some?
  }

  /** Every device in the key is one of those the driver creates at startup: 0 up to the counter. */
  ghost predicate Below(key: Key) {
    Load(key) <= MAX_DWORD && forall n: nat :: HasEntry(key, n) ==> n < Load(key)
  }

  lemma SaveEntry(key: Key, cd: CreateData, m: nat)
    ensures HasEntry(Save(key, cd), m) <==>
            if m == Numbered(key, cd).deviceNumber then Stores(cd) else HasEntry(key, m)
    ensures Load(Save(key, cd)) == NewLoad(key, cd)
  {
    hide At, Save, Stored, Numbered, NewLoad;
    SaveAt(key, cd, m, FileName);
    SaveAt(key, cd, m, Size);
    SaveAt(key, cd, m, Flags);
    SaveAt(key, cd, m, DriveLetter);
    SaveAt(key, cd, m, ImageOffset);
  }

  /** The create data has something to store. */
  predicate Stores(cd: CreateData) {
    || Stored(cd, FileName).Some? || Stored(cd, Size).Some? || Stored(cd, Flags).Some?
    || Stored(cd, DriveLetter).Some? || Stored(cd, ImageOffset).Some?
  }

  /** The save asks for a number when the counter has reached the last one. */
  predicate Overflows(key: Key, cd: CreateData) {
    cd.deviceNumber == AUTO_DEVICE_NUMBER && Load(key) == MAX_DWORD
  }

  /** A save keeps every device below the counter exactly when the counter does not overflow. */
  lemma SaveKeepsBelow(key: Key, cd: CreateData)
    requires Below(key) && cd.Valid() && Stores(cd)
    ensures Below(Save(key, cd)) <==> !Overflows(key, cd)
  {
    hide Save, HasEntry, Stores;
    var key' := Save(key, cd);
    forall m: nat
      ensures HasEntry(key', m) <==> if m == Numbered(key, cd).deviceNumber then Stores(cd) else HasEntry(key, m)
    {
      SaveEntry(key, cd, m);
    }
    SaveEntry(key, cd, 0);
    assert HasEntry(key', Numbered(key, cd).deviceNumber);
  }

  /** A save of nothing but a number keeps it too. */
  lemma EmptySaveKeepsBelow(key: Key, cd: CreateData)
    requires Below(key) && cd.Valid() && !Overflows(key, cd)
    ensures Below(Save(key, cd))
  {
    hide Save, HasEntry, Stores;
    forall m: nat
      ensures HasEntry(Save(key, cd), m) <==>
              if m == Numbered(key, cd).deviceNumber then Stores(cd) else HasEntry(key, m)
    {
      SaveEntry(key, cd, m);
    }
    SaveEntry(key, cd, 0);
  }

  /** Every value of every device that is in the key is still there and the same. */
  ghost predicate Kept(key: Key, key': Key) {
    hide At, HasEntry;
    forall n: nat, f: Field :: HasEntry(key, n) ==> At(key', n, f) == At(key, n, f)
  }

  /** An automatic save never collides: the device gets the counter as its number, no value of that device was
      in the key, and every device that was there stays as it is. */
  lemma AutoSaveKeeps(key: Key, cd: CreateData)
    requires Below(key) && cd.deviceNumber == 0xFFFF_FFFF
    ensures !HasEntry(key, Load(key)) && Kept(key, Save(key, cd))
    ensures Numbered(key, cd).deviceNumber == Load(key)
    ensures forall f :: At(Save(key, cd), Load(key), f) == Stored(cd, f)
  {
    hide At, Save, HasEntry, Stored;
    forall n: nat, f: Field
      ensures At(Save(key, cd), n, f) == if n == Load(key) then Stored(cd, f) else At(key, n, f)
    {
      SaveAt(key, cd, n, f);
    }
  }

  lemma RemoveKeepsBelow(key: Key, n: nat)
    requires Below(key) && n <= MAX_DWORD
    ensures Below(Remove(key, n))
  {
    hide Remove, HasEntry;
    if Counter(key).Some? {
      forall m: nat
        ensures HasEntry(Remove(key, n), m) <==> m != n && HasEntry(key, m)
        ensures Load(Remove(key, n)) ==
                if Load(key) == (n + 1) % (MAX_DWORD + 1) then (Load(key) + MAX_DWORD) % (MAX_DWORD + 1) else Load(key)
      {
        RemoveEntry(key, n, m);
      }
      assert HasEntry(key, 0) ==> 0 < Load(key);
    } else {
      RemoveNothing(key, n);
    }
  }

  lemma RemoveNothing(key: Key, n: nat)
    requires Counter(key).None?
    ensures Remove(key, n) == key
  {
  }

  lemma RemoveEntry(key: Key, n: nat, m: nat)
    requires Counter(key).Some?
    ensures HasEntry(Remove(key, n), m) <==> m != n && HasEntry(key, m)
    ensures Load(Remove(key, n)) ==
            if Load(key) == (n + 1) % (MAX_DWORD + 1) then (Load(key) + MAX_DWORD) % (MAX_DWORD + 1) else Load(key)
  {
    hide At, Remove;
    RemoveAt(key, n, m, FileName);
    RemoveAt(key, n, m, Size);
    RemoveAt(key, n, m, Flags);
    RemoveAt(key, n, m, DriveLetter);
    RemoveAt(key, n, m, ImageOffset);
  }

  datatype Op = SaveOp(cd: CreateData) | RemoveOp(deviceNumber: nat)

  function Apply(key: Key, op: Op): Key {
    match op
    case SaveOp(cd) => Save(key, cd)
    case RemoveOp(n) => Remove(key, n)
  }

  function Run(key: Key, ops: seq<Op>): Key
    decreases |ops|
  {
    if ops == [] then key else Run(Apply(key, ops[0]), ops[1..])
  }

  /** The run never asks for a number beyond the last one. */
  predicate Fair(key: Key, ops: seq<Op>)
    decreases |ops|
  {
    ops != [] ==>
      && (match ops[0]
          case SaveOp(cd) => cd.Valid() && !Overflows(key, cd)
          case RemoveOp(n) => n <= MAX_DWORD)
      && Fair(Apply(key, ops[0]), ops[1..])
  }

  /** After any such run every device is below the counter, so the next automatic number is free. */
  lemma {:induction false} RunKeepsBelow(key: Key, ops: seq<Op>)
    requires Below(key) && Fair(key, ops)
    ensures Below(Run(key, ops)) && !HasEntry(Run(key, ops), Load(Run(key, ops)))
    decreases |ops|
  {
    hide HasEntry, Save, Remove, Overflows, Load;
    if ops != [] {
      match ops[0] {
        case SaveOp(cd) => EmptySaveKeepsBelow(key, cd);
        case RemoveOp(n) => RemoveKeepsBelow(key, n);
      }
      RunKeepsBelow(Apply(key, ops[0]), ops[1..]);
    }
  }

  /** Of every automatic save in such a run. */
  lemma {:induction false} EverySaveKeeps(key: Key, ops: seq<Op>, k: nat)
    requires Below(key) && Fair(key, ops) && k < |ops|
    ensures var before, after := Run(key, ops[..k]), Run(key, ops[..k + 1]);
            && Below(before)
            && (ops[k].SaveOp? && ops[k].cd.deviceNumber == 0xFFFF_FFFF ==>
                  !HasEntry(before, Load(before)) && Kept(before, after)
                  && forall f :: At(after, Load(before), f) == Stored(ops[k].cd, f))
    decreases k
  {
    hide HasEntry, Save, Remove, Overflows, Load, At, Stored, Kept;
    if k == 0 {
      assert ops[..0] == [] && ops[..1] == [ops[0]] && ops[..1][1..] == [];
      assert Run(key, ops[..1]) == Run(Apply(key, ops[0]), ops[..1][1..]);
      if ops[0].SaveOp? && ops[0].cd.deviceNumber == 0xFFFF_FFFF {
        AutoSaveKeeps(key, ops[0].cd);
      }
    } else {
      match ops[0] {
        case SaveOp(cd) => EmptySaveKeepsBelow(key, cd);
        case RemoveOp(n) => RemoveKeepsBelow(key, n);
      }
      assert ops[..k][1..] == ops[1..][..k - 1] && ops[..k + 1][1..] == ops[1..][..k];
      EverySaveKeeps(Apply(key, ops[0]), ops[1..], k - 1);
    }
  }

  // ---------- the values by their names ----------

  function Look(key: Key, name: string): Option<Value> {
    if name in key then Some(key[name]) else None
  }

  /** The values of a device in the key after a save, by name, type and when there are any. */
  lemma SavedValues(key: Key, cd: CreateData)
    ensures var key', n := Save(key, cd), PrintNat(Numbered(key, cd).deviceNumber);
            && Look(key', "LoadDevices") == Some(Dword(NewLoad(key, cd)))
            && Look(key', "FileName" + n) == (if cd.fileName == [] then None else Some(Sz(UpToNul(cd.fileName))))
            && Look(key', "Size" + n) == (if cd.size <= 0 then None else Some(Qword(cd.size)))
            && Look(key', "Flags" + n) == (if cd.flags == 0 then None else Some(Dword(cd.flags)))
            && Look(key', "DriveLetter" + n) == (if cd.driveLetter == '\0' then None else Some(Sz([cd.driveLetter])))
            && Look(key', "ImageOffset" + n) == (if cd.imageOffset <= 0 then None else Some(Qword(cd.imageOffset)))
  {
    hide Save, NewLoad, Numbered, UpToNul, PrintNat;
    var n := Numbered(key, cd).deviceNumber;
    NamesAre(n);
    SaveAt(key, cd, n, FileName);
    SaveAt(key, cd, n, Size);
    SaveAt(key, cd, n, Flags);
    SaveAt(key, cd, n, DriveLetter);
    SaveAt(key, cd, n, ImageOffset);
  }

  lemma NamesAre(n: nat)
    ensures Name(FileName, n) == "FileName" + PrintNat(n) && Name(Size, n) == "Size" + PrintNat(n)
    ensures Name(Flags, n) == "Flags" + PrintNat(n) && Name(DriveLetter, n) == "DriveLetter" + PrintNat(n)
    ensures Name(ImageOffset, n) == "ImageOffset" + PrintNat(n) && LOAD_DEVICES == "LoadDevices"
  {
    hide PrintNat;
  }

  /** What the counter becomes: one more than an automatic number, and otherwise at least one more than the
      number given, in DWORD arithmetic; a remove lowers it by one if it follows the device. */
  lemma CounterMoves(key: Key, cd: CreateData, n: nat)
    requires Below(key) && cd.Valid() && n <= 0xFFFF_FFFF
    ensures Counter(key).None? ==> Load(key) == 0
    ensures cd.deviceNumber == 0xFFFF_FFFF ==>
              Load(Save(key, cd)) == if Load(key) == 0xFFFF_FFFF then 0 else Load(key) + 1
    ensures cd.deviceNumber < 0xFFFF_FFFF ==> Load(Save(key, cd)) == Max(Load(key), cd.deviceNumber + 1)
    ensures Load(Remove(key, n)) == if Load(key) == n + 1 then n else if n == 0xFFFF_FFFF && Load(key) == 0
                                    && Counter(key).Some? then 0xFFFF_FFFF else Load(key)
  {
    hide Save, Remove, HasEntry, Below;
    BelowBounds(key);
    SaveEntry(key, cd, 0);
    if Counter(key).Some? {
      RemoveEntry(key, n, 0);
    } else {
      RemoveNothing(key, n);
    }
  }

  lemma BelowBounds(key: Key)
    requires Below(key)
    ensures Load(key) <= 0xFFFF_FFFF
  {
  }

  function Max(a: int, b: int): int {
    if a >= b then a else b
  }

  // ---------- what the driver reads ----------

  /** ImDiskAddVirtualDiskAfterInitialization: each value if it is there with the expected type, else empty or
      zero. File names of more than `limit` characters do not fit its buffer. */
  function Decode(key: Key, n: nat, limit: nat): CreateData {
    var name := match At(key, n, FileName)
                case Some(Sz(s)) => if |s| <= limit then s else []
                case _ => [];
    var size := match At(key, n, Size) case Some(Qword(q)) => q case _ => 0;
    var flags := match At(key, n, Flags) case Some(Dword(d)) => d case _ => 0;
    var letter := match At(key, n, DriveLetter) case Some(Sz(s)) => if s == [] then '\0' else s[0] case _ => '\0';
    var offset := match At(key, n, ImageOffset) case Some(Qword(q)) => q case _ => 0;
    CreateData(n, name, size, flags, letter, offset)
  }

  lemma {:induction false} UpToNulKeeps(s: string)
    ensures UpToNul(s) == s <==> '\0' !in s
    ensures |UpToNul(s)| <= |s|
  {
    if s != [] && s[0] != '\0' {
      UpToNulKeeps(s[1..]);
      assert s == [s[0]] + s[1..];
      assert UpToNul(s)[1..] == UpToNul(s[1..]);
    }
  }

  /** The driver restores what was saved, under the number chosen, exactly when the name has no NUL and fits
      its buffer and size and offset are not negative. Every other device is as it was. */
  lemma SaveThenDecode(key: Key, cd: CreateData, limit: nat, m: nat)
    requires cd.Valid()
    ensures Decode(Save(key, cd), Numbered(key, cd).deviceNumber, limit) == Numbered(key, cd) <==>
            '\0' !in cd.fileName && |cd.fileName| <= limit && cd.size >= 0 && cd.imageOffset >= 0
    ensures m != Numbered(key, cd).deviceNumber ==> Decode(Save(key, cd), m, limit) == Decode(key, m, limit)
  {
    hide At, Save;
    var n := Numbered(key, cd).deviceNumber;
    UpToNulKeeps(cd.fileName);
    SaveAt(key, cd, n, FileName);
    SaveAt(key, cd, n, Size);
    SaveAt(key, cd, n, Flags);
    SaveAt(key, cd, n, DriveLetter);
    SaveAt(key, cd, n, ImageOffset);
    SaveAt(key, cd, m, FileName);
    SaveAt(key, cd, m, Size);
    SaveAt(key, cd, m, Flags);
    SaveAt(key, cd, m, DriveLetter);
    SaveAt(key, cd, m, ImageOffset);
  }
}
