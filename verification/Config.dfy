/** SimpleJsonParser of ImDiskGui/MainWindow.xaml.cs: the writer and the reader of the saved RAM disks. */
module Config {
  import opened Text
  import opened Wrappers

  /** The persisted fields of RamDiskConfig: a 32-bit number, a 64-bit size, a 32-bit interval; the strings
      may be null. */
  datatype RamDisk = RamDisk(
    deviceNumber: int, driveLetter: char, sizeInBytes: int, imagePath: Option<string>, fileSystem: Option<string>,
    saveOnShutdown: bool, isRemovable: bool, autoSave: int)
  {
    predicate InRange() {
      && 0 <= deviceNumber < 0x1_0000_0000
      && -0x8000_0000_0000_0000 <= sizeInBytes < 0x8000_0000_0000_0000
      && -0x8000_0000 <= autoSave < 0x8000_0000
    }
  }

  const FRESH := RamDisk(0xFFFF_FFFF, '\0', 0, None, None, false, false, 0)

  function OrEmpty(s: Option<string>): string {
    match s
    case None => ""
    case Some(v) => v
  }

  // ---------- writing ----------

  function Quoted(s: string): string {
    ['"'] + s + ['"']
  }

  /** One property as it is written, without the comma that follows it. */
  function Property(key: string, value: string): string {
    Quoted(key) + [':'] + value
  }

  function PrintBool(b: bool): string {
    if b then "true" else "false"
  }

  function Properties(d: RamDisk): (ps: seq<string>)
    ensures |ps| == 8
  {
    [ Property("DeviceNumber", PrintInt(d.deviceNumber)),
      Property("DriveLetter", Quoted([d.driveLetter])),
      Property("SizeInBytes", PrintInt(d.sizeInBytes)),
      Property("ImagePath", Quoted(Escape(OrEmpty(d.imagePath)))),
      Property("FileSystem", Quoted(OrEmpty(d.fileSystem))),
      Property("SaveOnShutdown", PrintBool(d.saveOnShutdown)),
      Property("IsRemovable", PrintBool(d.isRemovable)),
      Property("AutoSaveIntervalMinutes", PrintInt(d.autoSave)) ]
  }

  function PrintDisk(d: RamDisk): string {
    ['{'] + Join(Properties(d), ',') + ['}']
  }

  function PrintDisks(ds: seq<RamDisk>): string {
    if ds == [] then [] else if |ds| == 1 then PrintDisk(ds[0]) else PrintDisk(ds[0]) + [','] + PrintDisks(ds[1..])
  }

  function Print(ds: seq<RamDisk>): string {
    ['['] + PrintDisks(ds) + [']']
  }

  /** The loop over a StringBuilder. */
  method Serialize(items: seq<RamDisk>) returns (sb: string)
    ensures sb == Print(items)
  {
    hide PrintDisk;
    sb := "[";
    var i := 0;
    while i < |items|
      invariant 0 <= i <= |items|
      invariant sb + PrintDisks(items[i..]) + [']'] == Print(items)
    {
      ghost var was := sb;
      ghost var rest := items[i..];
      assert rest[0] == items[i] && rest[1..] == items[i + 1..];
      sb := sb + PrintDisk(items[i]);
      if i < |items| - 1 {
        sb := sb + ",";
      }
      assert was + PrintDisks(rest) == sb + PrintDisks(items[i + 1..]);
      i := i + 1;
    }
    sb := sb + "]";
  }

  // ---------- reading ----------

  function Lower(s: string): string {
    if s == [] then []
    else [if 'A' <= s[0] <= 'Z' then (s[0] as int + 32) as char else s[0]] + Lower(s[1..])
  }

  /** bool.Parse */
  function ParseBool(s: string): Option<bool> {
    var t := Lower(Trim(s, IsWhite));
    if t == "true" then Some(true) else if t == "false" then Some(false) else None
  }

  function ParseWithin(s: string, lo: int, hi: int): Option<int> {
    match ParseInt(s)
    case None => None
    case Some(n) => if lo <= n < hi then Some(n) else None
  }

  /** The switch over the property name; None is an exception. */
  function Assign(d: RamDisk, key: string, val: string): Option<RamDisk> {
    if key == "DeviceNumber" then
      match ParseWithin(val, 0, 0x1_0000_0000)
      case None => None
      case Some(n) => Some(d.(deviceNumber := n))
    else if key == "DriveLetter" then if val == [] then None else Some(d.(driveLetter := val[0]))
    else if key == "SizeInBytes" then
      match ParseWithin(val, -0x8000_0000_0000_0000, 0x8000_0000_0000_0000)
      case None => None
      case Some(n) => Some(d.(sizeInBytes := n))
    else if key == "ImagePath" then Some(d.(imagePath := Some(val)))
    else if key == "FileSystem" then Some(d.(fileSystem := Some(val)))
    else if key == "SaveOnShutdown" then
      match ParseBool(val)
      case None => None
      case Some(b) => Some(d.(saveOnShutdown := b))
    else if key == "IsRemovable" then
      match ParseBool(val)
      case None => None
      case Some(b) => Some(d.(isRemovable := b))
    else if key == "AutoSaveIntervalMinutes" then
      match ParseWithin(val, -0x8000_0000, 0x8000_0000)
      case None => Some(d)
      case Some(n) => Some(d.(autoSave := n))
    else Some(d)
  }

  function KeyOf(s: string): string {
    Trim(Trim(s, IsWhite), IsQuote)
  }

  function ValueOf(s: string): string {
    Unescape(Trim(Trim(s, IsWhite), IsQuote))
  }

  function ReadProperty(d: RamDisk, prop: string): Option<RamDisk> {
    match SplitFirst(prop, ':')
    case None => Some(d)
    case Some((k, v)) => Assign(d, KeyOf(k), ValueOf(v))
  }

  function ReadProperties(d: RamDisk, props: seq<string>): Option<RamDisk>
    decreases |props|
  {
    if props == [] then Some(d)
    else
      match ReadProperty(d, props[0])
      case None => None
      case Some(d') => ReadProperties(d', props[1..])
  }

  function CleanObject(s: string): string {
    TrimEnd(TrimStart(Trim(s, IsWhite), IsOpenBrace), IsCloseBrace)
  }

  function ReadObject(s: string): Option<RamDisk> {
    ReadProperties(FRESH, Split(CleanObject(s), ','))
  }

  function ReadObjects(ss: seq<string>): Option<seq<RamDisk>> {
    if ss == [] then Some([])
    else
      match ReadObject(ss[0])
      case None => None
      case Some(d) =>
        match ReadObjects(ss[1..])
        case None => None
        case Some(ds) => Some([d] + ds)
  }

  function NonEmpty(ss: seq<string>): seq<string> {
    if ss == [] then [] else (if ss[0] == [] then [] else [ss[0]]) + NonEmpty(ss[1..])
  }

  function Brackets(json: string): string {
    if |json| >= 2 && json[0] == '[' && json[|json| - 1] == ']' then json[1..|json| - 1] else json
  }

  function Objects(json: string): seq<string> {
    NonEmpty(SplitPair(Brackets(json), '}', ','))
  }

  /** The saved disks; any exception yields none. */
  function Read(json: string): seq<RamDisk> {
    var t := Trim(json, IsWhite);
    if t == [] || t == "[]" then []
    else
      match ReadObjects(Objects(t))
      case None => []
      case Some(ds) => ds
  }

  /** The disks read so far in front of those still to be read, unless reading those fails. */
  function Behind(list: seq<RamDisk>, r: Option<seq<RamDisk>>): Option<seq<RamDisk>> {
    match r
    case None => None
    case Some(ds) => Some(list + ds)
  }

  lemma BehindNothing(r: Option<seq<RamDisk>>)
    ensures Behind([], r) == r
  {
    if r.Some? {
      assert [] + r.value == r.value;
    }
  }

  lemma BehindOne(list: seq<RamDisk>, d: RamDisk, r: Option<seq<RamDisk>>)
    ensures Behind(list, Behind([d], r)) == Behind(list + [d], r)
  {
    if r.Some? {
      assert list + ([d] + r.value) == list + [d] + r.value;
    }
  }

  /** The loops of Deserialize. A failed conversion ends them with no disks at all. */
  method Deserialize(json: string) returns (list: seq<RamDisk>)
    ensures list == Read(json)
  {
    hide ReadProperty, Objects;
    var trimmed := Trim(json, IsWhite);
    if trimmed == [] || trimmed == "[]" {
      return [];
    }
    var objects := Objects(trimmed);
    list := [];
    BehindNothing(ReadObjects(objects));
    assert objects[0..] == objects;
    var i := 0;
    while i < |objects|
      invariant 0 <= i <= |objects|
      invariant ReadObjects(objects) == Behind(list, ReadObjects(objects[i..]))
    {
      ghost var rest := objects[i..];
      assert rest[0] == objects[i] && rest[1..] == objects[i + 1..];
      var props := Split(CleanObject(objects[i]), ',');
      var config, j := FRESH, 0;
      assert props[0..] == props;
      while j < |props|
        invariant 0 <= j <= |props|
        invariant ReadObject(objects[i]) == ReadProperties(config, props[j..])
      {
        assert props[j..][0] == props[j] && props[j..][1..] == props[j + 1..];
        var read := ReadProperty(config, props[j]);
        if read.None? {
          return [];
        }
        config := read.value;
        j := j + 1;
      }
      BehindOne(list, config, ReadObjects(rest[1..]));
      list := list + [config];
      i := i + 1;
    }
    assert list + [] == list;
  }

  // ---------- what the reader can produce ----------

  /** The string has no comma and neither begins nor ends with a quote. */
  predicate Plain(s: string) {
    ',' !in s && Firm(s, IsQuote)
  }

  /** Every field of the disk is a value that the format can carry. */
  predicate Carried(d: RamDisk) {
    d.driveLetter !in {',', '"'} && Plain(OrEmpty(d.imagePath)) && Plain(OrEmpty(d.fileSystem))
  }

  predicate Legal(d: RamDisk) {
    d.InRange() && Carried(d)
  }

  lemma ValuePlain(v: string)
    requires ',' !in v
    ensures Plain(ValueOf(v)) && (ValueOf(v) != [] ==> ValueOf(v)[0] !in {',', '"'})
  {
  }

  lemma AssignCarried(d: RamDisk, key: string, val: string)
    requires Legal(d) && Plain(val) && (val != [] ==> val[0] !in {',', '"'})
    ensures Assign(d, key, val).Some? ==> Legal(Assign(d, key, val).value)
  {
    hide ParseInt, ParseBool, Plain;
  }

  lemma ReadPropertyCarried(d: RamDisk, prop: string)
    requires Legal(d) && ',' !in prop
    ensures ReadProperty(d, prop).Some? ==> Legal(ReadProperty(d, prop).value)
  {
    hide ValueOf, Legal, Assign, KeyOf, Plain;
    var kv := SplitFirst(prop, ':');
    if kv.Some? {
      ValuePlain(kv.value.1);
      AssignCarried(d, KeyOf(kv.value.0), ValueOf(kv.value.1));
    }
  }

  lemma {:induction false} ReadPropertiesCarried(d: RamDisk, props: seq<string>)
    requires Legal(d) && forall k :: 0 <= k < |props| ==> ',' !in props[k]
    ensures ReadProperties(d, props).Some? ==> Legal(ReadProperties(d, props).value)
    decreases |props|
  {
    hide ReadProperty, Legal;
    if props != [] {
      ReadPropertyCarried(d, props[0]);
      var r := ReadProperty(d, props[0]);
      if r.Some? {
        ReadPropertiesCarried(r.value, props[1..]);
      }
    }
  }

  lemma {:induction false} ReadObjectsCarried(ss: seq<string>)
    ensures ReadObjects(ss).Some? ==> forall d :: d in ReadObjects(ss).value ==> Legal(d)
  {
    hide ReadProperties, CleanObject;
    if ss != [] {
      assert Legal(FRESH);
      ReadPropertiesCarried(FRESH, Split(CleanObject(ss[0]), ','));
      ReadObjectsCarried(ss[1..]);
    }
  }

  /** Whatever the text, every disk that is read is one the format can carry, with numbers in range. */
  lemma ReadCarried(json: string)
    ensures forall d :: d in Read(json) ==> Legal(d)
  {
    hide Objects, ReadObjects, Legal;
    ReadObjectsCarried(Objects(Trim(json, IsWhite)));
  }

  // ---------- reading back one disk ----------

  /** What becomes of a disk that is written and read. */
  function Back(d: RamDisk): RamDisk {
    d.(imagePath := Some(OrEmpty(d.imagePath)), fileSystem := Some(Unescape(OrEmpty(d.fileSystem))))
  }

  lemma KeyReads(d: RamDisk, key: string, value: string)
    requires key != [] && ':' !in key && '"' !in key
    ensures ReadProperty(d, Property(key, value)) == Assign(d, key, ValueOf(value))
  {
    hide Assign, ValueOf;
    SplitFirstAt(Quoted(key), value, ':');
    TrimFirm(Quoted(key), IsWhite);
    TrimQuoted(key);
  }

  lemma QuotedReads(s: string)
    requires Firm(s, IsQuote)
    ensures ValueOf(Quoted(s)) == Unescape(s)
  {
    TrimFirm(Quoted(s), IsWhite);
    TrimQuoted(s);
  }

  lemma BareReads(s: string)
    requires Firm(s, IsWhite) && Firm(s, IsQuote) && '\\' !in s
    ensures ValueOf(s) == s
  {
    TrimFirm(s, IsWhite);
    TrimFirm(s, IsQuote);
    UnescapeKeeps(s);
  }

  lemma IntReads(n: int)
    ensures ValueOf(PrintInt(n)) == PrintInt(n) && ParseInt(PrintInt(n)) == Some(n)
  {
    BareReads(PrintInt(n));
    ParsePrintInt(n);
  }

  lemma BoolReads(b: bool)
    ensures ParseBool(ValueOf(PrintBool(b))) == Some(b)
  {
    var s := PrintBool(b);
    BareReads(s);
    TrimFirm(s, IsWhite);
    LowerWords();
  }

  lemma LowerWords()
    ensures Lower("true") == "true" && Lower("false") == "false"
  {
    assert "true" == ['t', 'r', 'u', 'e'] && "false" == ['f', 'a', 'l', 's', 'e'];
    assert Lower("e") == "e";
    assert "ue"[1..] == "e" && "rue"[1..] == "ue" && "true"[1..] == "rue";
    assert "se"[1..] == "e" && "lse"[1..] == "se" && "alse"[1..] == "lse" && "false"[1..] == "alse";
    assert Lower("ue") == "ue" && Lower("rue") == "rue";
    assert Lower("se") == "se" && Lower("lse") == "lse" && Lower("alse") == "alse";
  }

  lemma DeviceNumberReads(c: RamDisk, n: int)
    requires 0 <= n < 0x1_0000_0000
    ensures ReadProperty(c, Property("DeviceNumber", PrintInt(n))) == Some(c.(deviceNumber := n))
  {
    hide PrintInt, ParseInt, ValueOf, KeyOf, Property, ReadProperty;
    KeyReads(c, "DeviceNumber", PrintInt(n));
    IntReads(n);
  }

  lemma DriveLetterReads(c: RamDisk, letter: char)
    requires letter != '"'
    ensures ReadProperty(c, Property("DriveLetter", Quoted([letter]))) == Some(c.(driveLetter := letter))
  {
    hide ValueOf, KeyOf, Property, ReadProperty, Quoted;
    KeyReads(c, "DriveLetter", Quoted([letter]));
    QuotedReads([letter]);
    assert Unescape([letter])[0] == letter;
    assert "DriveLetter"[1] == 'r' && "DeviceNumber"[1] == 'e';
  }

  lemma SizeReads(c: RamDisk, n: int)
    requires -0x8000_0000_0000_0000 <= n < 0x8000_0000_0000_0000
    ensures ReadProperty(c, Property("SizeInBytes", PrintInt(n))) == Some(c.(sizeInBytes := n))
  {
    hide PrintInt, ParseInt, ValueOf, KeyOf, Property, ReadProperty;
    KeyReads(c, "SizeInBytes", PrintInt(n));
    IntReads(n);
    assert "SizeInBytes"[0] == 'S' && "DriveLetter"[0] == 'D' && "DeviceNumber"[0] == 'D';
  }

  lemma ImagePathReads(c: RamDisk, path: string)
    requires Firm(path, IsQuote)
    ensures ReadProperty(c, Property("ImagePath", Quoted(Escape(path)))) == Some(c.(imagePath := Some(path)))
  {
    hide ValueOf, KeyOf, Property, ReadProperty, Quoted;
    KeyReads(c, "ImagePath", Quoted(Escape(path)));
    QuotedReads(Escape(path));
    UnescapeEscape(path);
    assert |"ImagePath"| == 9;
  }

  lemma FileSystemReads(c: RamDisk, fs: string)
    requires Firm(fs, IsQuote)
    ensures ReadProperty(c, Property("FileSystem", Quoted(fs))) == Some(c.(fileSystem := Some(Unescape(fs))))
  {
    hide ValueOf, KeyOf, Property, ReadProperty, Quoted;
    KeyReads(c, "FileSystem", Quoted(fs));
    QuotedReads(fs);
    assert |"FileSystem"| == 10;
  }

  lemma SaveReads(c: RamDisk, b: bool)
    ensures ReadProperty(c, Property("SaveOnShutdown", PrintBool(b))) == Some(c.(saveOnShutdown := b))
  {
    hide ValueOf, KeyOf, Property, ReadProperty, PrintBool, ParseBool;
    KeyReads(c, "SaveOnShutdown", PrintBool(b));
    BoolReads(b);
    assert |"SaveOnShutdown"| == 14;
  }

  lemma RemovableReads(c: RamDisk, b: bool)
    ensures ReadProperty(c, Property("IsRemovable", PrintBool(b))) == Some(c.(isRemovable := b))
  {
    hide ValueOf, KeyOf, Property, ReadProperty, PrintBool, ParseBool;
    KeyReads(c, "IsRemovable", PrintBool(b));
    BoolReads(b);
    assert "IsRemovable"[0] == 'I' && "DriveLetter"[0] == 'D' && "SizeInBytes"[0] == 'S';
  }

  lemma AutoSaveReads(c: RamDisk, n: int)
    requires -0x8000_0000 <= n < 0x8000_0000
    ensures ReadProperty(c, Property("AutoSaveIntervalMinutes", PrintInt(n))) == Some(c.(autoSave := n))
  {
    hide PrintInt, ParseInt, ValueOf, KeyOf, Property, ReadProperty;
    KeyReads(c, "AutoSaveIntervalMinutes", PrintInt(n));
    IntReads(n);
    assert |"AutoSaveIntervalMinutes"| == 23;
  }

  lemma ReadStep(c: RamDisk, props: seq<string>, i: nat, c': RamDisk)
    requires i < |props| && ReadProperty(c, props[i]) == Some(c')
    ensures ReadProperties(c, props[i..]) == ReadProperties(c', props[i + 1..])
  {
    hide ReadProperty;
    assert props[i..][0] == props[i] && props[i..][1..] == props[i + 1..];
  }

  lemma PropertiesAre(d: RamDisk)
    ensures var ps := Properties(d);
            && ps[0] == Property("DeviceNumber", PrintInt(d.deviceNumber))
            && ps[1] == Property("DriveLetter", Quoted([d.driveLetter]))
            && ps[2] == Property("SizeInBytes", PrintInt(d.sizeInBytes))
            && ps[3] == Property("ImagePath", Quoted(Escape(OrEmpty(d.imagePath))))
            && ps[4] == Property("FileSystem", Quoted(OrEmpty(d.fileSystem)))
            && ps[5] == Property("SaveOnShutdown", PrintBool(d.saveOnShutdown))
            && ps[6] == Property("IsRemovable", PrintBool(d.isRemovable))
            && ps[7] == Property("AutoSaveIntervalMinutes", PrintInt(d.autoSave))
  {
    hide Property, PrintInt, PrintBool, Quoted, Escape;
  }

  lemma DiskReads(d: RamDisk)
    requires d.InRange() && d.driveLetter != '"'
    requires Firm(OrEmpty(d.imagePath), IsQuote) && Firm(OrEmpty(d.fileSystem), IsQuote)
    ensures ReadProperties(FRESH, Properties(d)) == Some(Back(d))
  {
    hide ReadProperty, ReadProperties, Properties, Property, PrintInt, PrintBool, Quoted, Escape, Unescape, Firm;
    var ps := Properties(d);
    PropertiesAre(d);
    var c0 := FRESH;
    var c1 := c0.(deviceNumber := d.deviceNumber);
    DeviceNumberReads(c0, d.deviceNumber);
    ReadStep(c0, ps, 0, c1);
    var c2 := c1.(driveLetter := d.driveLetter);
    DriveLetterReads(c1, d.driveLetter);
    ReadStep(c1, ps, 1, c2);
    var c3 := c2.(sizeInBytes := d.sizeInBytes);
    SizeReads(c2, d.sizeInBytes);
    ReadStep(c2, ps, 2, c3);
    var c4 := c3.(imagePath := Some(OrEmpty(d.imagePath)));
    ImagePathReads(c3, OrEmpty(d.imagePath));
    ReadStep(c3, ps, 3, c4);
    var c5 := c4.(fileSystem := Some(Unescape(OrEmpty(d.fileSystem))));
    FileSystemReads(c4, OrEmpty(d.fileSystem));
    ReadStep(c4, ps, 4, c5);
    var c6 := c5.(saveOnShutdown := d.saveOnShutdown);
    SaveReads(c5, d.saveOnShutdown);
    ReadStep(c5, ps, 5, c6);
    var c7 := c6.(isRemovable := d.isRemovable);
    RemovableReads(c6, d.isRemovable);
    ReadStep(c6, ps, 6, c7);
    AutoSaveReads(c7, d.autoSave);
    assert c7.(autoSave := d.autoSave) == Back(d);
    ReadStep(c7, ps, 7, Back(d));
    assert ps[0..] == ps && ps[8..] == [];
    ReadNothing(Back(d));
  }

  lemma ReadNothing(c: RamDisk)
    ensures ReadProperties(c, []) == Some(c)
  {
  }

  // ---------- reading back the whole text ----------

  /** A piece between commas: it holds no comma and a comma behind it does not follow a brace. */
  predicate Piece(s: string) {
    s != [] && ',' !in s && s[|s| - 1] != '}'
  }

  lemma PropertyPieces(d: RamDisk)
    requires Carried(d)
    ensures forall k :: 0 <= k < 8 ==> Piece(Properties(d)[k])
  {
    hide PrintInt, PrintBool, Escape, Property, Quoted, Piece;
    ValuePieces(d);
    PropertyPiece("DeviceNumber", PrintInt(d.deviceNumber));
    PropertyPiece("DriveLetter", Quoted([d.driveLetter]));
    PropertyPiece("SizeInBytes", PrintInt(d.sizeInBytes));
    PropertyPiece("ImagePath", Quoted(Escape(OrEmpty(d.imagePath))));
    PropertyPiece("FileSystem", Quoted(OrEmpty(d.fileSystem)));
    PropertyPiece("SaveOnShutdown", PrintBool(d.saveOnShutdown));
    PropertyPiece("IsRemovable", PrintBool(d.isRemovable));
    PropertyPiece("AutoSaveIntervalMinutes", PrintInt(d.autoSave));
  }

  lemma PropertyPiece(key: string, value: string)
    requires ',' !in key && Piece(value)
    ensures Piece(Property(key, value))
  {
  }

  lemma ValuePieces(d: RamDisk)
    requires Carried(d)
    ensures Piece(PrintInt(d.deviceNumber)) && Piece(PrintInt(d.sizeInBytes)) && Piece(PrintInt(d.autoSave))
    ensures Piece(PrintBool(d.saveOnShutdown)) && Piece(PrintBool(d.isRemovable))
    ensures Piece(Quoted([d.driveLetter])) && Piece(Quoted(OrEmpty(d.fileSystem)))
    ensures Piece(Quoted(Escape(OrEmpty(d.imagePath))))
  {
    hide PrintInt, Escape;
  }

  lemma {:induction false} JoinPieces(pieces: seq<string>)
    requires pieces != [] && forall k :: 0 <= k < |pieces| ==> Piece(pieces[k])
    ensures Piece(pieces[0]) && Piece(pieces[|pieces| - 1])
    ensures var j, last := Join(pieces, ','), pieces[|pieces| - 1];
            j != [] && j[0] == pieces[0][0] && j[|j| - 1] == last[|last| - 1] && NoPair(j, '}', ',')
  {
    var j := Join(pieces, ',');
    if |pieces| > 1 {
      JoinPieces(pieces[1..]);
      var a, b := pieces[0], Join(pieces[1..], ',');
      forall i | 0 < i < |j| && j[i] == ','
        ensures j[i - 1] != '}'
      {
        if i > |a| {
          assert j[i] == b[i - |a| - 1];
          assert i > |a| + 1 ==> j[i - 1] == b[i - |a| - 1 - 1];
        }
      }
    }
  }

  /** A printed disk without its closing brace. */
  function Body(d: RamDisk): string {
    ['{'] + Join(Properties(d), ',')
  }

  lemma BodyFacts(d: RamDisk)
    requires Carried(d)
    ensures var j := Join(Properties(d), ',');
            && j != [] && j[0] == '"' && IsDigit(j[|j| - 1])
            && NoPair(j, '}', ',') && Split(j, ',') == Properties(d)
  {
    hide PrintInt, PrintBool, Escape, Quoted, Join, Split, NoPair;
    PropertyPieces(d);
    JoinPieces(Properties(d));
    SplitJoin(Properties(d), ',');
    PropertyEnds(d);
  }

  lemma PropertyEnds(d: RamDisk)
    ensures var first, last := Properties(d)[0], Properties(d)[7];
            first != [] && first[0] == '"' && last != [] && IsDigit(last[|last| - 1])
  {
    hide PrintInt;
  }

  lemma BraceBody(j: string)
    requires j != [] && j[0] == '"' && IsDigit(j[|j| - 1])
    ensures CleanObject(['{'] + j) == j && CleanObject(['{'] + j + ['}']) == j
  {
    hide TrimStart, TrimEnd, Trim;
    var open, full := ['{'] + j, ['{'] + j + ['}'];
    TrimFirm(open, IsWhite);
    TrimFirm(full, IsWhite);
    assert full == ['{'] + (j + ['}']);
    TrimOne('{', j, IsOpenBrace);
    TrimOne('{', j + ['}'], IsOpenBrace);
    TrimOne('}', j, IsCloseBrace);
  }

  /** A disk is read back from its text, with the brace that splitting leaves or without it. */
  lemma BodyReads(d: RamDisk)
    requires d.InRange() && Carried(d)
    ensures ReadObject(Body(d)) == ReadObject(Body(d) + ['}']) == Some(Back(d))
    ensures NoPair(Body(d), '}', ',') && NoPair(Body(d) + ['}'], '}', ',')
  {
    hide Properties, Join, Split, ReadProperties, Carried, CleanObject, Back;
    BodyFacts(d);
    BraceBody(Join(Properties(d), ','));
    BodyDisk(d);
  }

  lemma BodyDisk(d: RamDisk)
    requires d.InRange() && Carried(d)
    ensures ReadProperties(FRESH, Properties(d)) == Some(Back(d))
  {
    hide ReadProperties, Properties, Back;
    DiskReads(d);
  }

  /** What splitting the printed disks leaves: only the last has its closing brace. */
  function Pieces(ds: seq<RamDisk>): (ss: seq<string>)
    requires ds != []
    ensures |ss| == |ds| && forall k :: 0 <= k < |ss| ==> ss[k] != []
  {
    if |ds| == 1 then [Body(ds[0]) + ['}']] else [Body(ds[0])] + Pieces(ds[1..])
  }

  lemma {:induction false} DisksSplit(ds: seq<RamDisk>)
    requires ds != [] && forall d :: d in ds ==> d.InRange() && Carried(d)
    ensures SplitPair(PrintDisks(ds), '}', ',') == Pieces(ds)
  {
    hide Body, NoPair, SplitPair, Carried, PrintDisk, Back;
    var d := ds[0];
    BodyReads(d);
    BodyPrinted(d);
    if |ds| == 1 {
      SplitPairNone(Body(d) + ['}'], '}', ',');
    } else {
      DisksSplit(ds[1..]);
      assert PrintDisks(ds) == Body(d) + ['}', ','] + PrintDisks(ds[1..]);
      SplitPairAt(Body(d), PrintDisks(ds[1..]), '}', ',');
    }
  }

  lemma BodyPrinted(d: RamDisk)
    ensures PrintDisk(d) == Body(d) + ['}'] && Body(d) != [] && Body(d)[0] == '{'
  {
    hide Properties, Join;
  }

  lemma {:induction false} AllNonEmpty(ss: seq<string>)
    requires forall k :: 0 <= k < |ss| ==> ss[k] != []
    ensures NonEmpty(ss) == ss
  {
    if ss != [] {
      AllNonEmpty(ss[1..]);
    }
  }

  function BackAll(ds: seq<RamDisk>): (r: seq<RamDisk>)
    ensures |r| == |ds| && forall k :: 0 <= k < |ds| ==> r[k] == Back(ds[k])
  {
    seq(|ds|, k requires 0 <= k < |ds| => Back(ds[k]))
  }

  lemma {:induction false} PiecesRead(ds: seq<RamDisk>)
    requires ds != [] && forall d :: d in ds ==> d.InRange() && Carried(d)
    ensures ReadObjects(Pieces(ds)) == Some(BackAll(ds))
  {
    hide Body, NoPair, ReadObject, Carried, Back;
    BodyReads(ds[0]);
    if |ds| == 1 {
      ReadOneObject(Body(ds[0]) + ['}'], Back(ds[0]));
      assert BackAll(ds) == [Back(ds[0])];
    } else {
      PiecesRead(ds[1..]);
      assert BackAll(ds) == [Back(ds[0])] + BackAll(ds[1..]);
    }
  }

  lemma ReadOneObject(s: string, d: RamDisk)
    requires ReadObject(s) == Some(d)
    ensures ReadObjects([s]) == Some([d])
  {
    hide ReadObject;
    assert ReadObjects([s][1..]) == Some([]);
    assert [d] + [] == [d];
  }

  lemma PrintEnds(ds: seq<RamDisk>)
    ensures Firm(Print(ds), IsWhite) && Brackets(Print(ds)) == PrintDisks(ds)
    ensures Print(ds) != [] && (Print(ds) == "[]" <==> ds == [])
  {
    hide PrintDisk;
    if ds != [] {
      BodyPrinted(ds[0]);
      assert PrintDisks(ds) != [];
      assert |Print(ds)| > 2;
    }
  }

  /** Disks that the format can carry come back, with null strings empty and the backslashes of the file
      system name collapsed. */
  lemma CarriedComeBack(ds: seq<RamDisk>)
    requires forall d :: d in ds ==> d.InRange() && Carried(d)
    ensures Read(Print(ds)) == BackAll(ds)
  {
    hide Carried, Print, PrintDisks, Back, Trim, SplitPair, ReadObjects;
    PrintEnds(ds);
    TrimFirm(Print(ds), IsWhite);
    if ds != [] {
      DisksSplit(ds);
      AllNonEmpty(Pieces(ds));
      PiecesRead(ds);
    }
  }

  /** The disk with null strings empty: as equal to `d` as the format can tell. */
  function Normal(d: RamDisk): RamDisk {
    d.(imagePath := Some(OrEmpty(d.imagePath)), fileSystem := Some(OrEmpty(d.fileSystem)))
  }

  function NormalAll(ds: seq<RamDisk>): (r: seq<RamDisk>)
    ensures |r| == |ds| && forall k :: 0 <= k < |ds| ==> r[k] == Normal(ds[k])
  {
    seq(|ds|, k requires 0 <= k < |ds| => Normal(ds[k]))
  }

  /** The file system name, which is written as it is, has no two backslashes in a row. */
  predicate Restorable(d: RamDisk) {
    Carried(d) && NoPair(OrEmpty(d.fileSystem), '\\', '\\')
  }

  /** Reading what was written restores every field of every disk, in order, exactly when in each disk the
      drive letter is no comma or quote, path and file system name have no comma and no quote at either end,
      and the file system name has no two backslashes in a row. */
  lemma RoundTrip(ds: seq<RamDisk>)
    requires forall d :: d in ds ==> d.InRange()
    ensures Read(Print(ds)) == NormalAll(ds) <==> forall d :: d in ds ==> Restorable(d)
  {
    hide Print, Read, NoPair, Unescape, Plain;
    ReadCarried(Print(ds));
    if Read(Print(ds)) == NormalAll(ds) {
      forall d | d in ds
        ensures Carried(d)
      {
        var k :| 0 <= k < |ds| && ds[k] == d;
        assert NormalAll(ds)[k] in Read(Print(ds));
      }
    }
    if forall d :: d in ds ==> Carried(d) {
      CarriedComeBack(ds);
      forall k | 0 <= k < |ds|
        ensures BackAll(ds)[k] == NormalAll(ds)[k] <==> Restorable(ds[k])
      {
        UnescapeKeeps(OrEmpty(ds[k].fileSystem));
      }
    }
  }
}
