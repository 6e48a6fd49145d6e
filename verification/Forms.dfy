/** The forms that the configuration reader takes, character by character, and when it gives up. */
module Forms {
  import opened Text
  import opened Config
  import opened Wrappers

  // ---------- white space ----------

  /** Only characters that count as white space. */
  predicate White(s: string) {
    forall k :: 0 <= k < |s| ==>
      var u := s[k] as int;
      u in {9, 10, 11, 12, 13, 0x20, 0x85, 0xA0, 0x1680, 0x2028, 0x2029, 0x202F, 0x205F, 0x3000}
      || 0x2000 <= u <= 0x200A
  }

  predicate Blank(s: string) {
    forall k :: 0 <= k < |s| ==> s[k] as int in {9, 10, 11, 12, 13, 0x20}
  }

  lemma WhiteAll(s: string)
    ensures White(s) <==> All(s, IsWhite)
    ensures Blank(s) <==> All(s, IsBlank)
  {
  }

  /** White space around the whole text does not matter. */
  lemma ReadPadded(a: string, json: string, b: string)
    requires White(a) && White(b)
    ensures Read(a + json + b) == Read(json)
  {
    hide Trim, Objects, ReadObjects, IsWhite;
    WhiteAll(a);
    WhiteAll(b);
    var c, d := TrimParts(json, IsWhite);
    assert a + json + b == (a + c) + Trim(json, IsWhite) + (d + b);
    TrimPadded(a + c, Trim(json, IsWhite), d + b, IsWhite);
  }

  // ---------- numbers ----------

  function Decimal(digits: string): int
    requires forall k :: 0 <= k < |digits| ==> '0' <= digits[k] <= '9'
  {
    if digits == [] then 0
    else 10 * Decimal(digits[..|digits| - 1]) + (digits[|digits| - 1] as int - 48)
  }

  /** An optional sign and digits, with blanks around, that say `n`. */
  predicate SaysNumber(s: string, a: string, sign: string, digits: string, b: string, n: int) {
    && s == a + sign + digits + b && Blank(a) && Blank(b)
    && sign in {"", "+", "-"} && digits != []
    && (forall k :: 0 <= k < |digits| ==> '0' <= digits[k] <= '9')
    && n == if sign == "-" then -Decimal(digits) else Decimal(digits)
  }

  lemma {:induction false} DigitsSay(s: string)
    ensures ParseDigits(s).Some? <==> s != [] && forall k :: 0 <= k < |s| ==> '0' <= s[k] <= '9'
    ensures ParseDigits(s).Some? ==> ParseDigits(s).value == Decimal(s)
  {
    if s != [] && IsDigit(s[|s| - 1]) {
      var t := s[..|s| - 1];
      assert s == t + [s[|s| - 1]];
      if t != [] {
        DigitsSay(t);
      }
    }
  }

  /** The numbers that are taken, and their values. */
  lemma ParseIntExactly(s: string, n: int)
    ensures ParseInt(s) == Some(n) <==> exists a, sign, digits, b :: SaysNumber(s, a, sign, digits, b, n)
  {
    hide Trim, ParseDigits, Decimal, IsBlank;
    if ParseInt(s) == Some(n) {
      var a, b := TrimParts(s, IsBlank);
      WhiteAll(a);
      WhiteAll(b);
      var t := Trim(s, IsBlank);
      if t != [] && t[0] in ['-', '+'] {
        DigitsSay(t[1..]);
        assert t == [t[0]] + t[1..];
        assert SaysNumber(s, a, [t[0]], t[1..], b, n);
      } else {
        DigitsSay(t);
        assert s == a + "" + t + b;
        assert SaysNumber(s, a, "", t, b, n);
      }
    }
    if exists a, sign, digits, b :: SaysNumber(s, a, sign, digits, b, n) {
      var a, sign, digits, b :| SaysNumber(s, a, sign, digits, b, n);
      NumberParses(s, a, sign, digits, b, n);
    }
  }

  lemma NumberParses(s: string, a: string, sign: string, digits: string, b: string, n: int)
    requires SaysNumber(s, a, sign, digits, b, n)
    ensures ParseInt(s) == Some(n)
  {
    hide Trim, ParseDigits, Decimal;
    WhiteAll(a);
    WhiteAll(b);
    DigitsSay(digits);
    var t := sign + digits;
    assert s == a + t + b;
    TrimPadded(a, t, b, IsBlank);
    if sign == "" {
      assert t == digits;
    } else {
      assert t[1..] == digits;
    }
  }

  /** How numbers are written: in base ten, without leading zeros. */
  lemma PrintedDecimal(n: int, k: nat)
    requires 0 <= n && k < 10
    ensures PrintInt(k) == ["0123456789"[k]]
    ensures n > 0 ==> PrintInt(10 * n + k) == PrintInt(n) + ["0123456789"[k]] && PrintInt(-n) == "-" + PrintInt(n)
  {
    assert (10 * n + k) / 10 == n && (10 * n + k) % 10 == k;
  }

  // ---------- truth values ----------

  /** The small letter itself or its capital. */
  predicate SameLetter(c: char, small: char) {
    c == small || ('A' <= c <= 'Z' && c as int + 32 == small as int)
  }

  /** The word in any mixture of upper and lower case. */
  predicate SameWord(s: string, word: string) {
    |s| == |word| && forall k :: 0 <= k < |s| ==> SameLetter(s[k], word[k])
  }

  lemma SameWordTail(s: string, word: string)
    requires s != "" && word != ""
    ensures SameWord(s, word) <==> SameLetter(s[0], word[0]) && SameWord(s[1..], word[1..])
  {
    hide SameLetter;
    if SameLetter(s[0], word[0]) && SameWord(s[1..], word[1..]) {
      forall k | 0 < k < |s|
        ensures SameLetter(s[k], word[k])
      {
        assert s[1..][k - 1] == s[k] && word[1..][k - 1] == word[k];
      }
    }
  }

  lemma {:induction false} LowerExactly(s: string, word: string)
    requires forall k :: 0 <= k < |word| ==> 'a' <= word[k] <= 'z'
    ensures Lower(s) == word <==> SameWord(s, word)
  {
    if s == "" || word == "" {
      assert |Lower(s)| > 0 <==> |s| > 0;
    } else {
      LowerExactly(s[1..], word[1..]);
      SameWordTail(s, word);
      hide SameWord;
      assert Lower(s)[1..] == Lower(s[1..]);
      assert Lower(s) == [Lower(s)[0]] + Lower(s)[1..] && word == [word[0]] + word[1..];
    }
  }

  lemma ParseBoolExactly(s: string, v: bool)
    ensures ParseBool(s) == Some(v) <==>
            exists a, t, b :: s == a + t + b && White(a) && White(b) && SameWord(t, if v then "true" else "false")
  {
    hide Trim, Lower, IsWhite, SameWord;
    var word := if v then "true" else "false";
    LowerExactly(Trim(s, IsWhite), word);
    if ParseBool(s) == Some(v) {
      var a, b := TrimParts(s, IsWhite);
      WhiteAll(a);
      WhiteAll(b);
    }
    if a, t, b :| s == a + t + b && White(a) && White(b) && SameWord(t, word) {
      WhiteAll(a);
      WhiteAll(b);
      WordFirm(t, word);
      TrimPadded(a, t, b, IsWhite);
    }
  }

  lemma WordFirm(t: string, word: string)
    requires SameWord(t, word) && word in {"true", "false"}
    ensures Firm(t, IsWhite)
  {
    assert forall k :: 0 <= k < |word| ==> 'a' <= word[k] <= 'z';
    if t != [] {
      assert 'A' <= t[0] <= 'z' && 'A' <= t[|t| - 1] <= 'z';
    }
  }

  // ---------- names and values ----------

  /** `name`, perhaps in quotes, with white space around. */
  predicate SaysName(s: string, a: string, open: string, name: string, close: string, b: string) {
    var t := open + name + close;
    && s == a + t + b && White(a) && White(b)
    && (t != "" ==> !White(t[..1]) && !White(t[|t| - 1..]))
    && (forall k :: 0 <= k < |open| ==> open[k] == '"') && (forall k :: 0 <= k < |close| ==> close[k] == '"')
    && (name != "" ==> name[0] != '"' && name[|name| - 1] != '"')
  }

  /** What is taken as the name of a property, and as its value but for halved backslashes. */
  lemma NameExactly(s: string, name: string)
    ensures KeyOf(s) == name <==> exists a, open, close, b :: SaysName(s, a, open, name, close, b)
    ensures ValueOf(s) == Unescape(KeyOf(s))
  {
    hide Trim, White, IsWhite, Unescape, SaysName;
    if KeyOf(s) == name {
      var a, b := TrimParts(s, IsWhite);
      var open, close := TrimParts(Trim(s, IsWhite), IsQuote);
      NameTaken(s, a, open, name, close, b);
    }
    if a, open, close, b :| SaysName(s, a, open, name, close, b) {
      NameTaken(s, a, open, name, close, b);
      TrimPadded(a, open + name + close, b, IsWhite);
      TrimPadded(open, name, close, IsQuote);
    }
  }

  lemma NameTaken(s: string, a: string, open: string, name: string, close: string, b: string)
    ensures SaysName(s, a, open, name, close, b) <==>
            && s == a + (open + name + close) + b && All(a, IsWhite) && All(b, IsWhite)
            && Firm(open + name + close, IsWhite) && All(open, IsQuote) && All(close, IsQuote) && Firm(name, IsQuote)
  {
    hide IsWhite, White;
    var t := open + name + close;
    WhiteAll(a);
    WhiteAll(b);
    if t != "" {
      WhiteAll(t[..1]);
      WhiteAll(t[|t| - 1..]);
    }
  }

  // ---------- properties ----------

  predicate Inside(val: string, lo: int, hi: int) {
    ParseInt(val).Some? && lo <= ParseInt(val).value <= hi
  }

  /** The values that end the reading with an exception. */
  predicate Refused(key: string, val: string) {
    || (key == "DeviceNumber" && !Inside(val, 0, 0xFFFF_FFFF))
    || (key == "DriveLetter" && val == "")
    || (key == "SizeInBytes" && !Inside(val, -0x8000_0000_0000_0000, 0x7FFF_FFFF_FFFF_FFFF))
    || (key in {"SaveOnShutdown", "IsRemovable"} && ParseBool(val).None?)
  }

  /** Each name sets its own field. Other names do not matter, nor does an interval that is no 32-bit number. */
  lemma AssignExactly(d: RamDisk, key: string, val: string)
    ensures Assign(d, key, val).None? <==> Refused(key, val)
    ensures !Refused(key, val) ==>
              Assign(d, key, val).value == RamDisk(
                if key == "DeviceNumber" then ParseInt(val).value else d.deviceNumber,
                if key == "DriveLetter" then val[0] else d.driveLetter,
                if key == "SizeInBytes" then ParseInt(val).value else d.sizeInBytes,
                if key == "ImagePath" then Some(val) else d.imagePath,
                if key == "FileSystem" then Some(val) else d.fileSystem,
                if key == "SaveOnShutdown" then ParseBool(val).value else d.saveOnShutdown,
                if key == "IsRemovable" then ParseBool(val).value else d.isRemovable,
                if key == "AutoSaveIntervalMinutes" && Inside(val, -0x8000_0000, 0x7FFF_FFFF)
                then ParseInt(val).value else d.autoSave)
  {
    hide ParseInt, ParseBool;
  }

  /** A piece of an object with a name that is known and a value that is refused. */
  ghost predicate Bad(prop: string) {
    exists k, v :: prop == k + ":" + v && ':' !in k && Refused(KeyOf(k), ValueOf(v))
  }

  lemma BadExactly(d: RamDisk, prop: string)
    ensures ReadProperty(d, prop).None? <==> Bad(prop)
    ensures ':' !in prop ==> ReadProperty(d, prop) == Some(d)
  {
    hide KeyOf, ValueOf, Assign, Refused;
    var split := SplitFirst(prop, ':');
    if split.Some? {
      var (k, v) := split.value;
      AssignExactly(d, KeyOf(k), ValueOf(v));
      assert prop == k + ":" + v;
    }
    if k, v :| prop == k + ":" + v && ':' !in k && Refused(KeyOf(k), ValueOf(v)) {
      SplitFirstAt(k, v, ':');
      assert prop == k + [':'] + v;
    }
  }

  lemma {:induction false} ReadPropertiesExactly(d: RamDisk, props: seq<string>)
    ensures ReadProperties(d, props).None? <==> exists p :: p in props && Bad(p)
    decreases |props|
  {
    hide ReadProperty, Bad;
    if props != [] {
      BadExactly(d, props[0]);
      assert forall p :: p in props <==> p == props[0] || p in props[1..];
      if ReadProperty(d, props[0]).Some? {
        ReadPropertiesExactly(ReadProperty(d, props[0]).value, props[1..]);
      }
    }
  }

  // ---------- whole texts ----------

  /** A property of one of the objects is bad. */
  ghost predicate Spoiled(objects: seq<string>) {
    exists i, p :: 0 <= i < |objects| && p in Split(CleanObject(objects[i]), ',') && Bad(p)
  }

  lemma {:induction false} ReadObjectsExactly(ss: seq<string>)
    ensures ReadObjects(ss).None? <==> Spoiled(ss)
    ensures ReadObjects(ss).Some? ==> |ReadObjects(ss).value| == |ss|
  {
    hide Bad, Split, CleanObject, ReadProperties;
    if ss != [] {
      ReadPropertiesExactly(FRESH, Split(CleanObject(ss[0]), ','));
      ReadObjectsExactly(ss[1..]);
      if i, p :| 0 <= i < |ss[1..]| && p in Split(CleanObject(ss[1..][i]), ',') && Bad(p) {
        assert ss[i + 1] == ss[1..][i];
      }
      if i, p :| 0 <= i < |ss| && p in Split(CleanObject(ss[i]), ',') && Bad(p) {
        assert i > 0 ==> ss[1..][i - 1] == ss[i];
      }
    }
  }

  /** All or nothing: a text yields a disk for each of its objects, unless one of them has a bad property. */
  lemma ReadAllOrNone(json: string)
    ensures var t := Trim(json, IsWhite);
            t !in {"", "[]"} && !Spoiled(Objects(t)) ==> ReadObjects(Objects(t)) == Some(Read(json))
    ensures var t := Trim(json, IsWhite);
            |Read(json)| == if t in {"", "[]"} || Spoiled(Objects(t)) then 0 else |Objects(t)|
  {
    hide Objects, ReadObjects, Trim, Spoiled;
    ReadObjectsExactly(Objects(Trim(json, IsWhite)));
  }

  /** One pair of brackets around the list is taken off, and nothing else. */
  lemma BracketsExactly(t: string)
    ensures Brackets("[" + t + "]") == t
    ensures Brackets(t) == t || t == "[" + Brackets(t) + "]"
  {
    assert ("[" + t + "]")[1..|t| + 1] == t;
  }

  /** Empty pieces are left out, the others kept in order. */
  lemma {:induction false} NonEmptyExactly(a: seq<string>, b: seq<string>, s: string)
    ensures NonEmpty(a + b) == NonEmpty(a) + NonEmpty(b)
    ensures NonEmpty([s]) == if s == "" then [] else [s]
  {
    assert NonEmpty([s][1..]) == [];
    if a == [] {
      assert a + b == b;
    } else {
      assert (a + b)[1..] == a[1..] + b;
      NonEmptyExactly(a[1..], b, s);
    }
  }

  lemma {:induction false} NonEmptyMeans(ss: seq<string>)
    ensures "" !in NonEmpty(ss)
    ensures forall s :: s in ss && s != "" ==> s in NonEmpty(ss)
  {
    if ss != [] {
      NonEmptyMeans(ss[1..]);
      assert forall s :: s in ss <==> s == ss[0] || s in ss[1..];
    }
  }

  /** Every piece of a list in brackets that is not empty is an object, and no empty piece is. */
  lemma ObjectsExactly(t: string)
    ensures "" !in Objects(t)
    ensures forall s :: s in SplitPair(t, '}', ',') && s != "" ==> s in Objects("[" + t + "]")
  {
    hide NonEmpty, SplitPair, Brackets;
    NonEmptyMeans(SplitPair(Brackets(t), '}', ','));
    NonEmptyMeans(SplitPair(t, '}', ','));
    BracketsExactly(t);
  }

  /** White space, then opening braces, then closing braces are taken off an object. */
  lemma CleanExactly(a: string, open: string, body: string, close: string, b: string)
    requires White(a) && White(b) && open + close != "" && body != ""
    requires forall k :: 0 <= k < |open| ==> open[k] == '{'
    requires forall k :: 0 <= k < |close| ==> close[k] == '}'
    requires body[0] != '{' && body[|body| - 1] != '}'
    requires !White((open + body)[..1]) && !White((body + close)[|body + close| - 1..])
    ensures CleanObject(a + open + body + close + b) == body
  {
    hide Trim, TrimStart, TrimEnd, White, IsWhite;
    var t := open + body + close;
    WhiteAll(a);
    WhiteAll(b);
    WhiteAll((open + body)[..1]);
    WhiteAll((body + close)[|body + close| - 1..]);
    assert a + open + body + close + b == a + t + b;
    assert t[0] == (open + body)[..1][0] && t[|t| - 1] == (body + close)[|body + close| - 1..][0];
    TrimPadded(a, t, b, IsWhite);
    assert t == open + (body + close);
    TrimStartPadded(open, body + close, IsOpenBrace);
    TrimEndPadded(body, close, IsCloseBrace);
  }

  /** An object without properties is a disk with nothing set. */
  lemma EmptyObject(s: string)
    requires ':' !in CleanObject(s) && ',' !in CleanObject(s)
    ensures ReadObject(s) == Some(RamDisk(0xFFFF_FFFF, '\0', 0, None, None, false, false, 0))
  {
    hide ReadProperty, CleanObject;
    SplitNone(CleanObject(s), ',');
    BadExactly(FRESH, CleanObject(s));
    assert ReadProperties(FRESH, [CleanObject(s)][1..]) == Some(FRESH);
  }

  /** The text of a disk: eight properties between commas, in braces. */
  lemma PrintedDisk(d: RamDisk)
    ensures var ps := Properties(d);
            && PrintDisk(d) == "{" + (ps[0] + "," + (ps[1] + "," + (ps[2] + "," + (ps[3] + "," + (ps[4] + ","
                               + (ps[5] + "," + (ps[6] + "," + ps[7]))))))) + "}"
            && ps[0] == "\"" + "DeviceNumber" + "\":" + PrintInt(d.deviceNumber)
            && ps[1] == "\"" + "DriveLetter" + "\":" + ("\"" + [d.driveLetter] + "\"")
            && ps[2] == "\"" + "SizeInBytes" + "\":" + PrintInt(d.sizeInBytes)
            && ps[3] == "\"" + "ImagePath" + "\":" + ("\"" + Escape(OrEmpty(d.imagePath)) + "\"")
            && ps[4] == "\"" + "FileSystem" + "\":" + ("\"" + OrEmpty(d.fileSystem) + "\"")
            && ps[5] == "\"" + "SaveOnShutdown" + "\":" + (if d.saveOnShutdown then "true" else "false")
            && ps[6] == "\"" + "IsRemovable" + "\":" + (if d.isRemovable then "true" else "false")
            && ps[7] == "\"" + "AutoSaveIntervalMinutes" + "\":" + PrintInt(d.autoSave)
  {
    hide PrintInt, Escape, Join, Properties, Property;
    PropertiesAre(d);
    JoinEight(Properties(d));
    PropertyText("DeviceNumber", PrintInt(d.deviceNumber));
    PropertyText("DriveLetter", Quoted([d.driveLetter]));
    PropertyText("SizeInBytes", PrintInt(d.sizeInBytes));
    PropertyText("ImagePath", Quoted(Escape(OrEmpty(d.imagePath))));
    PropertyText("FileSystem", Quoted(OrEmpty(d.fileSystem)));
    PropertyText("SaveOnShutdown", PrintBool(d.saveOnShutdown));
    PropertyText("IsRemovable", PrintBool(d.isRemovable));
    PropertyText("AutoSaveIntervalMinutes", PrintInt(d.autoSave));
  }

  lemma PropertyText(key: string, value: string)
    ensures Property(key, value) == "\"" + key + "\":" + value
  {
  }

  lemma JoinEight(ps: seq<string>)
    requires |ps| == 8
    ensures Join(ps, ',') == ps[0] + "," + (ps[1] + "," + (ps[2] + "," + (ps[3] + "," + (ps[4] + ","
                             + (ps[5] + "," + (ps[6] + "," + ps[7]))))))
  {
    hide Join;
    JoinOne(ps[7]);
    JoinStep(ps, 6);
    JoinStep(ps, 5);
    JoinStep(ps, 4);
    JoinStep(ps, 3);
    JoinStep(ps, 2);
    JoinStep(ps, 1);
    JoinStep(ps, 0);
    assert ps[0..] == ps && ps[7..] == [ps[7]];
  }

  lemma JoinOne(s: string)
    ensures Join([s], ',') == s
  {
  }

  lemma JoinStep(ps: seq<string>, i: nat)
    requires i + 1 < |ps|
    ensures Join(ps[i..], ',') == ps[i] + "," + Join(ps[i + 1..], ',')
  {
    assert ps[i..][1..] == ps[i + 1..];
  }
}
