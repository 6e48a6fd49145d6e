/** The .NET string operations that the configuration reader and writer use. */
module Text {
  import opened Wrappers

  // ---------- trimming ----------

  predicate IsWhite(c: char) {
    var u := c as int;
    || 0x09 <= u <= 0x0D || u == 0x20 || u == 0x85 || u == 0xA0 || u == 0x1680 || 0x2000 <= u <= 0x200A
    || u == 0x2028 || u == 0x2029 || u == 0x202F || u == 0x205F || u == 0x3000
  }

  /** The blanks that number parsing allows around a number. */
  predicate IsBlank(c: char) {
    c == ' ' || 0x09 <= c as int <= 0x0D
  }

  predicate IsQuote(c: char) {
    c == '"'
  }

  predicate IsOpenBrace(c: char) {
    c == '{'
  }

  predicate IsCloseBrace(c: char) {
    c == '}'
  }

  function TrimStart(s: string, p: char -> bool): (r: string)
    ensures r == [] || !p(r[0])
    ensures forall c :: c in r ==> c in s
    ensures r != [] ==> s != [] && r[|r| - 1] == s[|s| - 1]
  {
    if s != [] && p(s[0]) then TrimStart(s[1..], p) else s
  }

  function TrimEnd(s: string, p: char -> bool): (r: string)
    ensures r == [] || !p(r[|r| - 1])
    ensures forall c :: c in r ==> c in s
    ensures r != [] ==> s != [] && r[0] == s[0]
  {
    if s != [] && p(s[|s| - 1]) then TrimEnd(s[..|s| - 1], p) else s
  }

  function Trim(s: string, p: char -> bool): (r: string)
    ensures r == [] || (!p(r[0]) && !p(r[|r| - 1]))
    ensures forall c :: c in r ==> c in s
  {
    TrimEnd(TrimStart(s, p), p)
  }

  /** Neither end of the string is trimmed. */
  predicate Firm(s: string, p: char -> bool) {
    s != [] ==> !p(s[0]) && !p(s[|s| - 1])
  }

  lemma TrimFirm(s: string, p: char -> bool)
    requires Firm(s, p)
    ensures Trim(s, p) == s && TrimStart(s, p) == s && TrimEnd(s, p) == s
  {
  }

  /** Quotes around a string whose own ends are no quotes are taken off, and nothing else. */
  lemma TrimQuoted(s: string)
    requires Firm(s, IsQuote)
    ensures Trim(['"'] + s + ['"'], IsQuote) == s
  {
    var q := ['"'] + s + ['"'];
    assert q[1..] == s + ['"'];
    assert TrimStart(q, IsQuote) == TrimStart(q[1..], IsQuote);
    if s == [] {
      assert q[1..] == ['"'] && q[1..][1..] == [];
      assert TrimStart(q[1..], IsQuote) == TrimStart(q[1..][1..], IsQuote) == [];
    } else {
      assert (s + ['"'])[..|s|] == s;
      assert TrimEnd(s + ['"'], IsQuote) == TrimEnd((s + ['"'])[..|s|], IsQuote);
    }
  }

  /** One character that is trimmed at either end of a string that is firm there. */
  lemma TrimOne(c: char, s: string, p: char -> bool)
    requires p(c) && s != []
    ensures !p(s[0]) ==> TrimStart([c] + s, p) == s
    ensures !p(s[|s| - 1]) ==> TrimEnd(s + [c], p) == s && TrimEnd(s, p) == s
  {
    assert ([c] + s)[1..] == s && (s + [c])[..|s|] == s;
    assert TrimStart([c] + s, p) == TrimStart(([c] + s)[1..], p);
    assert TrimEnd(s + [c], p) == TrimEnd((s + [c])[..|s|], p);
  }

  predicate All(s: string, p: char -> bool) {
    forall k :: 0 <= k < |s| ==> p(s[k])
  }

  lemma {:induction false} TrimStartPadded(a: string, t: string, p: char -> bool)
    requires All(a, p) && (t == [] || !p(t[0]))
    ensures TrimStart(a + t, p) == t
  {
    if a == [] {
      assert a + t == t;
    } else {
      assert (a + t)[1..] == a[1..] + t;
      TrimStartPadded(a[1..], t, p);
    }
  }

  lemma {:induction false} TrimEndPadded(t: string, b: string, p: char -> bool)
    requires All(b, p) && (t == [] || !p(t[|t| - 1]))
    ensures TrimEnd(t + b, p) == t
  {
    if b == [] {
      assert t + b == t;
    } else {
      assert (t + b)[..|t + b| - 1] == t + b[..|b| - 1];
      TrimEndPadded(t, b[..|b| - 1], p);
    }
  }

  /** Trimming takes off everything around a string that is firm itself. */
  lemma TrimPadded(a: string, t: string, b: string, p: char -> bool)
    requires All(a, p) && All(b, p) && Firm(t, p)
    ensures Trim(a + t + b, p) == t
  {
    if t == [] {
      assert a + t + b == (a + b) + [];
      TrimStartPadded(a + b, [], p);
      TrimFirm([], p);
    } else {
      assert a + t + b == a + (t + b);
      TrimStartPadded(a, t + b, p);
      TrimEndPadded(t, b, p);
    }
  }

  lemma {:induction false} TrimStartParts(s: string, p: char -> bool) returns (a: string)
    ensures s == a + TrimStart(s, p) && All(a, p)
  {
    a := [];
    if s != [] && p(s[0]) {
      a := TrimStartParts(s[1..], p);
      a := [s[0]] + a;
    }
  }

  lemma {:induction false} TrimEndParts(s: string, p: char -> bool) returns (b: string)
    ensures s == TrimEnd(s, p) + b && All(b, p)
  {
    b := [];
    if s != [] && p(s[|s| - 1]) {
      b := TrimEndParts(s[..|s| - 1], p);
      b := b + [s[|s| - 1]];
    }
  }

  /** What trimming has taken off. */
  lemma TrimParts(s: string, p: char -> bool) returns (a: string, b: string)
    ensures s == a + Trim(s, p) + b && All(a, p) && All(b, p) && Firm(Trim(s, p), p)
  {
    a := TrimStartParts(s, p);
    b := TrimEndParts(TrimStart(s, p), p);
  }

  // ---------- splitting and joining ----------

  function Join(pieces: seq<string>, c: char): string
    requires pieces != []
  {
    if |pieces| == 1 then pieces[0] else pieces[0] + [c] + Join(pieces[1..], c)
  }

  function Split(s: string, c: char): (pieces: seq<string>)
    ensures pieces != []
    ensures forall k :: 0 <= k < |pieces| ==> c !in pieces[k]
  {
    if s == [] then [[]]
    else
      var later := Split(s[1..], c);
      if s[0] == c then [[]] + later else [[s[0]] + later[0]] + later[1..]
  }

  lemma {:induction false} SplitAt(a: string, rest: string, c: char)
    requires c !in a
    ensures Split(a + [c] + rest, c) == [a] + Split(rest, c)
  {
    var s := a + [c] + rest;
    if a == [] {
      assert s[1..] == rest;
    } else {
      assert s[1..] == a[1..] + [c] + rest;
      SplitAt(a[1..], rest, c);
      assert [a[0]] + a[1..] == a;
    }
  }

  lemma {:induction false} SplitNone(s: string, c: char)
    requires c !in s
    ensures Split(s, c) == [s]
  {
    if s != [] {
      SplitNone(s[1..], c);
      assert [s[0]] + s[1..] == s;
    }
  }

  lemma {:induction false} SplitJoin(pieces: seq<string>, c: char)
    requires pieces != [] && forall k :: 0 <= k < |pieces| ==> c !in pieces[k]
    ensures Split(Join(pieces, c), c) == pieces
  {
    if |pieces| == 1 {
      SplitNone(pieces[0], c);
    } else {
      SplitAt(pieces[0], Join(pieces[1..], c), c);
      SplitJoin(pieces[1..], c);
    }
  }

  /** Split(new[] { c }, 2): the parts before and after the first `c`. */
  function SplitFirst(s: string, c: char): (r: Option<(string, string)>)
    ensures r.Some? ==> s == r.value.0 + [c] + r.value.1 && c !in r.value.0
  {
    if s == [] then None
    else if s[0] == c then Some(([], s[1..]))
    else
      match SplitFirst(s[1..], c)
      case None => None
      case Some((a, b)) => Some(([s[0]] + a, b))
  }

  lemma {:induction false} SplitFirstAt(a: string, b: string, c: char)
    requires c !in a
    ensures SplitFirst(a + [c] + b, c) == Some((a, b))
  {
    var s := a + [c] + b;
    if a == [] {
      assert s[1..] == b;
    } else {
      assert s[1..] == a[1..] + [c] + b;
      SplitFirstAt(a[1..], b, c);
      assert [a[0]] + a[1..] == a;
    }
  }

  /** Split on the two characters `x` and `y` in a row. */
  function SplitPair(s: string, x: char, y: char): (pieces: seq<string>)
    ensures pieces != []
  {
    if s == [] then [[]]
    else if |s| >= 2 && s[0] == x && s[1] == y then [[]] + SplitPair(s[2..], x, y)
    else
      var later := SplitPair(s[1..], x, y);
      [[s[0]] + later[0]] + later[1..]
  }

  predicate NoPair(s: string, x: char, y: char) {
    forall i :: 0 < i < |s| ==> s[i] != y || s[i - 1] != x
  }

  lemma {:induction false} SplitPairAt(a: string, rest: string, x: char, y: char)
    requires x != y && NoPair(a, x, y)
    ensures SplitPair(a + [x, y] + rest, x, y) == [a] + SplitPair(rest, x, y)
  {
    var s := a + [x, y] + rest;
    if a == [] {
      assert s[2..] == rest;
    } else {
      assert s[1..] == a[1..] + [x, y] + rest;
      assert |a| > 1 ==> s[1] == a[1] && (a[1] != y || a[0] != x);
      assert |a| == 1 ==> s[1] == x;
      SplitPairAt(a[1..], rest, x, y);
      assert [a[0]] + a[1..] == a;
    }
  }

  lemma {:induction false} SplitPairNone(s: string, x: char, y: char)
    requires NoPair(s, x, y)
    ensures SplitPair(s, x, y) == [s]
  {
    if s != [] {
      SplitPairNone(s[1..], x, y);
      assert [s[0]] + s[1..] == s;
    }
  }

  // ---------- backslashes ----------

  /** Replace("\\", "\\\\") */
  function Escape(s: string): (r: string)
    ensures forall c :: c in r ==> c in s
    ensures r != [] <==> s != []
    ensures r != [] ==> r[0] == s[0] && r[|r| - 1] == s[|s| - 1]
  {
    if s == [] then []
    else if s[0] == '\\' then ['\\', '\\'] + Escape(s[1..])
    else [s[0]] + Escape(s[1..])
  }

  /** Replace("\\\\", "\\"): from left to right, without overlap. */
  function Unescape(s: string): (r: string)
    ensures forall c :: c in r ==> c in s
    ensures r != [] <==> s != []
    ensures r != [] ==> r[0] == s[0] && r[|r| - 1] == s[|s| - 1]
    ensures |r| <= |s|
  {
    if s == [] then []
    else if |s| >= 2 && s[0] == '\\' && s[1] == '\\' then ['\\'] + Unescape(s[2..])
    else [s[0]] + Unescape(s[1..])
  }

  lemma {:induction false} UnescapeEscape(s: string)
    ensures Unescape(Escape(s)) == s
  {
    if s != [] {
      UnescapeEscape(s[1..]);
      var e := Escape(s);
      if s[0] == '\\' {
        assert e[2..] == Escape(s[1..]);
      } else {
        assert e[1..] == Escape(s[1..]);
      }
    }
  }

  lemma NoPairTail(s: string, x: char, y: char)
    requires s != []
    ensures NoPair(s, x, y) <==> NoPair(s[1..], x, y) && (|s| > 1 ==> s[1] != y || s[0] != x)
  {
    var t := s[1..];
    if NoPair(t, x, y) {
      forall i | 1 < i < |s|
        ensures s[i] != y || s[i - 1] != x
      {
        assert t[i - 1] == s[i] && t[i - 1 - 1] == s[i - 1];
      }
    }
    if NoPair(s, x, y) {
      forall i | 0 < i < |t|
        ensures t[i] != y || t[i - 1] != x
      {
        assert s[i + 1] == t[i] && s[i + 1 - 1] == t[i - 1];
      }
    }
  }

  lemma {:induction false} UnescapeKeeps(s: string)
    ensures Unescape(s) == s <==> NoPair(s, '\\', '\\')
  {
    if s != [] {
      NoPairTail(s, '\\', '\\');
      hide NoPair;
      if |s| >= 2 && s[0] == '\\' && s[1] == '\\' {
        assert |Unescape(s)| < |s|;
      } else {
        UnescapeKeeps(s[1..]);
        assert s == [s[0]] + s[1..] && Unescape(s)[1..] == Unescape(s[1..]);
      }
    } else {
      assert NoPair(s, '\\', '\\');
    }
  }

  // ---------- decimal numbers ----------

  predicate IsDigit(c: char) {
    '0' <= c <= '9'
  }

  function PrintNat(n: nat): (s: string)
    ensures s != [] && forall k :: 0 <= k < |s| ==> IsDigit(s[k])
  {
    var digit := [('0' as int + n % 10) as char];
    if n < 10 then digit else PrintNat(n / 10) + digit
  }

  function PrintInt(n: int): (s: string)
    ensures s != [] && (IsDigit(s[0]) || s[0] == '-') && IsDigit(s[|s| - 1])
    ensures forall k :: 0 <= k < |s| ==> IsDigit(s[k]) || s[k] == '-'
  {
    if n < 0 then ['-'] + PrintNat(-n) else PrintNat(n)
  }

  function ParseDigits(s: string): (r: Option<nat>)
  {
    if s == [] || !IsDigit(s[|s| - 1]) then None
    else
      var last := s[|s| - 1] as int - '0' as int;
      if |s| == 1 then Some(last)
      else
        match ParseDigits(s[..|s| - 1])
        case None => None
        case Some(n) => Some(10 * n + last)
  }

  /** An optional sign and at least one digit, with blanks around. */
  function ParseInt(s: string): Option<int> {
    var t := Trim(s, IsBlank);
    if t != [] && t[0] in ['-', '+'] then
      match ParseDigits(t[1..])
      case None => None
      case Some(n) =>
        var v: int := n;
        Some(if t[0] == '-' then -v else v)
    else
      match ParseDigits(t)
      case None => None
      case Some(n) => Some(n)
  }

  lemma {:induction false} ParsePrintNat(n: nat)
    ensures ParseDigits(PrintNat(n)) == Some(n)
  {
    var s := PrintNat(n);
    if n >= 10 {
      ParsePrintNat(n / 10);
      assert s[..|s| - 1] == PrintNat(n / 10);
    }
  }

  lemma ParsePrintInt(n: int)
    ensures ParseInt(PrintInt(n)) == Some(n)
  {
    hide PrintNat, ParseDigits, Trim;
    var s := PrintInt(n);
    TrimFirm(s, IsBlank);
    if n < 0 {
      ParsePrintNat(-n);
      assert s[1..] == PrintNat(-n);
    } else {
      ParsePrintNat(n);
    }
  }
}
