/** When a chain of extended boot records (EBRs) ends. The walker itself has no bound on it. */
module Chains {
  import opened Bytes
  import opened Partitions
  import opened Wrappers

  /** The EBR that the one at `cur` links to. */
  function NextEbr(img: seq<byte>, ss: nat, first: nat, cur: nat): Option<nat> {
    var t := EbrTable(img, cur, ss);
    if t == [] then None else EbrLink(t, 0, first, ss)
  }

  /** Where the chain is after `i` links. */
  function Position(img: seq<byte>, ss: nat, first: nat, i: nat): Option<nat> {
    if i == 0 then Some(first)
    else
      var p := Position(img, ss, first, i - 1);
      if p.None? then None else NextEbr(img, ss, first, p.value)
  }

  /** The chain never comes back to where it was. */
  ghost predicate NoRepeat(img: seq<byte>, ss: nat, first: nat) {
    forall i: nat, j: nat :: i < j && Position(img, ss, first, i).Some? ==>
                               Position(img, ss, first, j) != Position(img, ss, first, i)
  }

  lemma {:induction false} StaysEnded(img: seq<byte>, ss: nat, first: nat, i: nat, j: nat)
    requires i <= j && Position(img, ss, first, i).None?
    ensures Position(img, ss, first, j).None?
  {
    hide NextEbr;
    if i < j {
      StaysEnded(img, ss, first, i, j - 1);
    }
  }

  /** The chain ends within `n` links of an EBR exactly when there is no EBR after one more link. */
  lemma {:induction false} EndsAt(img: seq<byte>, ss: nat, first: nat, cur: nat, i: nat, n: nat)
    requires Position(img, ss, first, i) == Some(cur)
    ensures ChainEnds(img, ss, first, cur, n) <==> Position(img, ss, first, i + n + 1).None?
    decreases n
  {
    hide EbrTable, EbrLink, ChainEnds, Position, ChainParts;
    PositionNext(img, ss, first, i);
    ChainStep(img, ss, first, cur, n);
    var next := NextEbr(img, ss, first, cur);
    if next.None? {
      StaysEnded(img, ss, first, i + 1, i + n + 1);
    } else if n > 0 {
      EndsAt(img, ss, first, next.value, i + 1, n - 1);
    }
  }

  lemma PositionFirst(img: seq<byte>, ss: nat, first: nat)
    ensures Position(img, ss, first, 0) == Some(first)
  {
  }

  lemma PositionNext(img: seq<byte>, ss: nat, first: nat, i: nat)
    ensures var p := Position(img, ss, first, i);
            Position(img, ss, first, i + 1) == if p.None? then None else NextEbr(img, ss, first, p.value)
  {
    hide NextEbr;
  }

  lemma ChainStep(img: seq<byte>, ss: nat, first: nat, cur: nat, n: nat)
    ensures var next := NextEbr(img, ss, first, cur);
            ChainEnds(img, ss, first, cur, n) <==>
            next.None? || (n > 0 && ChainEnds(img, ss, first, next.value, n - 1))
  {
    hide EbrTable, EbrLink;
  }

  /** A chain that comes back goes on for ever. */
  lemma {:induction false} NeverEnds(img: seq<byte>, ss: nat, first: nat, i: nat, j: nat, m: nat)
    requires i < j && Position(img, ss, first, i).Some? && Position(img, ss, first, j) == Position(img, ss, first, i)
    ensures Position(img, ss, first, m).Some?
    decreases m
  {
    hide NextEbr, Position;
    if m <= j {
      if Position(img, ss, first, m).None? {
        StaysEnded(img, ss, first, m, j);
      }
    } else {
      NeverEnds(img, ss, first, i, j, m - (j - i));
      Again(img, ss, first, i, j, m - j);
    }
  }

  lemma {:induction false} Again(img: seq<byte>, ss: nat, first: nat, i: nat, j: nat, m: nat)
    requires Position(img, ss, first, j) == Position(img, ss, first, i)
    ensures Position(img, ss, first, j + m) == Position(img, ss, first, i + m)
    decreases m
  {
    hide NextEbr, Position;
    if m > 0 {
      Again(img, ss, first, i, j, m - 1);
      PositionNext(img, ss, first, j + m - 1);
      PositionNext(img, ss, first, i + m - 1);
    }
  }

  /** An EBR that has a successor lies in the image, and every EBR a whole number of sectors behind the first. */
  lemma PositionIn(img: seq<byte>, ss: nat, first: nat, i: nat) returns (k: nat)
    requires ss > 0 && Position(img, ss, first, i + 1).Some?
    ensures Position(img, ss, first, i) == Some(first + ss * k) && k < |img| / ss
  {
    hide Position, EbrLink, IsTable;
    PositionNext(img, ss, first, i);
    var cur := Position(img, ss, first, i).value;
    k := 0;
    PositionFirst(img, ss, first);
    if i > 0 {
      PositionNext(img, ss, first, i - 1);
      k := LinkBehind(EbrTable(img, Position(img, ss, first, i - 1).value, ss), 0, first, ss);
    }
    EbrInside(img, cur, ss);
    WholeSectors(|img|, first, ss, k);
  }

  lemma EbrInside(img: seq<byte>, cur: nat, ss: nat)
    ensures EbrTable(img, cur, ss) != [] ==> cur + ss <= |img|
  {
    hide IsTable;
  }

  lemma WholeSectors(size: nat, first: nat, ss: nat, k: nat)
    requires ss > 0 && first + ss * k + ss <= size
    ensures k < size / ss
  {
    assert (k + 1) * ss == ss * k + ss;
    QuotientBelow(size, ss, k + 1);
  }

  lemma {:induction false} LinkBehind(t: seq<byte>, e: nat, first: nat, ss: nat) returns (k: nat)
    requires |t| == TABLE_SIZE && e <= 4 && EbrLink(t, e, first, ss).Some?
    ensures EbrLink(t, e, first, ss) == Some(first + ss * k)
    decreases 4 - e
  {
    hide EntryAt;
    if IsContainer(EntryAt(t, e).kind) {
      k := EntryAt(t, e).start;
    } else {
      k := LinkBehind(t, e + 1, first, ss);
    }
  }

  /** Different numbers below `k` are at most `k` numbers. */
  lemma {:induction false} Pigeonhole(s: seq<nat>, k: nat)
    requires forall i :: 0 <= i < |s| ==> s[i] < k
    requires forall i, j :: 0 <= i < j < |s| ==> s[i] != s[j]
    ensures |s| <= k
    decreases k
  {
    if s != [] {
      assert s[0] < k;
      if p :| 0 <= p < |s| && s[p] == k - 1 {
        Pigeonhole(s[..p] + s[p + 1..], k - 1);
      } else {
        Pigeonhole(s, k - 1);
      }
    }
  }

  lemma EndsWithoutRepeat(img: seq<byte>, ss: nat, first: nat)
    requires ss > 0 && NoRepeat(img, ss, first)
    ensures Position(img, ss, first, |img| / ss + 1).None?
  {
    hide Position;
    var n := |img| / ss;
    if Position(img, ss, first, n + 1).Some? {
      var ks := Indices(img, ss, first, n);
      forall i, j | 0 <= i < j < |ks|
        ensures ks[i] != ks[j]
      {
        assert Position(img, ss, first, j) != Position(img, ss, first, i);
      }
      Pigeonhole(ks, n);
    }
  }

  /** How many sectors behind the first each EBR up to number `n` lies. */
  lemma {:induction false} Indices(img: seq<byte>, ss: nat, first: nat, n: nat) returns (ks: seq<nat>)
    requires ss > 0 && Position(img, ss, first, n + 1).Some?
    ensures |ks| == n + 1
    ensures forall i :: 0 <= i <= n ==> ks[i] < |img| / ss && Position(img, ss, first, i) == Some(first + ss * ks[i])
    decreases n
  {
    hide Position;
    var k := PositionIn(img, ss, first, n);
    if n == 0 {
      ks := [k];
    } else {
      var before := Indices(img, ss, first, n - 1);
      ks := before + [k];
    }
  }

  ghost predicate Ends(img: seq<byte>, ss: nat, first: nat) {
    hide ChainEnds;
    exists n: nat :: ChainEnds(img, ss, first, first, n)
  }

  lemma NoRepeatIfEnds(img: seq<byte>, ss: nat, first: nat, n: nat)
    requires ChainEnds(img, ss, first, first, n)
    ensures NoRepeat(img, ss, first)
  {
    hide ChainEnds, Position;
    PositionFirst(img, ss, first);
    EndsAt(img, ss, first, first, 0, n);
    forall i: nat, j: nat | i < j && Position(img, ss, first, i).Some?
      ensures Position(img, ss, first, j) != Position(img, ss, first, i)
    {
      if Position(img, ss, first, j) == Position(img, ss, first, i) {
        NeverEnds(img, ss, first, i, j, n + 1);
      }
    }
  }

  /** The chain ends if and only if no EBR comes again, and then within as many links as the image has
      sectors. */
  lemma ChainEndsExactly(img: seq<byte>, ss: nat, first: nat)
    requires ss > 0
    ensures Ends(img, ss, first) <==> NoRepeat(img, ss, first)
    ensures Ends(img, ss, first) ==> ChainEnds(img, ss, first, first, |img| / ss)
  {
    hide ChainEnds, Position, NoRepeat;
    if NoRepeat(img, ss, first) {
      EndsWithoutRepeat(img, ss, first);
      PositionFirst(img, ss, first);
      EndsAt(img, ss, first, first, 0, |img| / ss);
    }
    if Ends(img, ss, first) {
      var n: nat :| ChainEnds(img, ss, first, first, n);
      NoRepeatIfEnds(img, ss, first, n);
    }
  }

  /** The first EBR of the extended partition in entry `i`. */
  function FirstEbr(t: seq<byte>, i: nat, off: nat, ss: nat): nat
    requires |t| == TABLE_SIZE && i < 4
  {
    off + Span(ss, EntryAt(t, i).start)
  }

  /** No chain of the table comes back to where it was. */
  ghost predicate NoChainRepeats(img: seq<byte>, t: seq<byte>, i: nat, off: nat, ss: nat)
    requires |t| == TABLE_SIZE
  {
    hide EntryAt, NoRepeat;
    forall m :: i <= m < 4 && IsContainer(EntryAt(t, m).kind) ==> NoRepeat(img, ss, FirstEbr(t, m, off, ss))
  }

  lemma NoChainRepeatsNext(img: seq<byte>, t: seq<byte>, i: nat, off: nat, ss: nat)
    requires |t| == TABLE_SIZE && i < 4
    ensures NoChainRepeats(img, t, i, off, ss) <==>
            && NoChainRepeats(img, t, i + 1, off, ss)
            && (IsContainer(EntryAt(t, i).kind) ==> NoRepeat(img, ss, FirstEbr(t, i, off, ss)))
  {
    hide EntryAt, NoRepeat, FirstEbr;
  }

  lemma {:induction false} FiniteIfNoRepeat(img: seq<byte>, t: seq<byte>, i: nat, off: nat, ss: nat)
    requires |t| == TABLE_SIZE && i <= 4 && ss > 0 && NoChainRepeats(img, t, i, off, ss)
    ensures Finite(img, t, i, off, ss, |img| / ss)
    decreases 4 - i
  {
    hide EntryAt, ChainEnds, NoRepeat, NoChainRepeats, Ends;
    if i < 4 {
      NoChainRepeatsNext(img, t, i, off, ss);
      if IsContainer(EntryAt(t, i).kind) {
        ChainEndsExactly(img, ss, FirstEbr(t, i, off, ss));
      }
      FiniteIfNoRepeat(img, t, i + 1, off, ss);
    }
  }

  lemma {:induction false} NoRepeatIfFinite(img: seq<byte>, t: seq<byte>, i: nat, off: nat, ss: nat, n: nat)
    requires |t| == TABLE_SIZE && i <= 4 && ss > 0 && Finite(img, t, i, off, ss, n)
    ensures NoChainRepeats(img, t, i, off, ss)
    decreases 4 - i
  {
    hide EntryAt, ChainEnds, NoRepeat;
    if i < 4 {
      NoRepeatIfFinite(img, t, i + 1, off, ss, n);
      if IsContainer(EntryAt(t, i).kind) {
        NoRepeatIfEnds(img, ss, FirstEbr(t, i, off, ss), n);
      }
      NoChainRepeatsNext(img, t, i, off, ss);
    }
  }

  /** Every chain of the table at `off`, if there is one, ends within `n` links. */
  predicate WalkedWithin(img: seq<byte>, off: nat, ss: nat, n: nat) {
    hide MbrTable, Finite;
    Walkable(img, off, ss, n)
  }

  /** No chain has more links than the image has sectors. */
  predicate WalkedWithinSectors(img: seq<byte>, off: nat, ss: nat) {
    hide WalkedWithin;
    ss > 0 && WalkedWithin(img, off, ss, |img| / ss)
  }

  ghost predicate CanBeWalked(img: seq<byte>, off: nat, ss: nat) {
    hide WalkedWithin;
    exists n: nat :: WalkedWithin(img, off, ss, n)
  }

  /** No chain of the table at `off`, if there is one, comes back to where it was. */
  ghost predicate NeverRepeats(img: seq<byte>, off: nat, ss: nat) {
    hide MbrTable, NoChainRepeats;
    var t := MbrTable(img, off, ss);
    t == [] || NoChainRepeats(img, t, 0, off, ss)
  }

  lemma WalkedIfNoRepeat(img: seq<byte>, off: nat, ss: nat)
    requires ss > 0 && NeverRepeats(img, off, ss)
    ensures WalkedWithinSectors(img, off, ss)
  {
    hide MbrTable, Finite, NoChainRepeats;
    var t := MbrTable(img, off, ss);
    if t != [] {
      FiniteIfNoRepeat(img, t, 0, off, ss);
    }
  }

  lemma NoRepeatIfWalked(img: seq<byte>, off: nat, ss: nat, n: nat)
    requires ss > 0 && WalkedWithin(img, off, ss, n)
    ensures NeverRepeats(img, off, ss)
  {
    hide MbrTable, Finite, NoChainRepeats;
    var t := MbrTable(img, off, ss);
    if t != [] {
      NoRepeatIfFinite(img, t, 0, off, ss, n);
    }
  }

  /** An image can be walked to its end if and only if no EBR of its chains comes again, and then no chain
      has more links than the image has sectors. */
  lemma WalkableExactly(img: seq<byte>, off: nat, ss: nat)
    requires ss > 0
    ensures CanBeWalked(img, off, ss) <==> NeverRepeats(img, off, ss)
    ensures CanBeWalked(img, off, ss) ==> WalkedWithinSectors(img, off, ss)
  {
    hide NeverRepeats, WalkedWithin;
    if NeverRepeats(img, off, ss) {
      WalkedIfNoRepeat(img, off, ss);
    }
    if CanBeWalked(img, off, ss) {
      var n: nat :| WalkedWithin(img, off, ss, n);
      NoRepeatIfWalked(img, off, ss, n);
      WalkedIfNoRepeat(img, off, ss);
    }
  }
}
