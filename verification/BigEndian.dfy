/** GetBigEndian64 of devio.c, which decodes the size and the table offset of a VHD from signed bytes. A
    64-bit number is written as its eight bytes, the most significant one first. */
module BigEndian {

  type Word = w: seq<bv8> | |w| == 8 witness [0, 0, 0, 0, 0, 0, 0, 0]

  /** (int64_t)b << ((7 - i) << 3) for an int8_t b: the byte in its place and its sign in all bytes above. */
  function Shifted(b: bv8, i: nat): (w: Word)
    requires i < 8
    ensures forall k :: 0 <= k < 8 ==>
              w[k] == if k < i then (if b >= 0x80 then 0xFF else 0) else if k == i then b else 0
  {
    seq(8, k requires 0 <= k => if k < i then (if b >= 0x80 then 0xFF else 0) else if k == i then b else 0)
  }

  function Or(v: Word, w: Word): (r: Word)
    ensures forall k :: 0 <= k < 8 ==> r[k] == v[k] | w[k]
  {
    seq(8, k requires 0 <= k < 8 => v[k] | w[k])
  }

  const ZERO: Word := [0, 0, 0, 0, 0, 0, 0, 0]

  /** The first `i` bytes of the storage as the code combines them. */
  function Combined(s: Word, i: nat): Word
    requires i <= 8
  {
    if i == 0 then ZERO else Or(Combined(s, i - 1), Shifted(s[i - 1], i - 1))
  }

  method GetBigEndian64(storage: Word) returns (number: Word)
    ensures number == Combined(storage, 8)
  {
    hide Or, Shifted;
    number := ZERO;
    var i := 0;
    while i < 8
      invariant 0 <= i <= 8
      invariant number == Combined(storage, i)
    {
      number := Or(number, Shifted(storage[i], i));
      i := i + 1;
    }
  }

  lemma OrByte(x: bv8)
    ensures x | 0xFF == 0xFF && x | 0 == x && 0 | x == x
  {
  }

  /** Byte `k` of the number: its own, unless a later byte of the storage is negative. */
  lemma {:induction false} CombinedAt(s: Word, i: nat, k: nat)
    requires i <= 8 && k < 8
    ensures Combined(s, i)[k] ==
            if i <= k then 0 else if exists j :: k < j < i && s[j] >= 0x80 then 0xFF else s[k]
  {
    if i > 0 {
      CombinedAt(s, i - 1, k);
      OrByte(Combined(s, i - 1)[k]);
      OrByte(s[i - 1]);
    }
  }

  /** Byte `i` is sign-extended without harm: it is below 80h or only FFh bytes come before it. */
  predicate Harmless(s: Word, i: nat)
    requires i < 8
  {
    s[i] < 0x80 || forall k :: 0 <= k < i ==> s[k] == 0xFF
  }

  /** The decoded number is the one stored exactly when every byte is harmless. */
  lemma DecodesBigEndian(s: Word)
    ensures Combined(s, 8) == s <==> forall i :: 0 <= i < 8 ==> Harmless(s, i)
  {
    hide Combined;
    forall k | 0 <= k < 8
      ensures Combined(s, 8)[k] == if exists j :: k < j < 8 && s[j] >= 0x80 then 0xFF else s[k]
    {
      CombinedAt(s, 8, k);
    }
    if forall i :: 0 <= i < 8 ==> Harmless(s, i) {
      forall k | 0 <= k < 8
        ensures Combined(s, 8)[k] == s[k]
      {
        if j :| k < j < 8 && s[j] >= 0x80 {
          assert Harmless(s, j);
        }
      }
    }
    if Combined(s, 8) == s {
      forall i | 0 <= i < 8
        ensures Harmless(s, i)
      {
        forall k | s[i] >= 0x80 && 0 <= k < i
          ensures s[k] == 0xFF
        {
          assert Combined(s, 8)[k] == s[k];
        }
      }
    }
  }

  /** A disk of 8 MiB is among those whose size is not decoded. */
  lemma EightMegabytes()
    ensures Combined([0, 0, 0, 0, 0, 0x80, 0, 0], 8) == [0xFF, 0xFF, 0xFF, 0xFF, 0xFF, 0x80, 0, 0]
  {
    hide Combined;
    var s: Word := [0, 0, 0, 0, 0, 0x80, 0, 0];
    assert s[5] >= 0x80;
    forall k | 0 <= k < 8
      ensures Combined(s, 8)[k] == [0xFF, 0xFF, 0xFF, 0xFF, 0xFF, 0x80, 0, 0][k]
    {
      CombinedAt(s, 8, k);
    }
  }
}
