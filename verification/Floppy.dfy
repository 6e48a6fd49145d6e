/** ImDiskFloppyFormat of sys/floppy.cpp: filling a range of tracks of a memory disk, or track by track. */
module Floppy {
  import opened Bytes

  const FILL: byte := 0xF6

  /** The range as the request gives it. */
  datatype Tracks = Tracks(startCylinder: nat, startHead: nat, endCylinder: nat, endHead: nat)

  /** Heads and the length of a track in bytes, a 32-bit product. */
  datatype Geometry = Geometry(heads: nat, trackLength: nat)

  function StartOffset(g: Geometry, t: Tracks): nat {
    t.startCylinder * g.heads * g.trackLength + t.startHead * g.trackLength
  }

  function EndOffset(g: Geometry, t: Tracks): nat {
    t.endCylinder * g.heads * g.trackLength + t.endHead * g.trackLength
  }

  /** How many bytes the memory path fills, in 64-bit unsigned arithmetic on the low halves. */
  function MemoryLength(g: Geometry, t: Tracks): nat {
    (EndOffset(g, t) % TWO32 - StartOffset(g, t) % TWO32 + g.trackLength) % TWO64
  }

  function Fill(n: nat): (s: seq<byte>)
    ensures |s| == n && forall k :: 0 <= k < n ==> s[k] == 0xF6
  {
    seq(n, k => FILL)
  }

  /** The image buffer after RtlFillMemory. */
  function MemoryFilled(image: seq<byte>, g: Geometry, t: Tracks): (r: seq<byte>)
    requires StartOffset(g, t) % TWO32 + MemoryLength(g, t) <= |image|
    ensures |r| == |image|
    ensures forall k :: 0 <= k < |r| ==>
              r[k] == if StartOffset(g, t) % TWO32 <= k < StartOffset(g, t) % TWO32 + MemoryLength(g, t)
                      then 0xF6 else image[k]
  {
    hide StartOffset, MemoryLength;
    var from, length := StartOffset(g, t) % TWO32, MemoryLength(g, t);
    image[..from] + Fill(length) + image[from + length..]
  }

  /** RtlFillMemory on the image buffer. */
  method FormatMemory(image: array<byte>, g: Geometry, t: Tracks)
    requires StartOffset(g, t) % TWO32 + MemoryLength(g, t) <= image.Length
    modifies image
    ensures image[..] == MemoryFilled(old(image[..]), g, t)
  {
    hide StartOffset, MemoryLength;
    var from := StartOffset(g, t) % TWO32;
    var length := MemoryLength(g, t);
    forall k | from <= k < from + length {
      image[k] := FILL;
    }
  }

  /** How many bytes from the start offset on the track loop fills: it always writes one track. */
  function LoopLength(g: Geometry, t: Tracks): nat {
    Max(EndOffset(g, t) - StartOffset(g, t), 0) + g.trackLength
  }

  class ImageFile {
    var bytes: seq<byte>
    /** How many writes have failed. */
    ghost var failures: nat

    constructor (bytes: seq<byte>)
      ensures this.bytes == bytes && failures == 0
    {
      this.bytes, failures := bytes, 0;
    }

    method Write(data: seq<byte>, offset: nat) returns (ok: bool)
      modifies this
      ensures bytes == if ok then Patch(old(bytes), offset, data) else old(bytes)
      ensures failures == old(failures) + if ok then 0 else 1
    {
      if * {
        failures := failures + 1;
        return false;
      }
      bytes, ok := Patch(bytes, offset, data), true;
    }

    /** The loop that writes one track at a time. It fills whole tracks from the start of the range on: all
        of them, or those before the write that failed. */
    method FormatTracks(g: Geometry, t: Tracks, imageOffset: nat) returns (ok: bool, ghost done: nat)
      requires g.trackLength > 0
      modifies this
      ensures done <= LoopLength(g, t) && (ok <==> done == LoopLength(g, t)) && done % g.trackLength == 0
      ensures ok <==> failures == old(failures)
      ensures bytes == Patch(old(bytes), imageOffset + StartOffset(g, t), Fill(done))
    {
      hide StartOffset, EndOffset, Patch;
      ghost var start := imageOffset + StartOffset(g, t);
      ghost var left: nat := WholeTracks(g, t);
      var offset, end := imageOffset + StartOffset(g, t), imageOffset + EndOffset(g, t);
      done := 0;
      assert Fill(0) == [];
      PatchNothing(bytes, offset);
      while true
        invariant failures == old(failures) && done % g.trackLength == 0
        invariant offset == start + done && bytes == Patch(old(bytes), start, Fill(done))
        invariant done + left * g.trackLength == LoopLength(g, t) && left > 0
        decreases left
      {
        ok := Write(Fill(g.trackLength), offset);
        assert left * g.trackLength == (left - 1) * g.trackLength + g.trackLength;
        if !ok {
          return;
        }
        PatchMore(old(bytes), start, done, g.trackLength);
        NextTrack(done, g.trackLength);
        offset := offset + g.trackLength;
        done := done + g.trackLength;
        left := left - 1;
        if left > 0 {
          MulMono(1, left, g.trackLength);
        }
        if offset > end {
          break;
        }
      }
    }
  }

  lemma NextTrack(n: nat, l: nat)
    requires l > 0 && n % l == 0
    ensures (n + l) % l == 0
  {
    assert n == l * (n / l) + n % l;
    DivModOf(n / l + 1, l, 0);
  }

  /** Tracks follow one another on the disk, head by head and then cylinder by cylinder. */
  lemma TracksFollow(g: Geometry, c: nat, h: nat, t: Tracks)
    ensures StartOffset(g, t.(startCylinder := 0, startHead := 0)) == 0
    ensures EndOffset(g, t.(endCylinder := 0, endHead := 0)) == 0
    ensures StartOffset(g, t.(startCylinder := c, startHead := h + 1)) ==
            StartOffset(g, t.(startCylinder := c, startHead := h)) + g.trackLength
    ensures EndOffset(g, t.(endCylinder := c, endHead := h + 1)) ==
            EndOffset(g, t.(endCylinder := c, endHead := h)) + g.trackLength
    ensures StartOffset(g, t.(startCylinder := c, startHead := g.heads)) ==
            StartOffset(g, t.(startCylinder := c + 1, startHead := 0))
    ensures EndOffset(g, t.(endCylinder := c, endHead := g.heads)) ==
            EndOffset(g, t.(endCylinder := c + 1, endHead := 0))
  {
    assert (c + 1) * g.heads * g.trackLength == c * g.heads * g.trackLength + g.heads * g.trackLength;
  }

  /** A range of tracks that runs forwards is filled from its first to its last track, both included. */
  lemma BothEndsFilled(g: Geometry, t: Tracks)
    requires StartOffset(g, t) <= EndOffset(g, t)
    ensures StartOffset(g, t) + LoopLength(g, t) == EndOffset(g, t) + g.trackLength
  {
  }

  /** The range is a whole number of tracks. */
  lemma WholeTracks(g: Geometry, t: Tracks) returns (n: nat)
    requires g.trackLength > 0
    ensures n > 0 && n * g.trackLength == LoopLength(g, t)
  {
    var a, b := t.startCylinder * g.heads + t.startHead, t.endCylinder * g.heads + t.endHead;
    var l := g.trackLength;
    assert StartOffset(g, t) == a * l && EndOffset(g, t) == b * l;
    n := Max(b - a, 0) + 1;
    if a <= b {
      assert (b - a + 1) * l == b * l - a * l + l;
    } else {
      MulMono(b, a, l);
    }
  }

  lemma PatchMore(f: seq<byte>, at: nat, n: nat, m: nat)
    ensures Patch(Patch(f, at, Fill(n)), at + n, Fill(m)) == Patch(f, at, Fill(n + m))
  {
    assert Fill(n + m)[..n] == Fill(n);
    if n == 0 {
      assert Fill(0) == [] && Fill(n + m) == Fill(m);
    }
  }

  /** The two paths fill the same bytes exactly when the range runs forwards and ends below 4 GiB. */
  lemma SameRange(g: Geometry, t: Tracks)
    requires 0 < g.trackLength < TWO32 && StartOffset(g, t) < TWO63 && EndOffset(g, t) < TWO63
    ensures StartOffset(g, t) % TWO32 == StartOffset(g, t) && MemoryLength(g, t) == LoopLength(g, t) <==>
            StartOffset(g, t) <= EndOffset(g, t) < TWO32
  {
    hide StartOffset, EndOffset;
    var start, end := StartOffset(g, t), EndOffset(g, t);
    assert end == end / TWO32 * TWO32 + end % TWO32;
    var v := end % TWO32 - start % TWO32 + g.trackLength;
    assert v >= 0 ==> v % TWO64 == v;
    assert v < 0 ==> v % TWO64 == v + TWO64;
  }

  /** The track loop without write errors. */
  function TracksFilled(image: seq<byte>, g: Geometry, t: Tracks): seq<byte> {
    Patch(image, StartOffset(g, t), Fill(LoopLength(g, t)))
  }

  /** Both paths leave the same bytes when the range runs forwards and ends below 4 GiB, and only then on an
      image that did not hold the fill byte before. */
  lemma SameBytes(image: seq<byte>, g: Geometry, t: Tracks)
    requires 0 < g.trackLength < TWO32 && StartOffset(g, t) < TWO63 && EndOffset(g, t) < TWO63
    requires StartOffset(g, t) % TWO32 + MemoryLength(g, t) <= |image|
    ensures StartOffset(g, t) <= EndOffset(g, t) < TWO32 ==> MemoryFilled(image, g, t) == TracksFilled(image, g, t)
    ensures 0xF6 !in image && MemoryFilled(image, g, t) == TracksFilled(image, g, t) ==>
              StartOffset(g, t) <= EndOffset(g, t) < TWO32
  {
    hide StartOffset, EndOffset, MemoryLength, LoopLength;
    SameRange(g, t);
    LoopPositive(g, t);
    var a, b := MemoryFilled(image, g, t), TracksFilled(image, g, t);
    var from, length, start, n := StartOffset(g, t) % TWO32, MemoryLength(g, t), StartOffset(g, t), LoopLength(g, t);
    if 0xF6 !in image && a == b {
      // the first and the last filled byte of either range are in the other
      assert b[start] == 0xF6 && b[start + n - 1] == FILL;
      assert image[start] != FILL && image[start + n - 1] != FILL;
      assert from <= start && start + n <= from + length;
      assert a[from] == FILL && a[from + length - 1] == FILL;
      assert image[from] != FILL && image[from + length - 1] != FILL;
      assert from == start && length == n;
    }
  }

  lemma LoopPositive(g: Geometry, t: Tracks)
    requires 0 < g.trackLength
    ensures LoopLength(g, t) > 0
  {
  }
}
