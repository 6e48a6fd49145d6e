/** The stream transport of safeio.c: loops that make whole transfers out of short ones. */
module Transport {
  import opened Bytes

  /** A connected descriptor. `pending` is everything the client has sent or will send and nobody has read
      yet; `sent` is what has been written to the client. */
  class Channel {
    var pending: seq<byte>
    var sent: seq<byte>
    /** Calls on this descriptor fail only when the client has closed it. */
    const reliable: bool

    constructor (pending: seq<byte>, reliable: bool)
      ensures this.pending == pending && this.sent == [] && this.reliable == reliable
    {
      this.pending, this.sent, this.reliable := pending, [], reliable;
    }

    /** read(): any nonzero number of the next bytes, 0 at the end of the stream, -1 on error. */
    method Read(data: array<byte>, at: nat, size: nat) returns (done: int)
      requires at + size <= data.Length
      modifies data, this`pending
      ensures -1 <= done <= size && done <= |old(pending)|
      ensures done == -1 ==> !reliable
      ensures done == 0 ==> size == 0 || old(pending) == []
      ensures pending == old(pending)[Max(0, done)..]
      ensures done > 0 ==> data[at..at + done] == old(pending)[..done]
      ensures forall k :: 0 <= k < data.Length && !(at <= k < at + done) ==> data[k] == old(data[k])
    {
      if !reliable {
        if * {
          return -1;
        }
      }
      var most := Min(size, |pending|);
      done :| 0 <= done <= most && (most > 0 ==> done > 0);
      forall k | 0 <= k < done {
        data[at + k] := pending[k];
      }
      pending := pending[done..];
    }

    /** write(): any nonzero number of the bytes; 0 or -1 on failure. */
    method Write(data: seq<byte>) returns (done: int)
      modifies this`sent
      ensures -1 <= done <= |data|
      ensures done <= 0 ==> !reliable || data == []
      ensures sent == old(sent) + data[..Max(0, done)]
    {
      if !reliable {
        if * {
          done :| -1 <= done <= 0;
          return;
        }
      }
      done :| 0 <= done <= |data| && (data != [] ==> done > 0);
      sent := sent + data[..done];
    }

    /** safe_read: all of `size` bytes, or failure; which short transfers happen does not show. */
    method SafeRead(data: array<byte>, at: nat, size: nat) returns (ok: bool)
      requires at + size <= data.Length
      modifies data, this`pending
      ensures ok ==> size <= |old(pending)| && pending == old(pending)[size..]
                     && data[at..at + size] == old(pending)[..size]
      ensures reliable ==> (ok <==> size <= |old(pending)|)
      ensures |pending| <= |old(pending)| && pending == old(pending)[|old(pending)| - |pending|..]
      ensures forall k :: 0 <= k < data.Length && !(at <= k < at + size) ==> data[k] == old(data[k])
    {
      var sizeLeft: nat, next: nat := size, at;
      while sizeLeft > 0
        invariant sizeLeft <= size && next == at + size - sizeLeft
        invariant size - sizeLeft <= |old(pending)| && pending == old(pending)[size - sizeLeft..]
        invariant data[at..next] == old(pending)[..size - sizeLeft]
        invariant forall k :: 0 <= k < data.Length && !(at <= k < next) ==> data[k] == old(data[k])
      {
        ghost var had, was := data[at..next], pending;
        var sizeDone := Read(data, next, sizeLeft);
        if sizeDone == -1 {
          return false;
        }
        if sizeDone == 0 {
          return false;
        }
        assert data[at..next] == had;
        assert data[at..next + sizeDone] == had + was[..sizeDone];
        sizeLeft := sizeLeft - sizeDone;
        next := next + sizeDone;
      }
      ok := true;
    }

    /** safe_write: all the bytes, or failure after some prefix of them. */
    method SafeWrite(data: seq<byte>) returns (ok: bool)
      modifies this`sent
      ensures ok ==> sent == old(sent) + data
      ensures reliable ==> ok
      ensures old(sent) <= sent <= old(sent) + data
    {
      var sizeLeft: nat := |data|;
      while sizeLeft > 0
        invariant sizeLeft <= |data| && sent == old(sent) + data[..|data| - sizeLeft]
      {
        var next := |data| - sizeLeft;
        var sizeDone := Write(data[next..]);
        if sizeDone == -1 {
          return false;
        }
        if sizeDone == 0 {
          return false;
        }
        assert data[..next + sizeDone] == data[..next] + data[next..][..sizeDone];
        sizeLeft := sizeLeft - sizeDone;
      }
      assert data[..|data|] == data;
      ok := true;
    }
  }
}
