/** The request loop of devio.c over the stream transport: do_comm, read_data, write_data, send_info and
    send_failed, with logical_read and logical_write below them. */
module Server {
  import opened Bytes
  import opened Vhd
  import opened VhdWrite
  import opened Image
  import opened Protocol
  import opened Runs
  import opened Transport

  class Server {
    const cfg: Config
    const image: Image
    const channel: Channel
    var buf: array<byte>
    var bufferSize: nat

    constructor (cfg: Config, image: Image, channel: Channel, bufferSize: nat)
      requires cfg.imageOffset < 0x8000_0000_0000_0000 && image.vhdMode == cfg.vhd
      requires cfg.fileSize < 0x1_0000_0000_0000_0000 && cfg.alignment < 0x1_0000_0000_0000_0000
      requires cfg.flags < 0x1_0000_0000_0000_0000
      ensures Valid() && fresh(buf)
      ensures this.cfg == cfg && this.image == image && this.channel == channel && this.bufferSize == bufferSize
    {
      this.cfg, this.image, this.channel, this.bufferSize := cfg, image, channel, bufferSize;
      buf := new byte[bufferSize];
    }

    ghost predicate Valid()
      reads this
    {
      cfg.Valid() && image.vhdMode == cfg.vhd && buf.Length == bufferSize
    }

    /** What the server's image and buffer stand for. */
    ghost function Now(): (now: Status)
      requires Valid()
      reads this, image
      ensures now.Whole? <==> image.Valid()
      ensures !now.Lost? ==> image.Readable() && now.st == State(image.Disk(), bufferSize)
    {
      hide WellFormed, TornAt;
      if image.Valid() then
        image.ValidReadable();
        Whole(State(image.Disk(), bufferSize))
      else if image.Torn() then
        Torn(State(image.Disk(), bufferSize))
      else Lost
    }

    /** Into a buffer that is zero there, the span of the disk at `place`, unless it goes astray. */
    method LogicalRead(size: nat, offset: int, ghost place: nat) returns (done: int)
      requires Valid() && size <= buf.Length && buf[..size] == Zeros(size) && offset == OffT(place)
      modifies buf
      ensures -1 <= done
      ensures image.Readable() && done != -1 && !Strays(cfg.vhd, |image.Disk()|, place, size) ==>
                buf[..size] == DiskRead(cfg.vhd, image.Disk(), place, size)
      ensures image.Valid() && image.reliable && (!cfg.vhd ==> place + size < TWO63) ==>
                image.Readable() && (!Strays(cfg.vhd, |image.Disk()|, place, size) ==> done != -1)
    {
      hide WellFormed, Logical, OffT, Strays, DiskRead;
      ghost var was := buf[..];
      assert buf[..size] == was[..size];
      if image.Valid() {
        image.ValidReadable();
      }
      if image.vhdMode {
        done := image.VhdRead(buf, 0, size, offset);
        if image.Readable() && !Strays(true, |image.Disk()|, place, size) {
          RangeOf(image.g, place, size);
          VhdDelivered(image.g, image.Disk(), was, buf[..], size, place, done);
        }
      } else {
        done := image.PhysicalRead(buf, 0, size, offset);
        OffTOf(place);
        if done != -1 && !Strays(false, |image.Disk()|, place, size) {
          PlainDelivered(was, buf[..], image.file, place, size, done);
        }
      }
      assert buf[..size] == buf[..][..size];
    }

    /** The write at `place`, which is made on the disk exactly when it does not go astray. A failed one has
        put the first `kept` bytes on the disk and may have torn a block. */
    method LogicalWrite(size: nat, offset: int, ghost place: nat) returns (done: int, ghost kept: nat)
      requires Valid() && size <= buf.Length && offset == OffT(place) && place < TWO64 + TWO63
      modifies image`file
      ensures done == -1 || done == 0 || done == size
      ensures old(Now()).Whole? && !Strays(cfg.vhd, |old(Now()).st.disk|, place, size) ==>
                WrittenAs(cfg.vhd, old(Now()).st.disk, place, buf[..size], done, kept, Now())
                && (image.reliable && (!cfg.vhd ==> place + size < TWO63) ==> done != -1)
      ensures old(Now()).Whole? && Strays(cfg.vhd, |old(Now()).st.disk|, place, size) && done != -1
              && |old(Now()).st.disk| < TWO64 ==>
                !WrittenAs(cfg.vhd, old(Now()).st.disk, place, buf[..size], done, kept, Now())
    {
      hide WellFormed, Logical, Interrupted, Splice, FlatWrite, Patch, WriteSpan, OffT;
      kept := 0;
      if image.vhdMode {
        done, kept := VhdLogicalWrite(size, offset, place);
      } else {
        done := image.PhysicalWrite(buf[..size], offset);
        OffTOf(place);
        PatchNothing(old(image.file), place);
        assert buf[..size][..0] == [];
      }
    }

    method VhdLogicalWrite(size: nat, offset: int, ghost place: nat) returns (done: int, ghost kept: nat)
      requires Valid() && size <= buf.Length && offset == OffT(place) && cfg.vhd
      modifies image`file
      ensures done == -1 || done == 0 || done == size
      ensures old(Now()).Whole? && !Strays(true, |old(Now()).st.disk|, place, size) ==>
                WrittenAs(true, old(Now()).st.disk, place, buf[..size], done, kept, Now())
                && (image.reliable ==> done != -1)
      ensures old(Now()).Whole? && Strays(true, |old(Now()).st.disk|, place, size) && done != -1 ==>
                !WrittenAs(true, old(Now()).st.disk, place, buf[..size], done, kept, Now())
    {
      hide WellFormed, Logical, Interrupted, DiskWrite, DiskWritten, WriteSpan, OffT, TornAt, Strays, FlatWrite,
           HasEntry, StoredAt;
      assert buf[0..size] == buf[..size];
      ghost var base, before := [], image.file;
      ghost var was := Now();
      done, kept, base := image.VhdWrite(buf, 0, size, offset);
      if was.Whole? && !Strays(true, |was.st.disk|, place, size) {
        VhdWritten(image.g, before, image.file, buf[..size], place, done, kept, base, image.reliable);
        SizesFit(image.g, before);
      } else if was.Whole? {
        StrayPasses(image.g, was.st.disk, place, buf[..size]);
      }
    }

    method SendInfo() returns (ok: bool)
      modifies channel`sent
      ensures channel.reliable ==> ok
      ensures ok ==> channel.sent ==
                     old(channel.sent) + EncodeResponse(InfoResp(cfg.fileSize, cfg.alignment, cfg.flags))
    {
      ok := channel.SafeWrite(Le(cfg.fileSize, 8) + Le(cfg.alignment, 8) + Le(cfg.flags, 8));
    }

    /** The loop goes on even when the response cannot be written. */
    method SendFailed() returns (ok: bool)
      modifies channel`sent
      ensures ok
      ensures channel.reliable ==> channel.sent == old(channel.sent) + EncodeResponse(Failed(ENODEV))
    {
      var written := channel.SafeWrite(Le(ENODEV, 8));
      ok := true;
    }

    /** What a handler does with the request at the start of `input`, whose code has been taken off: it
        answers the request, or skips it because the transport has failed or has ended. */
    twostate predicate Handled(input: seq<byte>, ok: bool, o: Outcome)
      requires old(Valid()) && Valid()
      reads this, image, channel
    {
      var p := ParseOne(input, old(bufferSize));
      && (o.Answered? ==> p.Got?)
      && (ok ==> o.Answered? && channel.pending == input[p.size..])
      && (if o.Answered? then
            && bufferSize == NextBuffer(old(bufferSize), p.req) && Fits(cfg, p.req, o.resp)
            && Moves(cfg, image.reliable, old(Now()), p.req, o.resp, Now())
          else bufferSize == old(bufferSize) && image.file == old(image.file))
      && (channel.reliable ==>
            && (ok <==> p.Got?) && (ok <==> o.Answered?)
            && channel.sent == old(channel.sent) + if ok then EncodeResponse(o.resp) else [])
      && (cfg.flags % 2 == 1 ==> image.file == old(image.file))
    }

    /** Takes offset and length off the stream. */
    method ReadHeader(ghost input: seq<byte>, ghost code: nat) returns (ok: bool, offset: nat, length: nat)
      requires CODE_SIZE <= |input| && channel.pending == input[8..] && FromLe(input[..8]) == code
      requires code == REQ_READ || code == REQ_WRITE
      modifies channel`pending
      ensures channel.reliable ==> (ok <==> Protocol.HEADER_SIZE <= |input|)
      ensures ok ==> Protocol.HEADER_SIZE <= |input| && channel.pending == input[24..]
                     && offset == FromLe(input[8..16]) && length == FromLe(input[16..24])
      ensures offset < TWO64 && length < TWO64
    {
      Pow256Values();
      var reqBlock := new byte[16];
      ok := channel.SafeRead(reqBlock, 0, 16);
      FromLeBound(reqBlock[..8]);
      FromLeBound(reqBlock[8..]);
      offset, length := FromLe(reqBlock[..8]), FromLe(reqBlock[8..]);
      if ok {
        assert reqBlock[0..16][..8] == reqBlock[..8] && reqBlock[0..16][8..] == reqBlock[8..];
        assert input[8..][..16][..8] == input[8..16] && input[8..][..16][8..] == input[16..24];
        assert input[8..][16..] == input[24..];
      }
    }

    /** A larger request than ever before gets a larger buffer. */
    method GrowBuffer(length: nat)
      requires Valid()
      modifies this
      ensures Valid() && bufferSize == if length > old(bufferSize) then Min(length, MAX_TRANSFER) else old(bufferSize)
      ensures buf == old(buf) || fresh(buf)
      ensures Now() == Resized(old(Now()), bufferSize)
    {
      hide WellFormed, TornAt, Logical;
      if length > bufferSize {
        bufferSize := Min(length, MAX_TRANSFER);
        buf := new byte[bufferSize];
      }
    }

    /** errno after a call that has failed. */
    method LastError() returns (errorno: nat)
      ensures 0 < errorno < TWO31
    {
      errorno :| 0 < errorno < TWO31;
    }

    method ReadInto(size: nat, offset: nat) returns (errorno: nat)
      requires Valid() && size <= bufferSize
      modifies buf
      ensures Valid() && errorno < TWO31
      ensures var place := cfg.imageOffset + offset;
              !Now().Lost? && !Strays(cfg.vhd, |Now().st.disk|, place, size) ==>
                && (errorno == 0 ==> buf[..size] == DiskRead(cfg.vhd, Now().st.disk, place, size))
                && (Now().Whole? && image.reliable && (!cfg.vhd ==> place + size < TWO63) ==> errorno == 0)
    {
      hide WellFormed, Logical, DiskRead, Patch, Splice, FlatWrite, OffT, Strays;
      forall k | 0 <= k < size {
        buf[k] := 0;
      }
      assert buf[..size] == Zeros(size);
      var readDone := LogicalRead(size, OffT(cfg.imageOffset + offset), cfg.imageOffset + offset);
      errorno := 0;
      if readDone == -1 {
        errorno := LastError();
      }
    }

    /** The buffer for a read of `length` bytes and what it is filled with. */
    method FillBuffer(length: nat, offset: nat) returns (size: nat, errorno: nat, ghost resp: Response)
      requires Valid() && length < TWO64
      modifies this, buf
      ensures Valid() && (buf == old(buf) || fresh(buf))
      ensures size <= bufferSize == NextBuffer(old(bufferSize), Read(offset, length))
      ensures resp == if errorno == 0 then ReadResp(0, size, buf[..size]) else ReadResp(errorno, 0, [])
      ensures Fits(cfg, Read(offset, length), resp)
      ensures Moves(cfg, image.reliable, old(Now()), Read(offset, length), resp, Now())
    {
      hide WellFormed, Logical, DiskRead, OffT, Strays, Fits, Moves, NextBuffer, Transfer, Resized, TornAt;
      ghost var was, req := Now(), Read(offset, length);
      TransferOfRead(bufferSize, offset, length);
      GrowBuffer(length);
      size := Min(length, bufferSize);
      errorno := ReadInto(size, offset);
      resp := if errorno == 0 then ReadResp(0, size, buf[..size]) else ReadResp(errorno, 0, []);
      ReadMoves(cfg, image.reliable, was, offset, length, errorno, buf[..size], resp, Now());
    }

    method ReadData(ghost input: seq<byte>) returns (ok: bool, ghost o: Outcome)
      requires Valid() && CODE_SIZE <= |input| && channel.pending == input[8..] && FromLe(input[..8]) == REQ_READ
      modifies this, buf, channel
      ensures Valid() && Handled(input, ok, o) && (buf == old(buf) || fresh(buf))
    {
      hide WellFormed, Logical, Le, FromLe, ParseOne, EncodeResponse, Moves, Fits, NextBuffer;
      ParseRead(input, bufferSize);
      var offset, length;
      o := Skipped;
      ok, offset, length := ReadHeader(input, REQ_READ);
      if !ok {
        return;
      }
      var size, errorno;
      ghost var resp;
      size, errorno, resp := FillBuffer(length, offset);
      o := Answered(resp);
      ok := SendData(errorno, if errorno == 0 then size else 0);
    }

    /** The response to a read and, if it has not failed, the first `size` bytes of the buffer. */
    method SendData(errorno: nat, size: nat) returns (ok: bool)
      requires size <= buf.Length
      modifies channel`sent
      ensures channel.reliable ==> ok
      ensures ok ==> channel.sent == old(channel.sent) +
                                     EncodeResponse(ReadResp(errorno, size, if errorno == 0 then buf[..size] else []))
    {
      hide Le;
      ok := channel.SafeWrite(Le(errorno, 8) + Le(size, 8));
      if ok && errorno == 0 {
        ok := channel.SafeWrite(buf[..size]);
      }
    }

    /** The write itself, unless the device is read-only. */
    method WriteFrom(length: nat, offset: nat) returns (resp: Response)
      requires Valid() && length <= bufferSize && offset < TWO64
      modifies image`file
      ensures cfg.flags % 2 == 1 ==> image.file == old(image.file)
      ensures Valid() && Fits(cfg, Write(offset, buf[..length]), resp) && resp.WriteResp?
      ensures Moves(cfg, image.reliable, old(Now()), Write(offset, buf[..length]), resp, Now())
    {
      hide WellFormed, Logical, DiskWrite, DiskWritten, OffT, Strays, Fits, Moves, WrittenAs;
      var written;
      ghost var kept, was := 0, Now();
      if cfg.ReadOnly() {
        resp := WriteResp(EBADF, 0);
        RefusalMoves(cfg, image.reliable, was, offset, buf[..length]);
        return;
      }
      written, kept := LogicalWrite(length, OffT(cfg.imageOffset + offset), cfg.imageOffset + offset);
      if written == -1 {
        var errorno := LastError();
        resp := WriteResp(errorno, TWO64 - 1);
      } else {
        resp := WriteResp(0, written);
      }
      WriteMoves(cfg, image.reliable, was, offset, buf[..length], written, kept, resp, Now());
    }

    method WriteData(ghost input: seq<byte>) returns (ok: bool, ghost o: Outcome)
      requires Valid() && CODE_SIZE <= |input| && channel.pending == input[8..] && FromLe(input[..8]) == REQ_WRITE
      modifies buf, channel, image`file
      ensures Valid() && Handled(input, ok, o)
    {
      hide WellFormed, Logical, Le, FromLe, ParseOne, Moves, Fits, TornAt;
      ParseWrite(input, bufferSize);
      var offset, length;
      o := Skipped;
      ok, offset, length := ReadHeader(input, REQ_WRITE);
      if !ok {
        return;
      }
      if length > bufferSize {
        return false, o;
      }
      ok := channel.SafeRead(buf, 0, length);
      if !ok {
        return;
      }
      assert buf[..length] == buf[0..length];
      assert input[24..][..length] == input[24..24 + length];
      var resp := WriteFrom(length, offset);
      o := Answered(resp);
      ok := channel.SafeWrite(Le(resp.errorno, 8) + Le(resp.length, 8));
    }

    method Dispatch(req: nat, ghost input: seq<byte>) returns (ok: bool, ghost o: Outcome)
      requires Valid() && CODE_SIZE <= |input| && channel.pending == input[8..]
      requires FromLe(input[..8]) == req && req != REQ_CLOSE
      modifies this, buf, channel, image`file
      ensures Valid() && Handled(input, ok, o) && (buf == old(buf) || fresh(buf))
    {
      hide WellFormed, Logical, Le, FromLe, DiskWrite, DiskWritten, DiskRead, Fails;
      if req == REQ_INFO {
        ok := SendInfo();
        o := Answered(InfoResp(cfg.fileSize, cfg.alignment, cfg.flags));
      } else if req == REQ_READ {
        ok, o := ReadData(input);
      } else if req == REQ_WRITE {
        ok, o := WriteData(input);
      } else {
        ok := SendFailed();
        o := Answered(Failed(ENODEV));
      }
    }

    /** Takes a request code off the stream. */
    method ReadCode() returns (ok: bool, req: nat)
      modifies channel`pending
      ensures channel.reliable ==> (ok <==> CODE_SIZE <= |old(channel.pending)|)
      ensures ok ==> CODE_SIZE <= |old(channel.pending)| && channel.pending == old(channel.pending)[8..]
                     && req == FromLe(old(channel.pending)[..8])
    {
      var code := new byte[8];
      ok := channel.SafeRead(code, 0, 8);
      assert code[..] == code[0..8];
      req := FromLe(code[..]);
    }

    /** The request loop. Whatever the image does, each of the requests `reqs` that are taken gets one response
        of the form the client expects, and a transport that does not fail carries exactly these responses to
        all requests of the stream, for the client to cut apart. Until a write goes astray or follows one that
        has torn a block, each request is answered as by a flat disk, or fails, or reads elsewhere. On an
        image that does not fail, requests that do not go astray are served as by the flat-disk server. */
    method DoComm() returns (rc: int, ghost reqs: seq<Request>, ghost run: Run)
      requires Valid()
      modifies this, buf, channel, image`file
      ensures Valid()
      ensures reqs <= Requests(old(bufferSize), old(channel.pending)) && AllFit(cfg, reqs, run.rs)
      ensures channel.reliable ==>
                && reqs == Requests(old(bufferSize), old(channel.pending))
                && rc == EndCode(old(bufferSize), old(channel.pending))
                && channel.sent == old(channel.sent) + EncodeResponses(run.rs)
                && Cut(reqs, channel.sent[|old(channel.sent)|..]) == EncodeEach(run.rs)
      ensures old(Now()).Whole? ==>
                && Explains(cfg, old(Now()).st, reqs, run)
                && (!run.lost ==> Now() == Ended(run))
      ensures old(Now()).Whole? && image.reliable && Proper(cfg, old(Now()).st, reqs) ==>
                && Now() == Whole(After(cfg, old(Now()).st, reqs))
                && run.rs == Answers(cfg, old(Now()).st, reqs)
                && (channel.reliable ==>
                      var served := Serve(cfg, old(Now()).st, old(channel.pending));
                      && rc == served.rc && Now() == Whole(served.final)
                      && channel.sent == old(channel.sent) + served.out)
      ensures cfg.flags % 2 == 1 ==>
                && image.file == old(image.file)
                && forall i :: 0 <= i < |reqs| && reqs[i].Write? ==> run.rs[i] == WriteResp(9, 0)
    {
      hide WellFormed, Logical, EncodeResponse, ParseOne, NextBuffer, FromLe, AllFit, Explains, EncodeResponses, Fits,
           Moves, InRun, Requests, EndCode, Extended, Serve, Answers, After, Proper, Cut, EncodeEach, Encodable;
      ghost var all, start := Requests(bufferSize, channel.pending), Now();
      reqs, run := [], Run([], [if start.Whole? then start.st else State([], 0)], false, false);
      RunBegins(cfg, image.reliable, start, State([], 0));
      SentNothing(channel.sent);
      while true
        invariant Valid() && (buf == old(buf) || fresh(buf))
        invariant cfg.flags % 2 == 1 ==> image.file == old(image.file)
        invariant all == reqs + Requests(bufferSize, channel.pending)
        invariant EndCode(bufferSize, channel.pending) == EndCode(old(bufferSize), old(channel.pending))
        invariant channel.reliable ==> channel.sent == old(channel.sent) + EncodeResponses(run.rs)
        invariant InRun(cfg, image.reliable, start, reqs, run, Now()) && run.states != []
        decreases |channel.pending|
      {
        ghost var input, was, before := channel.pending, bufferSize, Now();
        RequestsUnfold(was, input);
        ParseCode(input, was);
        var ok, req := ReadCode();
        if !ok || req == REQ_CLOSE {
          rc := 0;
          break;
        }
        ghost var o;
        ok, o := Dispatch(req, input);
        if o.Answered? {
          RunGoesOn(cfg, image.reliable, start, reqs, run, before, ParseOne(input, was).req, o.resp, Now());
          run := Extended(cfg, run, ParseOne(input, was).req, o.resp, Now());
          reqs := reqs + [ParseOne(input, was).req];
        }
        if !ok {
          rc := 1;
          break;
        }
      }
      RunEnds(cfg, image.reliable, start, reqs, run, Now());
      SentFramed(cfg, old(bufferSize), old(channel.pending), reqs, run.rs, old(channel.sent));
      if cfg.flags % 2 == 1 {
        WritesRefused(cfg, reqs, run.rs);
      }
      if start.Whole? {
        ServeIs(cfg, start.st, old(channel.pending));
      }
    }
  }

  lemma SentNothing(sent: seq<byte>)
    ensures sent + EncodeResponses([]) == sent
  {
  }

  /** The client finds the responses to its requests behind what had been sent before. */
  lemma SentFramed(cfg: Config, bufferSize: nat, input: seq<byte>, reqs: seq<Request>, rs: seq<Response>,
                   before: seq<byte>)
    requires reqs <= Requests(bufferSize, input) && AllFit(cfg, reqs, rs)
    ensures Cut(reqs, (before + EncodeResponses(rs))[|before|..]) == EncodeEach(rs)
  {
    hide Encodable, Fits, EncodeResponse;
    RequestsEncodable(bufferSize, input);
    assert forall r :: r in reqs ==> r in Requests(bufferSize, input);
    ResponsesAreFramed(cfg, reqs, rs);
    assert (before + EncodeResponses(rs))[|before|..] == EncodeResponses(rs);
  }

  /** A write at `place` of the disk was made, or has failed with its first `kept` bytes made. */
  ghost predicate WrittenAs(vhd: bool, disk: seq<byte>, place: nat, d: seq<byte>, done: int, kept: nat, now: Status) {
    hide DiskWrite, DiskWritten;
    && !now.Lost?
    && if done != -1 then
         && now.Whole? && done == DiskWritten(vhd, disk, place, d)
         && now.st.disk == DiskWrite(vhd, disk, place, d)
       else kept <= |d| && now.st.disk == DiskWrite(vhd, disk, place, d[..kept])
  }

  /** The range check for a request that does not go astray. */
  lemma RangeOf(g: Geometry, place: nat, size: nat)
    requires g.currentSize < TWO63 && !Strays(true, g.currentSize, place, size)
    ensures place + size <= g.currentSize ==> OffT(place) == place && OnDisk(g, size, OffT(place))
    ensures Passes(g, size, OffT(place)) ==>
              OnDisk(g, size, OffT(place)) && (size == 0 || (OffT(place) == place && place + size <= g.currentSize))
    ensures !Passes(g, size, OffT(place)) ==> place + size > g.currentSize
  {
    OffTSum(place, size);
    if place + size <= g.currentSize {
      OnDiskPasses(g, size, place);
    }
  }

  /** The range check lets a request that goes astray through, where the flat disk writes nothing. */
  lemma StrayPasses(g: Geometry, disk: seq<byte>, place: nat, d: seq<byte>)
    requires |disk| == g.currentSize && Strays(true, g.currentSize, place, |d|)
    ensures Passes(g, |d|, OffT(place)) && DiskWritten(true, disk, place, d) == 0 < |d|
  {
    hide OffT;
    OffTSum(place, |d|);
  }

  /** A request in VHD mode that does not go astray, in terms of the flat disk. */
  lemma VhdWritten(g: Geometry, before: seq<byte>, f: seq<byte>, d: seq<byte>, place: nat, done: int, kept: nat,
                   base: seq<byte>, reliable: bool)
    requires WellFormed(g, before) && !Strays(true, g.currentSize, place, |d|)
    requires !Passes(g, |d|, OffT(place)) ==> done == 0 && f == before
    requires Passes(g, |d|, OffT(place)) ==> done == |d| || done == -1
    requires OnDisk(g, |d|, OffT(place)) && done != -1 ==>
               WellFormed(g, f) && Logical(g, f) == FlatWrite(Logical(g, before), Op(d, OffT(place)))
    requires OnDisk(g, |d|, OffT(place)) && done == -1 ==>
               !reliable && Interrupted(g, before, f, d, OffT(place), kept, base)
    ensures g.Slot(g.entries) <= |f|
    ensures done == -1 ==> !reliable && kept <= |d| && (WellFormed(g, f) || exists n :: TornAt(g, base, f, n))
    ensures done != -1 ==> WellFormed(g, f) && done == DiskWritten(true, Logical(g, before), place, d)
    ensures Logical(g, f) == DiskWrite(true, Logical(g, before), place, if done == -1 then d[..kept] else d)
  {
    hide WellFormed, Logical, Interrupted, OffT, TornAt, Strays, Splice;
    SizesFit(g, before);
    RangeOf(g, place, |d|);
    if done == -1 {
      InterruptedDisk(g, before, f, d, OffT(place), kept, base);
    }
    if d == [] && Passes(g, |d|, OffT(place)) {
      EmptySplice(Logical(g, before), OffT(place));
      if place <= |Logical(g, before)| {
        EmptySplice(Logical(g, before), place);
      }
    }
  }

  /** A read in VHD mode that does not go astray, in terms of the flat disk. */
  lemma VhdDelivered(g: Geometry, disk: seq<byte>, was: seq<byte>, now: seq<byte>, size: nat, place: nat, done: int)
    requires |disk| == g.currentSize < TWO63 && !Strays(true, g.currentSize, place, size)
    requires size <= |was| == |now| && was[..size] == Zeros(size)
    requires !Passes(g, size, OffT(place)) ==> now == was
    requires OnDisk(g, size, OffT(place)) && done != -1 ==> SameSpan(now, 0, size, disk, OffT(place))
    ensures done != -1 ==> now[..size] == DiskRead(true, disk, place, size)
  {
    hide OffT, Strays, Passes;
    RangeOf(g, place, size);
    assert DiskRead(true, disk, place, 0) == [];
    if Passes(g, size, OffT(place)) && size > 0 && done != -1 {
      assert now[..size] == now[0..0 + size] == disk[place..place + size];
    }
  }

  /** A read of a plain file that does not go astray. */
  lemma PlainDelivered(was: seq<byte>, now: seq<byte>, file: seq<byte>, place: nat, size: nat, done: int)
    requires size <= |was| && was[..size] == Zeros(size) && !Strays(false, |file|, place, size)
    requires SameOutside(was, now, 0, Max(0, done)) && done != -1
    requires place < TWO63 ==> done == Max(0, Min(size, |file| - place))
    requires place < TWO63 && done > 0 ==> SameSpan(now, 0, done, file, place)
    requires TWO63 <= place < TWO64 ==> done == -1
    requires done <= size
    ensures size <= |now| && now[..size] == DiskRead(false, file, place, size)
  {
    hide OffT;
    if size == 0 {
      assert DiskRead(false, file, place, 0) == [];
    } else {
      OffTOf(place);
      PlainRead(was, now, file, place, size, done);
    }
  }

  /** The same image with another buffer. */
  function Resized(was: Status, bufferSize: nat): (now: Status)
    ensures now.Lost? <==> was.Lost?
  {
    match was
    case Whole(st) => Whole(st.(bufferSize := bufferSize))
    case Torn(st) => Torn(st.(bufferSize := bufferSize))
    case Lost => Lost
  }

  lemma TransferOfRead(bufferSize: nat, offset: nat, length: nat)
    ensures NextBuffer(bufferSize, Read(offset, length)) ==
            if length > bufferSize then Min(length, MAX_TRANSFER) else bufferSize
    ensures Transfer(bufferSize, Read(offset, length)) == Min(length, NextBuffer(bufferSize, Read(offset, length)))
  {
  }

  /** A read in terms of what the image stands for. */
  lemma ReadMoves(cfg: Config, reliable: bool, was: Status, offset: nat, length: nat, errorno: nat, data: seq<byte>,
                  resp: Response, next: Status)
    requires errorno < TWO31
    requires resp == if errorno == 0 then ReadResp(0, |data|, data) else ReadResp(errorno, 0, [])
    requires !was.Lost? ==>
               && |data| == Transfer(was.st.bufferSize, Read(offset, length))
               && next == Resized(was, NextBuffer(was.st.bufferSize, Read(offset, length)))
    requires |data| <= length && (|data| == length || |data| == MAX_TRANSFER)
    requires var place := cfg.imageOffset + offset;
             !was.Lost? && !Strays(cfg.vhd, |was.st.disk|, place, |data|) ==>
               && (errorno == 0 ==> data == DiskRead(cfg.vhd, was.st.disk, place, |data|))
               && (was.Whole? && reliable && (!cfg.vhd ==> place + |data| < TWO63) ==> errorno == 0)
    ensures Fits(cfg, Read(offset, length), resp)
    ensures Moves(cfg, reliable, was, Read(offset, length), resp, next)
  {
    hide DiskRead, Strays, NextBuffer, Transfer;
  }

  /** A write in terms of what the image stands for. */
  lemma WriteMoves(cfg: Config, reliable: bool, was: Status, offset: nat, d: seq<byte>, done: int, kept: nat,
                   resp: Response, next: Status)
    requires !cfg.ReadOnly() && (done == -1 || done == 0 || done == |d|)
    requires resp.WriteResp? && if done == -1 then ReportsFailure(resp) else resp == WriteResp(0, done)
    requires !next.Lost? && !was.Lost? ==> next.st.bufferSize == was.st.bufferSize
    requires var place := cfg.imageOffset + offset;
             was.Whole? && !Strays(cfg.vhd, |was.st.disk|, place, |d|) ==>
               && WrittenAs(cfg.vhd, was.st.disk, place, d, done, kept, next)
               && (reliable && (!cfg.vhd ==> place + |d| < TWO63) ==> done != -1)
    ensures Fits(cfg, Write(offset, d), resp)
    ensures Moves(cfg, reliable, was, Write(offset, d), resp, next)
  {
    hide DiskWrite, DiskWritten, Strays;
  }

  /** A write to a read-only device is refused. */
  lemma RefusalMoves(cfg: Config, reliable: bool, was: Status, offset: nat, d: seq<byte>)
    requires cfg.ReadOnly()
    ensures Fits(cfg, Write(offset, d), WriteResp(EBADF, 0))
    ensures Moves(cfg, reliable, was, Write(offset, d), WriteResp(EBADF, 0), was)
  {
  }

  lemma EmptySplice(s: seq<byte>, at: nat)
    requires at <= |s|
    ensures Splice(s, at, []) == s
  {
  }

  /** A place in a plain file that is not wrapped around. */
  lemma OffTOf(place: nat)
    ensures place < TWO63 ==> OffT(place) == place
    ensures TWO63 <= place < TWO64 ==> OffT(place) < 0
    ensures TWO64 <= place < TWO64 + TWO63 ==> OffT(place) == place - TWO64
  {
  }

  /** Bytes of the file in front of zeros are what the flat disk delivers. */
  lemma PlainRead(was: seq<byte>, now: seq<byte>, file: seq<byte>, offset: nat, size: nat, done: nat)
    requires size <= |was| && was[..size] == Zeros(size) && done == Max(0, Min(size, |file| - offset))
    requires done > 0 ==> SameSpan(now, 0, done, file, offset)
    requires SameOutside(was, now, 0, done)
    ensures size <= |now| && now[..size] == DiskRead(false, file, offset, size)
  {
    forall k | 0 <= k < size
      ensures now[k] == DiskRead(false, file, offset, size)[k]
    {
      if k < done {
        assert now[k] == now[0..done][k];
      } else {
        assert now[k] == now[done..][k - done] == was[done..][k - done] == was[..size][k];
      }
    }
  }

  lemma ParseRead(input: seq<byte>, bufferSize: nat)
    requires CODE_SIZE <= |input| && FromLe(input[..8]) == REQ_READ
    ensures ParseOne(input, bufferSize) ==
            if |input| < Protocol.HEADER_SIZE then Stop(1)
            else Got(Read(FromLe(input[8..16]), FromLe(input[16..24])), Protocol.HEADER_SIZE)
  {
    hide FromLe;
  }

  lemma ParseWrite(input: seq<byte>, bufferSize: nat)
    requires CODE_SIZE <= |input| && FromLe(input[..8]) == REQ_WRITE
    ensures ParseOne(input, bufferSize) ==
            if |input| < Protocol.HEADER_SIZE then Stop(1)
            else
              var length := FromLe(input[16..24]);
              if length > bufferSize || |input| < Protocol.HEADER_SIZE + length then Stop(1)
              else Got(Write(FromLe(input[8..16]), input[24..24 + length]), Protocol.HEADER_SIZE + length)
  {
    hide FromLe;
  }

  lemma ParseCode(input: seq<byte>, bufferSize: nat)
    ensures ParseOne(input, bufferSize).Got? ==> CODE_SIZE <= |input| && FromLe(input[..8]) != REQ_CLOSE
    ensures |input| < CODE_SIZE || FromLe(input[..8]) == REQ_CLOSE ==> ParseOne(input, bufferSize) == Stop(0)
    ensures CODE_SIZE <= |input| && FromLe(input[..8]) != REQ_CLOSE ==>
              ParseOne(input, bufferSize).Got? || ParseOne(input, bufferSize) == Stop(1)
  {
    hide FromLe;
  }
}
