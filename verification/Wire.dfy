/** The devio protocol as its clients see it: in bytes on the stream, and as the history of what was written. */
module Wire {
  import opened Bytes
  import opened Protocol
  import opened Runs

  // ---------- bytes ----------

  /** The eight bytes of a small number. */
  function Small(v: byte): seq<byte> {
    [v, 0, 0, 0, 0, 0, 0, 0]
  }

  lemma SmallValue(s: seq<byte>, v: byte)
    requires 8 <= |s|
    ensures FromLe(s[..8]) == v <==> s[..8] == Small(v)
  {
    hide FromLe;
    FromLeEight(s, 0);
  }

  lemma LeFields(v: nat)
    requires v < TWO64
    ensures |Le(v, 8)| == 8 && Le64(Le(v, 8), 0) == v
  {
    hide Le, FromLe, Le64;
    LeBack(v);
    FromLeEight(Le(v, 8), 0);
    assert Le(v, 8)[0..8] == Le(v, 8);
  }

  /** What the server takes off its stream next, in bytes: an information request, a read or a write, the close
      request or the end of the stream, or an unknown request. */
  lemma RequestBytes(input: seq<byte>, bufferSize: nat)
    ensures |input| < 8 ==> ParseOne(input, bufferSize) == Stop(0)
    ensures 8 <= |input| && input[..8] == Small(5) ==> ParseOne(input, bufferSize) == Stop(0)
    ensures 8 <= |input| && input[..8] == Small(1) ==> ParseOne(input, bufferSize) == Got(Info, 8)
    ensures 8 <= |input| < 24 && input[..8] in {Small(2), Small(3)} ==> ParseOne(input, bufferSize) == Stop(1)
    ensures 24 <= |input| && input[..8] == Small(2) ==>
              ParseOne(input, bufferSize) == Got(Read(Le64(input, 8), Le64(input, 16)), 24)
    ensures 24 <= |input| && input[..8] == Small(3) ==>
              ParseOne(input, bufferSize) ==
              var length := Le64(input, 16);
              if length > bufferSize || |input| < 24 + length then Stop(1)
              else Got(Write(Le64(input, 8), input[24..24 + length]), 24 + length)
    ensures 8 <= |input| && input[..8] !in {Small(1), Small(2), Small(3), Small(5)} ==>
              ParseOne(input, bufferSize) == Got(Other(Le64(input, 0)), 8)
  {
    hide FromLe, Small, Le64;
    if 8 <= |input| {
      FromLeEight(input, 0);
      assert input[0..8] == input[..8];
      SmallValue(input, 1);
      SmallValue(input, 2);
      SmallValue(input, 3);
      SmallValue(input, 5);
      if 24 <= |input| {
        FromLeEight(input, 8);
        FromLeEight(input, 16);
      }
    }
  }

  /** The fields of the responses, in the order in which the client reads them. */
  lemma ResponseBytes(resp: Response)
    requires resp.InfoResp? ==> resp.fileSize < TWO64 && resp.alignment < TWO64 && resp.flags < TWO64
    requires !resp.InfoResp? ==> resp.errorno < TWO64
    requires resp.ReadResp? || resp.WriteResp? ==> resp.length < TWO64
    ensures var b := EncodeResponse(resp);
            && (resp.InfoResp? ==> |b| == 24 && Le64(b, 0) == resp.fileSize && Le64(b, 8) == resp.alignment
                                   && Le64(b, 16) == resp.flags)
            && (resp.ReadResp? ==> |b| == 16 + |resp.data| && Le64(b, 0) == resp.errorno
                                   && Le64(b, 8) == resp.length && b[16..] == resp.data)
            && (resp.WriteResp? ==> |b| == 16 && Le64(b, 0) == resp.errorno && Le64(b, 8) == resp.length)
            && (resp.Failed? ==> |b| == 8 && Le64(b, 0) == resp.errorno)
  {
    hide Le, FromLe;
    match resp
    case InfoResp(fileSize, alignment, flags) =>
      LeFields(fileSize);
      LeFields(alignment);
      LeFields(flags);
    case ReadResp(errorno, length, data) =>
      LeFields(errorno);
      LeFields(length);
    case WriteResp(errorno, length) =>
      LeFields(errorno);
      LeFields(length);
    case Failed(errorno) => LeFields(errorno);
  }

  // ---------- read-only devices ----------

  /** The information response tells a client whether its writes are refused: they are exactly when its byte 16
      is odd, and then nothing changes. Otherwise a write on the disk is done in full. */
  lemma InfoTellsReadOnly(cfg: Config, st: State, w: Request)
    requires cfg.fileSize < TWO64 && cfg.alignment < TWO64 && cfg.flags < TWO64 && w.Write?
    ensures var b := EncodeResponse(Answer(cfg, st, Info));
            && |b| == 24
            && (b[16] % 2 == 1 <==> Answer(cfg, st, w) == WriteResp(9, 0))
            && (b[16] % 2 == 1 ==> Next(cfg, st, w) == st)
            && (b[16] % 2 == 0 && cfg.imageOffset + w.offset + |w.data| <= |st.disk| ==>
                  Answer(cfg, st, w) == WriteResp(0, |w.data|))
  {
    hide Le64, EncodeResponse;
    ResponseBytes(Answer(cfg, st, Info));
    Parity(EncodeResponse(Answer(cfg, st, Info)), 16);
  }

  lemma Parity(s: seq<byte>, p: nat)
    requires p + 8 <= |s|
    ensures s[p] % 2 == Le64(s, p) % 2
  {
    hide Le32;
    ParityFour(s, p);
    EvenSum(Le32(s, p), 0x8000_0000 * Le32(s, p + 4));
  }

  lemma ParityFour(s: seq<byte>, p: nat)
    requires p + 4 <= |s|
    ensures s[p] % 2 == Le32(s, p) % 2
  {
    var a: int, b: int, c: int, d: int := s[p], s[p + 1], s[p + 2], s[p + 3];
    EvenSum(a, 0x80 * b + 0x8000 * c + 0x80_0000 * d);
  }

  lemma EvenSum(a: int, b: int)
    ensures (a + 2 * b) % 2 == a % 2
  {
  }

  // ---------- histories ----------

  lemma {:induction false} AfterMore(cfg: Config, st: State, reqs: seq<Request>, req: Request)
    ensures After(cfg, st, reqs + [req]) == Next(cfg, After(cfg, st, reqs), req)
    decreases |reqs|
  {
    hide Next;
    if reqs == [] {
      assert reqs + [req] == [req] && [req][1..] == [];
    } else {
      assert (reqs + [req])[1..] == reqs[1..] + [req];
      AfterMore(cfg, Next(cfg, st, reqs[0]), reqs[1..], req);
    }
  }

  /** Each response is the answer in the state that the requests before it have left. */
  lemma {:induction false} AnswersAt(cfg: Config, st: State, reqs: seq<Request>, i: nat)
    requires i < |reqs|
    ensures Answers(cfg, st, reqs)[i] == Answer(cfg, After(cfg, st, reqs[..i]), reqs[i])
    decreases |reqs|
  {
    hide Answer, Next;
    if i > 0 {
      AnswersAt(cfg, Next(cfg, st, reqs[0]), reqs[1..], i - 1);
      assert reqs[..i][1..] == reqs[1..][..i - 1];
    }
  }

  /** A write that is made puts a byte at this position of the image. */
  predicate Covers(cfg: Config, size: nat, w: Request, position: nat) {
    && w.Write? && cfg.flags % 2 == 0
    && cfg.imageOffset + w.offset <= position < cfg.imageOffset + w.offset + |w.data|
    && (cfg.vhd ==> cfg.imageOffset + w.offset + |w.data| <= size)
  }

  /** The byte that the last write over a position has left there, or else that of the original disk. */
  function LastWritten(cfg: Config, disk: seq<byte>, reqs: seq<Request>, position: nat): byte {
    if reqs == [] then if position < |disk| then disk[position] else 0
    else
      var last := reqs[|reqs| - 1];
      if Covers(cfg, |disk|, last, position) then last.data[position - cfg.imageOffset - last.offset]
      else LastWritten(cfg, disk, reqs[..|reqs| - 1], position)
  }

  lemma {:induction false} DiskIsLastWritten(cfg: Config, st: State, reqs: seq<Request>, position: nat)
    ensures var disk := After(cfg, st, reqs).disk;
            && (cfg.vhd ==> |disk| == |st.disk|)
            && LastWritten(cfg, st.disk, reqs, position) == if position < |disk| then disk[position] else 0
    decreases |reqs|
  {
    hide DiskRead, NextBuffer;
    if reqs != [] {
      var before, last := reqs[..|reqs| - 1], reqs[|reqs| - 1];
      DiskIsLastWritten(cfg, st, before, position);
      assert before + [last] == reqs;
      AfterMore(cfg, st, before, last);
      NextByte(cfg, After(cfg, st, before), last, position);
    }
  }

  lemma NextByte(cfg: Config, st: State, req: Request, position: nat)
    ensures var disk := Next(cfg, st, req).disk;
            && (cfg.vhd ==> |disk| == |st.disk|)
            && (if position < |disk| then disk[position] else 0) ==
               if Covers(cfg, |st.disk|, req, position) then req.data[position - cfg.imageOffset - req.offset]
               else if position < |st.disk| then st.disk[position] else 0
  {
    hide NextBuffer;
  }

  /** A read in any run of requests delivers, byte by byte, what was last written there. On a VHD a read that
      is not on the disk delivers zeros. */
  lemma ReadsLastWritten(cfg: Config, st: State, reqs: seq<Request>, i: nat)
    requires i < |reqs| && reqs[i].Read?
    ensures var resp, from := Answers(cfg, st, reqs)[i], cfg.imageOffset + reqs[i].offset;
            && resp.ReadResp? && resp.errorno == 0 && |resp.data| == resp.length <= reqs[i].length
            && (reqs[i].length <= 0x7FFF_FFFF_FFFF_FFFF ==> resp.length == reqs[i].length)
            && forall k :: 0 <= k < |resp.data| ==>
                 resp.data[k] == if cfg.vhd && from + |resp.data| > |st.disk| then 0
                                 else LastWritten(cfg, st.disk, reqs[..i], from + k)
  {
    hide LastWritten, After, Next;
    var now := After(cfg, st, reqs[..i]);
    AnswersAt(cfg, st, reqs, i);
    DiskIsLastWritten(cfg, st, reqs[..i], 0);
    var data, from := Answers(cfg, st, reqs)[i].data, cfg.imageOffset + reqs[i].offset;
    forall k | 0 <= k < |data|
      ensures data[k] == if cfg.vhd && from + |data| > |st.disk| then 0
                         else LastWritten(cfg, st.disk, reqs[..i], from + k)
    {
      DiskIsLastWritten(cfg, st, reqs[..i], from + k);
    }
  }

  /** The transfer buffer after a run is as large as the largest read in it, or as it was. */
  lemma {:induction false} BufferIsLargestRead(cfg: Config, st: State, reqs: seq<Request>)
    requires st.bufferSize <= 0x7FFF_FFFF_FFFF_FFFF
    ensures var size := After(cfg, st, reqs).bufferSize;
            && st.bufferSize <= size <= 0x7FFF_FFFF_FFFF_FFFF
            && (forall r :: r in reqs && r.Read? ==> Min(r.length, 0x7FFF_FFFF_FFFF_FFFF) <= size)
            && (size == st.bufferSize
                || exists r :: r in reqs && r.Read? && size == Min(r.length, 0x7FFF_FFFF_FFFF_FFFF))
    decreases |reqs|
  {
    hide DiskWrite;
    if reqs != [] {
      BufferIsLargestRead(cfg, Next(cfg, st, reqs[0]), reqs[1..]);
      assert forall r :: r in reqs <==> r == reqs[0] || r in reqs[1..];
    }
  }

  // ---------- requests on the disk ----------

  /** The bytes of a request end in front of 2^63, as far as its handler goes to the image at all. */
  predicate Near(cfg: Config, req: Request) {
    match req
    case Read(offset, length) => cfg.imageOffset + offset + length < 0x8000_0000_0000_0000
    case Write(offset, data) =>
      cfg.flags % 2 == 1 || cfg.imageOffset + offset + |data| < 0x8000_0000_0000_0000
    case Info => true
    case Other(_) => true
  }

  /** Requests at near positions never go astray. */
  lemma {:induction false} NearIsProper(cfg: Config, st: State, reqs: seq<Request>)
    requires forall r :: r in reqs ==> Near(cfg, r)
    ensures Proper(cfg, st, reqs)
    decreases |reqs|
  {
    hide Next, Near, Astray, Holdable;
    if reqs != [] {
      OneIsProper(cfg, st, reqs[0]);
      NearIsProper(cfg, Next(cfg, st, reqs[0]), reqs[1..]);
    }
  }

  lemma OneIsProper(cfg: Config, st: State, req: Request)
    requires Near(cfg, req)
    ensures Holdable(cfg, st.bufferSize, req) && !Astray(cfg, st, req)
  {
  }

  /** On an image in good order that does not fail, a write on the disk is done in full, and the disk of the
      next state has its bytes. */
  lemma WriteIsDone(cfg: Config, start: State, reqs: seq<Request>, run: Run, i: nat)
    requires Explains(cfg, start, reqs, run) && Diligent(cfg, reqs, run)
    requires i + 1 < |run.states| && !FailedBefore(reqs, run.rs, i)
    requires reqs[i].Write? && cfg.flags % 2 == 0
    requires cfg.imageOffset + reqs[i].offset + |reqs[i].data| <= |run.states[i].disk| < 0x8000_0000_0000_0000
    ensures run.rs[i] == WriteResp(0, |reqs[i].data|)
    ensures run.states[i + 1].disk == Patch(run.states[i].disk, cfg.imageOffset + reqs[i].offset, reqs[i].data)
  {
    hide FailedBefore;
    OneIsProper(cfg, run.states[i], reqs[i]);
    assert Step(cfg, run.states[i], reqs[i], run.rs[i], run.states[i + 1]);
  }
}
