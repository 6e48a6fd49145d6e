/** What happens to a run of requests when physical I/O may fail, a failed write may tear a block, and 64-bit
    positions may wrap around. */
module Runs {
  import opened Bytes
  import opened Protocol
  import opened VhdWrite

  // ---------- positions ----------

  /** The handlers go to the image for this request. */
  predicate Performed(cfg: Config, req: Request) {
    req.Read? || (req.Write? && !cfg.ReadOnly())
  }

  /** Where the bytes of a request begin in the image. The code takes this sum in 64 bits. */
  function Place(cfg: Config, req: Request): nat {
    cfg.imageOffset + if req.Read? || req.Write? then req.offset else 0
  }

  /** A span of `len` bytes at `place` misses the disk of `size` bytes and is not rejected either: the sum has
      wrapped around, to a negative or a small offset that the range check of a VHD lets through, or to an
      offset in front of the partition in a plain file. */
  predicate Strays(vhd: bool, size: nat, place: nat, len: nat) {
    len > 0 && if vhd then place + len > size && (place + len) % TWO64 <= size else place >= TWO64
  }

  predicate Astray(cfg: Config, st: State, req: Request) {
    Performed(cfg, req) && Strays(cfg.vhd, |st.disk|, Place(cfg, req), Transfer(st.bufferSize, req))
  }

  /** For which requests that is, over every offset and length that a client can send. */
  lemma AstrayExactly(cfg: Config, st: State, req: Request)
    requires cfg.imageOffset < 0x8000_0000_0000_0000 && Encodable(req) && Performed(cfg, req)
    requires |st.disk| < TWO63 && st.bufferSize <= MAX_TRANSFER && Transfer(st.bufferSize, req) <= MAX_TRANSFER
    ensures var end, len := Place(cfg, req) + Transfer(st.bufferSize, req), Transfer(st.bufferSize, req);
            Astray(cfg, st, req) <==>
            len > 0 && if cfg.vhd then TWO64 <= end <= TWO64 + |st.disk| else TWO64 + len <= end
  {
    var end := Place(cfg, req) + Transfer(st.bufferSize, req);
    assert end < 2 * TWO64;
    assert end < TWO64 ==> end % TWO64 == end;
    assert end >= TWO64 ==> end % TWO64 == end - TWO64;
  }

  /** On a partition that does not begin at 0, a read can be sent to the beginning of the image. */
  lemma InFrontOfPartition(cfg: Config, st: State, len: nat)
    requires 0 < cfg.imageOffset < 0x8000_0000_0000_0000 && 0 < len <= |st.disk| < TWO63 && len <= st.bufferSize
    ensures var req := Read(TWO64 - cfg.imageOffset, len);
            && Encodable(req) && Astray(cfg, st, req) && OffT(Place(cfg, req)) == 0
            && Answer(cfg, st, req) == ReadResp(0, len, Zeros(len))
  {
    hide DiskRead;
    var req := Read(TWO64 - cfg.imageOffset, len);
    assert Place(cfg, req) == TWO64;
    assert (TWO64 + len) % TWO64 == len;
    assert DiskRead(cfg.vhd, st.disk, TWO64, len) == Zeros(len);
  }

  /** Every byte of the request has a position in a plain file that off_t_64 can hold. */
  predicate Holdable(cfg: Config, bufferSize: nat, req: Request) {
    Performed(cfg, req) && !cfg.vhd ==> Place(cfg, req) + Transfer(bufferSize, req) < TWO63
  }

  /** No request of the run of a flat disk goes astray or beyond what off_t_64 can hold. */
  predicate Proper(cfg: Config, st: State, reqs: seq<Request>)
    decreases |reqs|
  {
    reqs == [] || (&& Holdable(cfg, st.bufferSize, reqs[0]) && !Astray(cfg, st, reqs[0])
                   && Proper(cfg, Next(cfg, st, reqs[0]), reqs[1..]))
  }

  // ---------- steps ----------

  /** What an image stands for: a disk in good order, a disk with a torn block, or nothing that is known. */
  datatype Status = Whole(st: State) | Torn(st: State) | Lost

  /** A request whose I/O fails is told so; a write may have put its first bytes on the disk. */
  predicate Fails(cfg: Config, st: State, req: Request, resp: Response, next: State) {
    && ReportsFailure(resp) && next.bufferSize == NextBuffer(st.bufferSize, req)
    && match req
       case Read(_, _) => resp.ReadResp? && next.disk == st.disk
       case Write(offset, data) =>
         && resp.WriteResp? && !cfg.ReadOnly()
         && exists kept: nat :: kept <= |data| &&
                                next.disk == DiskWrite(cfg.vhd, st.disk, cfg.imageOffset + offset, data[..kept])
       case Info => false
       case Other(_) => false
  }

  /** A read that goes astray delivers bytes from elsewhere. */
  predicate ReadsElsewhere(cfg: Config, st: State, req: Request, resp: Response, next: State) {
    req.Read? && Astray(cfg, st, req) && Fits(cfg, req, resp) && next == Next(cfg, st, req)
  }

  /** The request is answered as a flat disk would answer it, or fails, or reads elsewhere. */
  predicate Step(cfg: Config, st: State, req: Request, resp: Response, next: State) {
    || (resp == Answer(cfg, st, req) && next == Next(cfg, st, req))
    || Fails(cfg, st, req, resp, next)
    || ReadsElsewhere(cfg, st, req, resp, next)
  }

  predicate FailedWrite(req: Request, resp: Response) {
    req.Write? && ReportsFailure(resp)
  }

  /** A write after which nothing is known about the disk: it goes astray, or a block is torn already. */
  predicate Loses(cfg: Config, st: State, req: Request, torn: bool) {
    req.Write? && !cfg.ReadOnly() && (torn || Astray(cfg, st, req))
  }

  /** One request on an image that `was` and is `next`. A block can be torn only by a write that fails, and
      stays torn. Nothing fails on a reliable image in good order, at positions that can be held. */
  predicate Moves(cfg: Config, reliable: bool, was: Status, req: Request, resp: Response, next: Status) {
    || was.Lost?
    || Loses(cfg, was.st, req, was.Torn?)
    || (&& !next.Lost?
        && Step(cfg, was.st, req, resp, next.st)
        && (if was.Torn? then next.Torn? else next.Torn? ==> FailedWrite(req, resp))
        && (reliable && was.Whole? && Holdable(cfg, was.st.bufferSize, req) && !Astray(cfg, was.st, req) ==>
              !ReportsFailure(resp)))
  }

  // ---------- runs ----------

  /** What a handler makes of the request it is called for. */
  datatype Outcome = Skipped | Answered(resp: Response)

  /** What happened to the requests taken so far: the response to each, and the state before each and after
      the last. If the disk has been lost, then the states end before the write that lost it. */
  datatype Run = Run(rs: seq<Response>, states: seq<State>, torn: bool, lost: bool)

  /** A write before number `i` has failed. */
  predicate FailedBefore(reqs: seq<Request>, rs: seq<Response>, i: nat) {
    hide ReportsFailure;
    |reqs| == |rs| && exists t :: 0 <= t < |reqs| && t < i && FailedWrite(reqs[t], rs[t])
  }

  predicate Explains(cfg: Config, start: State, reqs: seq<Request>, run: Run) {
    hide Step, FailedBefore, Loses;
    && |run.rs| == |reqs| && 1 <= |run.states| <= |reqs| + 1 && run.states[0] == start
    && (forall i :: 0 <= i < |run.states| - 1 ==> Step(cfg, run.states[i], reqs[i], run.rs[i], run.states[i + 1]))
    && (run.torn ==> FailedBefore(reqs, run.rs, |reqs|))
    && if run.lost then
         var i := |run.states| - 1;
         i < |reqs| && Loses(cfg, run.states[i], reqs[i], FailedBefore(reqs, run.rs, i))
       else |run.states| == |reqs| + 1
  }

  /** Until a write fails, nothing fails that need not. */
  predicate Diligent(cfg: Config, reqs: seq<Request>, run: Run) {
    hide ReportsFailure, FailedBefore, Astray, Holdable;
    && |run.rs| == |reqs| && |run.states| <= |reqs| + 1
    && forall i :: 0 <= i < |run.states| - 1 ==>
         Holdable(cfg, run.states[i].bufferSize, reqs[i]) && !Astray(cfg, run.states[i], reqs[i])
         && !FailedBefore(reqs, run.rs, i) ==>
           !ReportsFailure(run.rs[i])
  }

  /** The run so far, on an image that was `start` and is `now`. */
  predicate InRun(cfg: Config, reliable: bool, start: Status, reqs: seq<Request>, run: Run, now: Status) {
    hide Fits, Step, ReportsFailure, Explains, Diligent;
    && AllFit(cfg, reqs, run.rs) && run.states != []
    && (start.Whole? ==>
          && Explains(cfg, start.st, reqs, run)
          && (reliable ==> Diligent(cfg, reqs, run))
          && (!run.lost ==> |run.states| == |reqs| + 1 && now == Ended(run)))
  }

  /** What the image stands for after a run that has not lost the disk. */
  function Ended(run: Run): Status
    requires run.states != []
  {
    var st := run.states[|run.states| - 1];
    if run.torn then Torn(st) else Whole(st)
  }

  /** The run after one more request. */
  function Extended(cfg: Config, run: Run, req: Request, resp: Response, next: Status): (later: Run)
    requires run.states != []
    ensures later.states != [] && later.rs == run.rs + [resp]
  {
    if run.lost || next.Lost? || Loses(cfg, run.states[|run.states| - 1], req, run.torn) then
      Run(run.rs + [resp], run.states, run.torn, true)
    else Run(run.rs + [resp], run.states + [next.st], next.Torn?, false)
  }

  lemma RunBegins(cfg: Config, reliable: bool, start: Status, any: State)
    ensures InRun(cfg, reliable, start, [], Run([], [if start.Whole? then start.st else any], false, false), start)
  {
  }

  lemma FailedBeforeMore(reqs: seq<Request>, rs: seq<Response>, req: Request, resp: Response, i: nat)
    requires |reqs| == |rs|
    ensures i <= |reqs| ==> (FailedBefore(reqs + [req], rs + [resp], i) <==> FailedBefore(reqs, rs, i))
    ensures FailedBefore(reqs + [req], rs + [resp], |reqs| + 1) <==>
            FailedBefore(reqs, rs, |reqs|) || FailedWrite(req, resp)
  {
    hide FailedWrite;
    var reqs', rs' := reqs + [req], rs + [resp];
    if FailedBefore(reqs, rs, |reqs|) {
      var t :| 0 <= t < |reqs| && FailedWrite(reqs[t], rs[t]);
      assert FailedWrite(reqs'[t], rs'[t]);
    }
    if i <= |reqs| && FailedBefore(reqs, rs, i) {
      var t :| 0 <= t < |reqs| && t < i && FailedWrite(reqs[t], rs[t]);
      assert FailedWrite(reqs'[t], rs'[t]);
    }
    assert FailedWrite(reqs'[|reqs|], rs'[|reqs|]) <==> FailedWrite(req, resp);
  }

  /** The next request is a step, or loses the disk, or comes after it was lost. */
  lemma ExplainsNext(cfg: Config, start: State, reqs: seq<Request>, run: Run, req: Request, resp: Response,
                     next: Status)
    requires Explains(cfg, start, reqs, run)
    requires || run.lost
             || Loses(cfg, run.states[|reqs|], req, run.torn)
             || (&& !next.Lost? && Step(cfg, run.states[|reqs|], req, resp, next.st)
                 && (next.Torn? ==> run.torn || FailedWrite(req, resp)))
    ensures Explains(cfg, start, reqs + [req], Extended(cfg, run, req, resp, next))
  {
    hide Step, FailedBefore, FailedWrite, Astray;
    FailedBeforeMore(reqs, run.rs, req, resp, |reqs|);
    FailedBeforeMore(reqs, run.rs, req, resp, |run.states| - 1);
  }

  lemma DiligentNext(cfg: Config, start: State, reqs: seq<Request>, run: Run, req: Request, resp: Response,
                     next: Status)
    requires Explains(cfg, start, reqs, run) && Diligent(cfg, reqs, run)
    requires || run.lost
             || Loses(cfg, run.states[|reqs|], req, run.torn)
             || (var st := run.states[|reqs|];
                 Holdable(cfg, st.bufferSize, req) && !Astray(cfg, st, req) && !run.torn ==>
                   !next.Lost? && !ReportsFailure(resp))
    ensures Diligent(cfg, reqs + [req], Extended(cfg, run, req, resp, next))
  {
    hide Step, FailedBefore, FailedWrite, Astray, Holdable, ReportsFailure, Loses;
    var later := Extended(cfg, run, req, resp, next);
    forall i | 0 <= i < |later.states| - 1 && Holdable(cfg, later.states[i].bufferSize, (reqs + [req])[i])
               && !Astray(cfg, later.states[i], (reqs + [req])[i]) && !FailedBefore(reqs + [req], later.rs, i)
      ensures !ReportsFailure(later.rs[i])
    {
      FailedBeforeMore(reqs, run.rs, req, resp, i);
    }
  }

  lemma RunGoesOn(cfg: Config, reliable: bool, start: Status, reqs: seq<Request>, run: Run, was: Status, req: Request,
                  resp: Response, next: Status)
    requires InRun(cfg, reliable, start, reqs, run, was)
    requires Fits(cfg, req, resp) && Moves(cfg, reliable, was, req, resp, next)
    ensures InRun(cfg, reliable, start, reqs + [req], Extended(cfg, run, req, resp, next), next)
    ensures EncodeResponses(Extended(cfg, run, req, resp, next).rs) == EncodeResponses(run.rs) + EncodeResponse(resp)
  {
    hide Explains, Diligent, Fits, Step, EncodeResponse, EncodeResponses, ReportsFailure, Loses, Holdable, Astray;
    EncodeMore(run.rs, resp);
    if start.Whole? {
      ExplainsEnds(cfg, start.st, reqs, run);
      ExplainsNext(cfg, start.st, reqs, run, req, resp, next);
      ExplainsEnds(cfg, start.st, reqs + [req], Extended(cfg, run, req, resp, next));
      if reliable {
        DiligentNext(cfg, start.st, reqs, run, req, resp, next);
      }
    }
  }

  lemma ExplainsEnds(cfg: Config, start: State, reqs: seq<Request>, run: Run)
    requires Explains(cfg, start, reqs, run)
    ensures |run.rs| == |reqs| && run.states != [] && (!run.lost ==> |run.states| == |reqs| + 1)
  {
    hide Step, ReportsFailure, Loses;
  }

  /** What a run tells about the disk. */
  lemma RunEnds(cfg: Config, reliable: bool, start: Status, reqs: seq<Request>, run: Run, now: Status)
    requires InRun(cfg, reliable, start, reqs, run, now)
    ensures AllFit(cfg, reqs, run.rs) && run.states != []
    ensures start.Whole? ==> Explains(cfg, start.st, reqs, run) && (!run.lost ==> now == Ended(run))
    ensures start.Whole? && reliable && Proper(cfg, start.st, reqs) ==>
              now == Whole(After(cfg, start.st, reqs)) && run.rs == Answers(cfg, start.st, reqs)
  {
    hide Fits, Step, ReportsFailure, After, Answers, Explains, Diligent, Proper;
    if start.Whole? && reliable && Proper(cfg, start.st, reqs) {
      ExplainsFlat(cfg, start.st, reqs, run);
    }
  }

  /** On an image that does not fail, a run of requests that do not go astray is the run of the flat disk. */
  lemma {:induction false} ExplainsFlat(cfg: Config, start: State, reqs: seq<Request>, run: Run)
    requires Explains(cfg, start, reqs, run) && Diligent(cfg, reqs, run) && Proper(cfg, start, reqs)
    ensures !run.torn && !run.lost
    ensures run.rs == Answers(cfg, start, reqs) && run.states[|reqs|] == After(cfg, start, reqs)
    decreases |reqs|
  {
    hide Answer, Next, ReportsFailure, Astray, Holdable;
    if reqs != [] {
      FirstIsAnswered(cfg, start, reqs, run);
      var later := Run(run.rs[1..], run.states[1..], run.torn, run.lost);
      LaterExplains(cfg, start, reqs, run);
      ExplainsFlat(cfg, run.states[1], reqs[1..], later);
      assert run.rs == [run.rs[0]] + later.rs;
    }
  }

  lemma FirstIsAnswered(cfg: Config, start: State, reqs: seq<Request>, run: Run)
    requires Explains(cfg, start, reqs, run) && Diligent(cfg, reqs, run) && Proper(cfg, start, reqs) && reqs != []
    ensures |run.states| >= 2 && run.states[1] == Next(cfg, start, reqs[0])
    ensures run.rs[0] == Answer(cfg, start, reqs[0]) && !FailedWrite(reqs[0], run.rs[0])
  {
    hide Answer, Next, Holdable;
    assert !FailedBefore(reqs, run.rs, 0);
    assert Step(cfg, run.states[0], reqs[0], run.rs[0], run.states[1]);
  }

  /** The rest of a run whose first write has not failed. */
  lemma LaterExplains(cfg: Config, start: State, reqs: seq<Request>, run: Run)
    requires Explains(cfg, start, reqs, run) && Diligent(cfg, reqs, run) && reqs != [] && |run.states| >= 2
    requires !FailedWrite(reqs[0], run.rs[0])
    ensures var later := Run(run.rs[1..], run.states[1..], run.torn, run.lost);
            Explains(cfg, run.states[1], reqs[1..], later) && Diligent(cfg, reqs[1..], later)
  {
    hide Step, ReportsFailure, Astray, Holdable, FailedBefore, FailedWrite;
    forall i: nat | i < |reqs|
      ensures FailedBefore(reqs[1..], run.rs[1..], i) <==> FailedBefore(reqs, run.rs, i + 1)
    {
      FailedLater(reqs, run.rs, i);
    }
    FailedLater(reqs, run.rs, |reqs| - 1);
  }

  lemma FailedLater(reqs: seq<Request>, rs: seq<Response>, i: nat)
    requires |reqs| == |rs| && reqs != [] && !FailedWrite(reqs[0], rs[0])
    ensures FailedBefore(reqs[1..], rs[1..], i) <==> FailedBefore(reqs, rs, i + 1)
  {
    hide FailedWrite;
    if FailedBefore(reqs, rs, i + 1) {
      var t :| 0 <= t < |reqs| && t < i + 1 && FailedWrite(reqs[t], rs[t]);
      assert FailedWrite(reqs[1..][t - 1], rs[1..][t - 1]);
    }
    if FailedBefore(reqs[1..], rs[1..], i) {
      var t :| 0 <= t < |reqs| - 1 && t < i && FailedWrite(reqs[1..][t], rs[1..][t]);
      assert FailedWrite(reqs[t + 1], rs[t + 1]);
    }
  }

  lemma WritesRefused(cfg: Config, reqs: seq<Request>, rs: seq<Response>)
    requires cfg.flags % 2 == 1 && AllFit(cfg, reqs, rs)
    ensures forall i :: 0 <= i < |reqs| && reqs[i].Write? ==> rs[i] == WriteResp(9, 0)
  {
    forall i | 0 <= i < |reqs| && reqs[i].Write?
      ensures rs[i] == WriteResp(9, 0)
    {
      assert Fits(cfg, reqs[i], rs[i]);
    }
  }

  /** On a device whose flag bit 0 is set no run changes the disk. Every write in it is refused, and none fails
      or goes astray. */
  lemma {:induction false} ReadOnlyKeepsDisk(cfg: Config, start: State, reqs: seq<Request>, run: Run, k: nat)
    requires cfg.flags % 2 == 1 && Explains(cfg, start, reqs, run) && AllFit(cfg, reqs, run.rs)
    ensures !run.torn && !run.lost
    ensures forall i :: 0 <= i < |reqs| && reqs[i].Write? ==> run.rs[i] == WriteResp(9, 0)
    ensures k < |run.states| ==> run.states[k].disk == start.disk
    decreases k
  {
    hide Answer, DiskRead, Astray;
    WritesRefused(cfg, reqs, run.rs);
    assert forall i :: 0 <= i < |reqs| ==> !FailedWrite(reqs[i], run.rs[i]);
    if 0 < k < |run.states| {
      ReadOnlyKeepsDisk(cfg, start, reqs, run, k - 1);
      assert Step(cfg, run.states[k - 1], reqs[k - 1], run.rs[k - 1], run.states[k - 1 + 1]);
    }
  }
}
