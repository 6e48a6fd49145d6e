/** The devio request protocol on a byte stream as values: how requests and responses are laid out, and
    what a server over a flat disk answers. */
module Protocol {
  import opened Bytes
  import opened VhdWrite

  const REQ_INFO := 1
  const REQ_READ := 2
  const REQ_WRITE := 3
  const REQ_CLOSE := 5
  const FLAG_RO := 1
  const EBADF := 9
  const ENODEV := 19
  const CODE_SIZE := 8
  /** The buffer never becomes larger: half of the range of size_t. */
  const MAX_TRANSFER: nat := TWO63 - 1
  /** Request code, offset and length. */
  const HEADER_SIZE := 24

  datatype Request =
    | Info
    | Read(offset: nat, length: nat)
    | Write(offset: nat, data: seq<byte>)
    | Other(code: nat)

  datatype Response =
    | InfoResp(fileSize: nat, alignment: nat, flags: nat)
    | ReadResp(errorno: nat, length: nat, data: seq<byte>)
    | WriteResp(errorno: nat, length: nat)
    | Failed(errorno: nat)

  /** devio_info, the mode and the place of the partition in the image. */
  datatype Config = Config(vhd: bool, imageOffset: nat, fileSize: nat, alignment: nat, flags: nat) {
    predicate ReadOnly() {
      flags % 2 == FLAG_RO
    }

    predicate Valid() {
      imageOffset < TWO63 && fileSize < TWO64 && alignment < TWO64 && flags < TWO64
    }
  }

  /** What a request can see and change: the disk and the size of the transfer buffer. */
  datatype State = State(disk: seq<byte>, bufferSize: nat)

  // ---------- the flat disk of either mode ----------

  /** The bytes a read delivers: the buffer is zero where the disk gives nothing. */
  function DiskRead(vhd: bool, disk: seq<byte>, off: nat, len: nat): (r: seq<byte>)
    ensures |r| == len
    ensures forall k :: 0 <= k < len ==>
              r[k] == if off + k < |disk| && (vhd ==> off + len <= |disk|) then disk[off + k] else 0
  {
    if off + len <= |disk| then disk[off..off + len]
    else if vhd || |disk| <= off then Zeros(len)
    else disk[off..] + Zeros(len - (|disk| - off))
  }

  function DiskWrite(vhd: bool, disk: seq<byte>, off: nat, d: seq<byte>): seq<byte> {
    if vhd then FlatWrite(disk, Op(d, off)) else Patch(disk, off, d)
  }

  function DiskWritten(vhd: bool, disk: seq<byte>, off: nat, d: seq<byte>): nat {
    if vhd && off + |d| > |disk| then 0 else |d|
  }

  // ---------- layout on the stream ----------

  function Encode(r: Request): seq<byte> {
    match r
    case Info => Le(REQ_INFO, 8)
    case Read(offset, length) => Le(REQ_READ, 8) + Le(offset, 8) + Le(length, 8)
    case Write(offset, data) => Le(REQ_WRITE, 8) + Le(offset, 8) + Le(|data|, 8) + data
    case Other(code) => Le(code, 8)
  }

  predicate Encodable(r: Request) {
    match r
    case Info => true
    case Read(offset, length) => offset < TWO64 && length < TWO64
    case Write(offset, data) => offset < TWO64 && |data| < TWO64
    case Other(code) => code < TWO64 && code !in {REQ_INFO, REQ_READ, REQ_WRITE, REQ_CLOSE}
  }

  datatype Parsed = Got(req: Request, size: nat) | Stop(rc: int)

  /** The next request on the stream and the bytes it takes, or the value that ends the request loop. A write
      that is larger than the buffer ends it, and so does a stream that ends inside a request. */
  function ParseOne(input: seq<byte>, bufferSize: nat): (p: Parsed)
    ensures p.Got? ==> CODE_SIZE <= p.size <= |input| && Encodable(p.req)
    ensures p.Got? && p.req.Write? ==> |p.req.data| <= bufferSize
  {
    Pow256Values();
    if |input| < CODE_SIZE then Stop(0)
    else
      var code := FromLe(input[..8]);
      FromLeBound(input[..8]);
      if code == REQ_CLOSE then Stop(0)
      else if code == REQ_INFO then Got(Info, CODE_SIZE)
      else if code != REQ_READ && code != REQ_WRITE then Got(Other(code), CODE_SIZE)
      else if |input| < HEADER_SIZE then Stop(1)
      else
        var offset, length := FromLe(input[8..16]), FromLe(input[16..24]);
        FromLeBound(input[8..16]);
        FromLeBound(input[16..24]);
        if code == REQ_READ then Got(Read(offset, length), HEADER_SIZE)
        else if length > bufferSize || |input| < HEADER_SIZE + length then Stop(1)
        else Got(Write(offset, input[24..24 + length]), HEADER_SIZE + length)
  }

  function EncodeResponse(r: Response): seq<byte> {
    match r
    case InfoResp(fileSize, alignment, flags) => Le(fileSize, 8) + Le(alignment, 8) + Le(flags, 8)
    case ReadResp(errorno, length, data) => Le(errorno, 8) + Le(length, 8) + data
    case WriteResp(errorno, length) => Le(errorno, 8) + Le(length, 8)
    case Failed(errorno) => Le(errorno, 8)
  }

  // ---------- answers ----------

  /** A read that is larger than the buffer replaces it. */
  function NextBuffer(bufferSize: nat, req: Request): nat {
    if req.Read? && req.length > bufferSize then Min(req.length, MAX_TRANSFER) else bufferSize
  }

  /** How many bytes of the disk a request reads or writes. */
  function Transfer(bufferSize: nat, req: Request): (size: nat)
    ensures req.Read? ==> size <= req.length && (size == req.length || size == MAX_TRANSFER < req.length)
  {
    match req
    case Read(_, length) => Min(length, NextBuffer(bufferSize, req))
    case Write(_, data) => |data|
    case Info => 0
    case Other(_) => 0
  }

  function Answer(cfg: Config, st: State, req: Request): Response {
    match req
    case Info => InfoResp(cfg.fileSize, cfg.alignment, cfg.flags)
    case Read(offset, _) =>
      var size := Transfer(st.bufferSize, req);
      ReadResp(0, size, DiskRead(cfg.vhd, st.disk, cfg.imageOffset + offset, size))
    case Write(offset, data) =>
      if cfg.ReadOnly() then WriteResp(EBADF, 0)
      else WriteResp(0, DiskWritten(cfg.vhd, st.disk, cfg.imageOffset + offset, data))
    case Other(code) => Failed(ENODEV)
  }

  function Next(cfg: Config, st: State, req: Request): (next: State)
    ensures next.bufferSize == NextBuffer(st.bufferSize, req)
  {
    match req
    case Info => st
    case Read(offset, length) => st.(bufferSize := NextBuffer(st.bufferSize, req))
    case Write(offset, data) =>
      if cfg.ReadOnly() then st else st.(disk := DiskWrite(cfg.vhd, st.disk, cfg.imageOffset + offset, data))
    case Other(code) => st
  }

  datatype Served = Served(out: seq<byte>, final: State, rc: int)

  /** What the request loop does with everything the client sends. */
  function Serve(cfg: Config, st: State, input: seq<byte>): Served
    decreases |input|
  {
    match ParseOne(input, st.bufferSize)
    case Stop(rc) => Served([], st, rc)
    case Got(req, size) =>
      var later := Serve(cfg, Next(cfg, st, req), input[size..]);
      later.(out := EncodeResponse(Answer(cfg, st, req)) + later.out)
  }

  /** The requests that the loop takes off a stream, and the value with which it then ends. Neither depends
      on the disk. */
  function Requests(bufferSize: nat, input: seq<byte>): seq<Request>
    decreases |input|
  {
    match ParseOne(input, bufferSize)
    case Stop(_) => []
    case Got(req, size) => [req] + Requests(NextBuffer(bufferSize, req), input[size..])
  }

  function EndCode(bufferSize: nat, input: seq<byte>): int
    decreases |input|
  {
    match ParseOne(input, bufferSize)
    case Stop(rc) => rc
    case Got(req, size) => EndCode(NextBuffer(bufferSize, req), input[size..])
  }

  lemma RequestsUnfold(bufferSize: nat, input: seq<byte>)
    ensures var p := ParseOne(input, bufferSize);
            if p.Stop? then Requests(bufferSize, input) == [] && EndCode(bufferSize, input) == p.rc
            else
              && Requests(bufferSize, input) == [p.req] + Requests(NextBuffer(bufferSize, p.req), input[p.size..])
              && EndCode(bufferSize, input) == EndCode(NextBuffer(bufferSize, p.req), input[p.size..])
  {
    hide ParseOne, NextBuffer;
  }

  // ---------- whole sessions ----------

  function EncodeAll(reqs: seq<Request>): seq<byte> {
    if reqs == [] then [] else Encode(reqs[0]) + EncodeAll(reqs[1..])
  }

  function Answers(cfg: Config, st: State, reqs: seq<Request>): (r: seq<Response>)
    ensures |r| == |reqs|
    decreases |reqs|
  {
    if reqs == [] then [] else [Answer(cfg, st, reqs[0])] + Answers(cfg, Next(cfg, st, reqs[0]), reqs[1..])
  }

  function After(cfg: Config, st: State, reqs: seq<Request>): State
    decreases |reqs|
  {
    if reqs == [] then st else After(cfg, Next(cfg, st, reqs[0]), reqs[1..])
  }

  function EncodeResponses(rs: seq<Response>): seq<byte> {
    if rs == [] then [] else EncodeResponse(rs[0]) + EncodeResponses(rs[1..])
  }

  lemma {:induction false} ServeIs(cfg: Config, st: State, input: seq<byte>)
    ensures var reqs := Requests(st.bufferSize, input);
            Serve(cfg, st, input) ==
            Served(EncodeResponses(Answers(cfg, st, reqs)), After(cfg, st, reqs), EndCode(st.bufferSize, input))
    decreases |input|
  {
    hide ParseOne, EncodeResponse, Answer, Next, NextBuffer;
    var p := ParseOne(input, st.bufferSize);
    if p.Got? {
      ServeIs(cfg, Next(cfg, st, p.req), input[p.size..]);
      var reqs := Requests(st.bufferSize, input);
      assert reqs[1..] == Requests(Next(cfg, st, p.req).bufferSize, input[p.size..]);
      assert Answers(cfg, st, reqs)[1..] == Answers(cfg, Next(cfg, st, p.req), reqs[1..]);
    }
  }

  /** Every request can be sent and every write fits the buffer that the reads before it left. */
  predicate Acceptable(cfg: Config, st: State, reqs: seq<Request>)
    decreases |reqs|
  {
    reqs == [] || (&& Encodable(reqs[0])
                   && (reqs[0].Write? ==> |reqs[0].data| <= st.bufferSize)
                   && Acceptable(cfg, Next(cfg, st, reqs[0]), reqs[1..]))
  }

  lemma FieldsAt(x: seq<byte>, y: seq<byte>, z: seq<byte>, rest: seq<byte>)
    requires |x| == |y| == |z| == 8
    ensures var input := x + y + z + rest;
            input[..8] == x && input[8..16] == y && input[16..24] == z && input[24..] == rest
  {
  }

  lemma LeBack(v: nat)
    requires v < TWO64
    ensures FromLe(Le(v, 8)) == v
  {
    hide Le, FromLe;
    Pow256Values();
    FromLeOfLe(v, 8);
  }

  lemma LeAt(v: nat, rest: seq<byte>)
    requires v < TWO64
    ensures FromLe((Le(v, 8) + rest)[..8]) == v && (Le(v, 8) + rest)[8..] == rest
  {
    LeBack(v);
    assert (Le(v, 8) + rest)[..8] == Le(v, 8);
  }

  /** The server takes exactly the bytes of a request off the stream, whatever follows them. */
  lemma ParseEncoded(r: Request, rest: seq<byte>, bufferSize: nat)
    requires Encodable(r) && (r.Write? ==> |r.data| <= bufferSize)
    ensures ParseOne(Encode(r) + rest, bufferSize) == Got(r, |Encode(r)|)
    ensures (Encode(r) + rest)[|Encode(r)|..] == rest
  {
    hide Le, FromLe;
    var input := Encode(r) + rest;
    match r
    case Info => LeAt(REQ_INFO, rest);
    case Other(code) => LeAt(code, rest);
    case Read(offset, length) =>
      ParseHeader(REQ_READ, offset, length, rest, input);
    case Write(offset, data) =>
      ParseHeader(REQ_WRITE, offset, |data|, data + rest, input);
  }

  lemma ParseHeader(code: nat, offset: nat, length: nat, rest: seq<byte>, input: seq<byte>)
    requires code < TWO64 && offset < TWO64 && length < TWO64
    requires input == Le(code, 8) + Le(offset, 8) + Le(length, 8) + rest
    ensures FromLe(input[..8]) == code && FromLe(input[8..16]) == offset && FromLe(input[16..24]) == length
    ensures input[24..] == rest
  {
    hide Le, FromLe;
    FieldsAt(Le(code, 8), Le(offset, 8), Le(length, 8), rest);
    LeBack(code);
    LeBack(offset);
    LeBack(length);
  }

  /** A session of any length: one answer per request, in order, until the stream goes on with something that
      ends the loop. */
  lemma {:induction false} ServeSession(cfg: Config, st: State, reqs: seq<Request>, rest: seq<byte>)
    requires Acceptable(cfg, st, reqs) && ParseOne(rest, After(cfg, st, reqs).bufferSize).Stop?
    ensures Serve(cfg, st, EncodeAll(reqs) + rest) ==
            Served(EncodeResponses(Answers(cfg, st, reqs)), After(cfg, st, reqs),
                   ParseOne(rest, After(cfg, st, reqs).bufferSize).rc)
    decreases |reqs|
  {
    hide Le, FromLe, ParseOne, Encode, EncodeResponse, Answer, Next, Encodable;
    var input := EncodeAll(reqs) + rest;
    if reqs == [] {
      assert input == rest;
    } else {
      var r := reqs[0];
      var later := EncodeAll(reqs[1..]) + rest;
      assert input == Encode(r) + later;
      ParseEncoded(r, later, st.bufferSize);
      ServeSession(cfg, Next(cfg, st, r), reqs[1..], rest);
      assert Answers(cfg, st, reqs)[1..] == Answers(cfg, Next(cfg, st, r), reqs[1..]);
    }
  }

  // ---------- the client's view of the responses ----------

  /** How many bytes the client takes off its stream for the response to `req`: a response to a read is
      followed by as many bytes as its length field says, unless it reports an error. */
  function ResponseSize(req: Request, input: seq<byte>): nat {
    match req
    case Info => 24
    case Read(_, _) =>
      if |input| < 16 then 16 else 16 + if FromLe(input[..8]) == 0 then FromLe(input[8..16]) else 0
    case Write(_, _) => 16
    case Other(_) => 8
  }

  /** The client that knows its own requests cuts the server's output into exactly the responses. */
  function Cut(reqs: seq<Request>, input: seq<byte>): seq<seq<byte>> {
    if reqs == [] then []
    else
      var n := Min(ResponseSize(reqs[0], input), |input|);
      [input[..n]] + Cut(reqs[1..], input[n..])
  }

  function EncodeEach(rs: seq<Response>): seq<seq<byte>> {
    if rs == [] then [] else [EncodeResponse(rs[0])] + EncodeEach(rs[1..])
  }

  /** The response to a request whose physical I/O has failed: an error number, and the length 0 or -1. */
  predicate ReportsFailure(resp: Response) {
    || (resp.ReadResp? && 0 < resp.errorno < TWO31 && resp.length == 0 && resp.data == [])
    || (resp.WriteResp? && 0 < resp.errorno < TWO31 && resp.length == TWO64 - 1)
  }

  /** The response has the form that the client expects of the request. A write is refused exactly when bit 0
      of the flags is set. */
  predicate Fits(cfg: Config, req: Request, resp: Response) {
    match req
    case Info => resp == InfoResp(cfg.fileSize, cfg.alignment, cfg.flags)
    case Read(_, length) =>
      && resp.ReadResp?
      && (|| ReportsFailure(resp)
          || (&& resp.errorno == 0 && resp.length == |resp.data|
              && (resp.length == length || resp.length == MAX_TRANSFER < length)))
    case Write(_, data) =>
      if cfg.flags % 2 == 1 then resp == WriteResp(9, 0)
      else resp.WriteResp? && (ReportsFailure(resp) || (resp.errorno == 0 && resp.length in {0, |data|}))
    case Other(_) => resp == Failed(19)
  }

  predicate AllFit(cfg: Config, reqs: seq<Request>, rs: seq<Response>) {
    hide Fits;
    |rs| == |reqs| && forall i :: 0 <= i < |rs| ==> Fits(cfg, reqs[i], rs[i])
  }

  lemma {:induction false} AnswersFit(cfg: Config, st: State, reqs: seq<Request>)
    ensures AllFit(cfg, reqs, Answers(cfg, st, reqs))
    decreases |reqs|
  {
    hide Next, DiskRead, DiskWritten;
    if reqs != [] {
      AnswersFit(cfg, Next(cfg, st, reqs[0]), reqs[1..]);
      forall i | 0 <= i < |reqs|
        ensures Fits(cfg, reqs[i], Answers(cfg, st, reqs)[i])
      {
        if i == 0 {
          assert Answers(cfg, st, reqs)[0] == Answer(cfg, st, reqs[0]);
          AnswerFits(cfg, st, reqs[0]);
        } else {
          assert Fits(cfg, reqs[1..][i - 1], Answers(cfg, Next(cfg, st, reqs[0]), reqs[1..])[i - 1]);
        }
      }
    }
  }

  lemma AnswerFits(cfg: Config, st: State, req: Request)
    ensures Fits(cfg, req, Answer(cfg, st, req)) && !ReportsFailure(Answer(cfg, st, req))
  {
  }

  lemma TwoFieldsAt(x: seq<byte>, y: seq<byte>, data: seq<byte>, rest: seq<byte>)
    requires |x| == |y| == 8
    ensures var input := x + y + data + rest;
            input[..8] == x && input[8..16] == y
  {
  }

  lemma ResponseLength(cfg: Config, req: Request, resp: Response, rest: seq<byte>)
    requires Encodable(req) && Fits(cfg, req, resp)
    ensures ResponseSize(req, EncodeResponse(resp) + rest) == |EncodeResponse(resp)|
  {
    hide Le, FromLe;
    if req.Read? {
      TwoFieldsAt(Le(resp.errorno, 8), Le(resp.length, 8), resp.data, rest);
      LeBack(resp.errorno);
      LeBack(resp.length);
    }
  }

  /** Whatever the responses say, the client finds exactly one for each of its requests. */
  lemma {:induction false} ResponsesAreFramed(cfg: Config, reqs: seq<Request>, rs: seq<Response>)
    requires AllFit(cfg, reqs, rs) && forall r :: r in reqs ==> Encodable(r)
    ensures Cut(reqs, EncodeResponses(rs)) == EncodeEach(rs)
    decreases |reqs|
  {
    hide Le, FromLe, Encode, EncodeResponse, Encodable, ResponseSize, Fits;
    if reqs != [] {
      var first := EncodeResponse(rs[0]);
      ResponseLength(cfg, reqs[0], rs[0], EncodeResponses(rs[1..]));
      assert (first + EncodeResponses(rs[1..]))[..|first|] == first;
      assert (first + EncodeResponses(rs[1..]))[|first|..] == EncodeResponses(rs[1..]);
      ResponsesAreFramed(cfg, reqs[1..], rs[1..]);
    }
  }

  lemma {:induction false} EncodeMore(rs: seq<Response>, r: Response)
    ensures EncodeResponses(rs + [r]) == EncodeResponses(rs) + EncodeResponse(r)
  {
    hide EncodeResponse;
    if rs == [] {
      assert [r][1..] == [] && rs + [r] == [r];
      assert EncodeResponse(r) + [] == EncodeResponse(r);
    } else {
      assert (rs + [r])[1..] == rs[1..] + [r];
      EncodeMore(rs[1..], r);
    }
  }

  lemma {:induction false} RequestsEncodable(bufferSize: nat, input: seq<byte>)
    ensures forall r :: r in Requests(bufferSize, input) ==> Encodable(r)
    decreases |input|
  {
    hide Encodable;
    var p := ParseOne(input, bufferSize);
    if p.Got? {
      RequestsEncodable(NextBuffer(bufferSize, p.req), input[p.size..]);
    }
  }

  /** After a write that reports its full length, a read sees the data where it was put and the old disk
      elsewhere. */
  lemma ReadAfterWrite(cfg: Config, st: State, w: Request, r: Request)
    requires w.Write? && r.Read? && Answer(cfg, st, w) == WriteResp(0, |w.data|)
    requires cfg.vhd ==> cfg.imageOffset + r.offset + r.length <= |st.disk|
    ensures Answer(cfg, Next(cfg, st, w), r).ReadResp? && Answer(cfg, st, r).ReadResp?
    ensures var got, was := Answer(cfg, Next(cfg, st, w), r).data, Answer(cfg, st, r).data;
            |got| == |was| == Transfer(st.bufferSize, r) &&
            forall k :: 0 <= k < |got| ==>
              got[k] == if w.offset <= r.offset + k < w.offset + |w.data| then w.data[r.offset + k - w.offset]
                        else was[k]
  {
  }
}
