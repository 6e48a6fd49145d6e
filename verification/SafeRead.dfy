/** ImDiskSafeReadFile of sys/commonio.cpp: a read that retries with smaller requests. */
module SafeRead {
  import opened Bytes

  datatype Status =
    | Success
    | InsufficientResources
    | InvalidBufferSize
    | InvalidParameter
    | ConnectionReset
    | OtherError

  predicate Rejected(status: Status) {
    status in {InsufficientResources, InvalidBufferSize, InvalidParameter}
  }

  const LARGEST: int := 8 * 0x10_0000
  /** Requests smaller than this are not made smaller still. */
  const SMALLEST_RETRY: int := 2048

  /** What the system was asked for and what it answered. */
  datatype Event =
    | Allocated(size: nat, ok: bool)
    | Asked(offset: nat, length: nat, status: Status, information: nat)

  /** An open file. Which calls fail, are rejected or come back short is up to the driver below. */
  class File {
    const content: seq<byte>
    ghost var log: seq<Event>

    constructor (content: seq<byte>)
      ensures this.content == content && log == []
    {
      this.content, log := content, [];
    }

    method ZwReadFile(buffer: array<byte>, length: nat, offset: nat) returns (status: Status, information: nat)
      requires length <= buffer.Length
      modifies buffer, this`log
      ensures status == Success ==>
                information <= length && (information > 0 ==> offset + information <= |content|)
                && forall k :: 0 <= k < information ==> buffer[k] == content[offset + k]
      ensures log == old(log) + [Asked(offset, length, status, information)]
    {
      if * {
        status, information := Success, 0;
        var most := Max(0, Min(length, |content| - offset));
        information :| 0 <= information <= most;
        forall k | 0 <= k < information {
          buffer[k] := content[offset + k];
        }
      } else {
        status :| status != Success;
        information := 0;
      }
      log := log + [Asked(offset, length, status, information)];
    }

    /** ExAllocatePoolWithTag */
    method Allocate(size: nat) returns (buffer: array?<byte>)
      modifies this`log
      ensures buffer != null ==> fresh(buffer) && buffer.Length == size
      ensures log == old(log) + [Allocated(size, buffer != null)]
    {
      if * {
        buffer := null;
      } else {
        buffer := new byte[size];
      }
      log := log + [Allocated(size, buffer != null)];
    }
  }

  // ---------- what ends a call ----------

  /** The request was rejected for its size and is large enough to be tried again with less. */
  predicate Retried(e: Event) {
    e.Asked? && e.length >= 2048 && e.status in {InsufficientResources, InvalidBufferSize, InvalidParameter}
  }

  /** No memory, no bytes, or a failure that smaller requests do not cure. */
  predicate Fatal(e: Event) {
    match e
    case Allocated(_, ok) => !ok
    case Asked(_, _, status, information) => !Retried(e) && (status != Success || information == 0)
  }

  /** The status that a fatal event ends the call with. */
  function Verdict(e: Event): Status
    requires Fatal(e)
  {
    match e
    case Allocated(_, _) => InsufficientResources
    case Asked(_, _, status, _) => if status == Success then ConnectionReset else status
  }

  predicate Quiet(log: seq<Event>, from: nat) {
    forall k :: from <= k < |log| ==> !Fatal(log[k])
  }

  /** All was quiet from `from` on but for the last event. */
  predicate EndedBadly(log: seq<Event>, from: nat) {
    from < |log| && Fatal(log[|log| - 1]) && forall k :: from <= k < |log| - 1 ==> !Fatal(log[k])
  }

  /** What follows an event in a read that ends at `end`: a request for the buffer just allocated, a buffer of
      a quarter of a rejected request, or a request of the same size, or what is left, behind a transfer. */
  predicate Follows(e: Event, next: Event, end: nat) {
    match e
    case Allocated(size, _) => next.Asked? && next.length == size
    case Asked(offset, length, _, information) =>
      if Retried(e) then next.Allocated? && next.size == length / 4
      else
        && next.Asked? && next.offset == offset + information <= end
        && next.length == Min(length, end - next.offset)
  }

  /** A request behind a transfer, for no more than what is left. */
  lemma GoesOn(e: Event, next: Event, end: nat)
    requires e.Asked? && e.status == Success && next.Asked? && next.offset == e.offset + e.information <= end
    requires next.length == Min(e.length, end - next.offset)
    ensures Follows(e, next, end)
  {
  }

  predicate Traced(log: seq<Event>, from: nat, end: nat) {
    forall k :: from <= k < |log| - 1 ==> Follows(log[k], log[k + 1], end)
  }

  lemma TracedJoin(log: seq<Event>, mid: nat, from: nat, end: nat)
    requires from <= mid < |log| && Traced(log[..mid], from, end) && Traced(log, mid, end)
    requires from < mid ==> Follows(log[mid - 1], log[mid], end)
    ensures Traced(log, from, end)
  {
    hide Follows;
    forall k | from <= k < |log| - 1
      ensures Follows(log[k], log[k + 1], end)
    {
      if k < mid - 1 {
        assert log[..mid][k] == log[k] && log[..mid][k + 1] == log[k + 1];
      }
    }
  }

  /** The inner loop: one successful transfer of at most `request0` bytes, or the reason there is none. The
      request shrinks to a quarter each time it is rejected, and the buffer is always at least as large. */
  method ReadSome(file: File, offset: nat, request0: nat, buffer0: array?<byte>, ghost end: nat)
    returns (status: Status, information: nat, request: nat, buffer: array?<byte>, exhausted: bool)
    requires 0 < request0 && (buffer0 != null ==> request0 <= buffer0.Length)
    modifies if buffer0 == null then {} else {buffer0}
    modifies file`log
    ensures 0 < request <= request0 && (buffer != null ==> request <= buffer.Length)
    ensures buffer == null || buffer == buffer0 || fresh(buffer)
    ensures exhausted ==> status == InsufficientResources && information == 0
    ensures !exhausted ==> buffer != null
    ensures status == Success ==> !exhausted && information <= request
                                  && (information > 0 ==> offset + information <= |file.content|)
                                  && buffer[..information] == file.content[Min(offset, |file.content|)..][..information]
    ensures old(file.log) <= file.log && |old(file.log)| < |file.log| && Traced(file.log, |old(file.log)|, end)
    ensures if status == Success && information > 0 then Quiet(file.log, |old(file.log)|)
            else EndedBadly(file.log, |old(file.log)|)
                 && Verdict(file.log[|file.log| - 1]) == (if status == Success then ConnectionReset else status)
    ensures var first, last := file.log[|old(file.log)|], file.log[|file.log| - 1];
            && (if buffer0 == null then first.Allocated? && first.size == request0
                else first.Asked? && first.offset == offset && first.length == request0)
            && (exhausted <==> last.Allocated?)
            && (last.Asked? ==> last == Asked(offset, request, status, information))
  {
    request, buffer, exhausted := request0, buffer0, false;
    while true
      invariant 0 < request <= request0 && (buffer != null ==> request <= buffer.Length)
      invariant buffer == null || buffer == buffer0 || fresh(buffer)
      invariant old(file.log) <= file.log && Quiet(file.log, |old(file.log)|)
      invariant Traced(file.log, |old(file.log)|, end)
      invariant |file.log| == |old(file.log)| ==> request == request0 && buffer == buffer0
      invariant |file.log| > |old(file.log)| ==>
                  var first, last := file.log[|old(file.log)|], file.log[|file.log| - 1];
                  && buffer == null && Retried(last) && request == last.length / 4
                  && (if buffer0 == null then first.Allocated? && first.size == request0
                      else first.Asked? && first.offset == offset && first.length == request0)
      decreases request
    {
      if buffer == null {
        buffer := file.Allocate(request);
        if buffer == null {
          return InsufficientResources, 0, request, null, true;
        }
      }
      status, information := file.ZwReadFile(buffer, request, offset);
      if Rejected(status) && request >= SMALLEST_RETRY {
        buffer := null;
        request := request / 4;
        continue;
      }
      return;
    }
  }

  /** RtlCopyMemory */
  method CopyMemory(buffer: array<byte>, at: nat, from: array<byte>, size: nat)
    requires buffer != from && at + size <= buffer.Length && size <= from.Length
    modifies buffer
    ensures forall k :: 0 <= k < buffer.Length ==>
                          buffer[k] == if at <= k < at + size then from[k - at] else old(buffer[k])
  {
    forall k | 0 <= k < size {
      buffer[at + k] := from[k];
    }
  }

  /** ImDiskSafeReadFile. `done` counts the bytes that have reached the caller's buffer: they are the file
      from `offset` on and nothing else in the buffer has changed. The call succeeds, with all of them, if and
      only if nothing fatal has happened in it, however short the transfers were; otherwise it ends at once. */
  method ImDiskSafeReadFile(file: File, buffer: array<byte>, length: nat, offset: nat)
    returns (status: Status, information: nat, ghost done: nat)
    requires length <= buffer.Length
    modifies buffer, file`log
    ensures done <= length && (done > 0 ==> offset + done <= |file.content|)
    ensures forall k :: 0 <= k < buffer.Length ==>
                          buffer[k] == if k < done then file.content[offset + k] else old(buffer[k])
    ensures status == Success <==> done == length
    ensures old(file.log) <= file.log && Traced(file.log, |old(file.log)|, offset + length)
    ensures status == Success <==> Quiet(file.log, |old(file.log)|)
    ensures status != Success ==>
              EndedBadly(file.log, |old(file.log)|) && status == Verdict(file.log[|file.log| - 1])
    ensures information == if status != Success && file.log[|file.log| - 1].Allocated? then 0 else done
    ensures length > 0 ==>
              && |file.log| > |old(file.log)| && file.log[|old(file.log)|].Allocated?
              && file.log[|old(file.log)|].size == Min(length, 0x80_0000)
  {
    hide Follows, Verdict, Fatal;
    var lengthDone: nat := 0;
    var requestLength: nat := if length > LARGEST then LARGEST else length;
    var intermediate: array?<byte> := null;
    done, status := 0, Success;
    while lengthDone < length
      invariant lengthDone == done <= length && status == Success
      invariant done > 0 ==> offset + done <= |file.content|
      invariant done < length ==> 0 < requestLength <= LARGEST
      invariant intermediate != null ==> requestLength <= intermediate.Length && fresh(intermediate)
      invariant forall k :: 0 <= k < buffer.Length ==>
                              buffer[k] == if k < done then file.content[offset + k] else old(buffer[k])
      invariant old(file.log) <= file.log && Quiet(file.log, |old(file.log)|)
      invariant Traced(file.log, |old(file.log)|, offset + length)
      invariant |file.log| == |old(file.log)| ==>
                  done == 0 && intermediate == null && requestLength == Min(length, 0x80_0000)
      invariant |file.log| > |old(file.log)| ==>
                  && file.log[|old(file.log)|].Allocated? && file.log[|old(file.log)|].size == Min(length, 0x80_0000)
                  && var last := file.log[|file.log| - 1];
                     last.Asked? && last.status == Success && intermediate != null && last.length == requestLength
                     && last.offset + last.information == offset + done
    {
      if length - lengthDone < requestLength {
        requestLength := length - lengthDone;
      }
      ghost var before := file.log;
      var exhausted;
      status, information, requestLength, intermediate, exhausted :=
        ReadSome(file, offset + lengthDone, requestLength, intermediate, offset + length);
      assert file.log[..|before|] == before;
      if |before| > |old(file.log)| {
        GoesOn(before[|before| - 1], file.log[|before|], offset + length);
      }
      TracedJoin(file.log, |before|, |old(file.log)|, offset + length);
      if exhausted {
        return;
      }
      if status != Success {
        return status, lengthDone, done;
      }
      if information == 0 {
        return ConnectionReset, lengthDone, done;
      }
      ghost var part := intermediate[..information];
      CopyMemory(buffer, lengthDone, intermediate, information);
      assert forall k :: 0 <= k < information ==> part[k] == file.content[offset + done + k];
      lengthDone := lengthDone + information;
      done := lengthDone;
    }
    information := lengthDone;
  }
}
