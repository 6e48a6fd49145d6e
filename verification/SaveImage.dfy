/** ImDiskSaveImageFile of cpl/drvio.c: the loop that copies a device to an image file. */
module SaveImage {
  import opened Bytes

  /** A read of so many bytes at a position of the device. */
  datatype Request = Request(position: nat, size: nat)

  /** The device that is read from its current position on, with its "image modified" flag. */
  class Device {
    const content: seq<byte>
    var position: nat
    var modified: bool
    /** How often the device has answered a request for bytes with none, and how often it has failed. */
    ghost var ends: nat
    ghost var failures: nat
    ghost var requests: seq<Request>

    constructor (content: seq<byte>, modified: bool)
      ensures this.content == content && position == 0 && this.modified == modified
      ensures ends == failures == 0 && requests == []
    {
      this.content, position, this.modified, ends, failures, requests := content, 0, modified, 0, 0, [];
    }

    /** ReadFile: any number of the next bytes, none included. */
    method Read(size: nat) returns (ok: bool, data: seq<byte>)
      requires position <= |content|
      modifies this`position, this`ends, this`failures, this`requests
      ensures position == old(position) + |data| <= |content| && |data| <= size
      ensures data == content[old(position)..position]
      ensures ends == old(ends) + if ok && size > 0 && data == [] then 1 else 0
      ensures failures == old(failures) + if ok then 0 else 1
      ensures requests == old(requests) + [Request(old(position), size)]
    {
      requests := requests + [Request(position, size)];
      if * {
        failures := failures + 1;
        return false, [];
      }
      var count: nat :| count <= size && count <= |content| - position;
      ok, data := true, content[position..position + count];
      position := position + count;
      if size > 0 && count == 0 {
        ends := ends + 1;
      }
    }
  }

  class Target {
    var written: seq<byte>
    /** How many writes have failed or come back short. */
    ghost var troubles: nat

    constructor ()
      ensures written == [] && troubles == 0
    {
      written, troubles := [], 0;
    }

    /** WriteFile: any number of the bytes. */
    method Write(data: seq<byte>) returns (ok: bool, count: nat)
      modifies this
      ensures count <= |data| && written == old(written) + data[..count]
      ensures troubles == old(troubles) + if ok && count == |data| then 0 else 1
    {
      if * {
        troubles := troubles + 1;
        return false, 0;
      }
      count :| count <= |data|;
      ok, written := true, written + data[..count];
      if count < |data| {
        troubles := troubles + 1;
      }
    }
  }

  /** The caller's flag, if there is one, which may be set at any time. */
  class CancelFlag {
    const given: bool
    /** How often it was found set, and how often not. */
    ghost var seen: nat
    ghost var clear: nat

    constructor (given: bool)
      ensures this.given == given && seen == clear == 0
    {
      this.given, seen, clear := given, 0, 0;
    }

    method IsSet() returns (raised: bool)
      modifies this
      ensures seen == old(seen) + if raised then 1 else 0
      ensures clear == old(clear) + if raised then 0 else 1
      ensures raised ==> given
    {
      raised := *;
      if given && raised {
        seen := seen + 1;
      } else {
        raised, clear := false, clear + 1;
      }
    }
  }

  const DEFAULT_BUFFER := 0x8_0000

  /** Every request from number `first` on is for a whole buffer or for what is left of a copy from `start`. */
  predicate Sized(requests: seq<Request>, first: nat, start: nat, buffer: nat, diskSize: nat) {
    forall k :: first <= k < |requests| ==>
      requests[k].size == Min(buffer, diskSize - (requests[k].position - start))
  }

  lemma SizedMore(requests: seq<Request>, first: nat, start: nat, buffer: nat, diskSize: nat, r: Request)
    requires Sized(requests, first, start, buffer, diskSize)
    requires r.size == Min(buffer, diskSize - (r.position - start))
    ensures Sized(requests + [r], first, start, buffer, diskSize)
  {
  }

  lemma NothingSized(requests: seq<Request>, start: nat, buffer: nat, diskSize: nat)
    ensures Sized(requests, |requests|, start, buffer, diskSize)
  {
  }

  /** `after` is `before` with so many bytes of the device behind it. */
  predicate Copied(before: seq<byte>, after: seq<byte>, content: seq<byte>, start: nat, count: nat) {
    start + count <= |content| && after == before + content[start..start + count]
  }

  lemma NothingCopied(file: seq<byte>, content: seq<byte>, start: nat)
    requires start <= |content|
    ensures Copied(file, file, content, start, 0)
  {
    assert content[start..start] == [];
  }

  lemma CopyJoin(content: seq<byte>, i: nat, j: nat, k: nat)
    requires i <= j <= k <= |content|
    ensures content[i..j] + content[j..k] == content[i..k]
  {
  }

  /** The bytes that one write adds continue those that were copied before. */
  lemma CopiedMore(before: seq<byte>, after: seq<byte>, content: seq<byte>, start: nat, count: nat,
                   buffer: seq<byte>, more: nat)
    requires Copied(before, after, content, start, count) && more <= |buffer|
    requires start + count + |buffer| <= |content|
    requires buffer == content[start + count..start + count + |buffer|]
    ensures Copied(before, after + buffer[..more], content, start, count + more)
  {
    var from := start + count;
    assert buffer[..more] == content[from..from + more];
    CopyJoin(content, start, from, from + more);
    calc {
      after + buffer[..more];
      before + content[start..from] + content[from..from + more];
      before + (content[start..from] + content[from..from + more]);
      before + content[start..from + more];
    }
  }

  /** The copy. `saved` bytes of the device have reached the file, in order and without a gap. It succeeds if
      and only if no read and no write fails, no write comes back short and the flag is not found set. Success
      means that every byte read was written and that the copy is complete, unless the device answered a
      request for the rest with no bytes; only then is the "modified" flag cleared. Every request is for a
      whole buffer or for what is left, and the flag is found clear just as often as there are requests. */
  method ImDiskSaveImageFile(device: Device, file: Target, cancel: CancelFlag, diskSize: nat, bufferSize0: nat)
    returns (ok: bool, ghost saved: nat)
    requires device.position <= |device.content|
    modifies device, file, cancel
    ensures saved <= diskSize && old(device.position) + saved <= device.position <= |device.content|
    ensures Copied(old(file.written), file.written, device.content, old(device.position), saved)
    ensures ok <==> device.failures == old(device.failures) && file.troubles == old(file.troubles)
                    && cancel.seen == old(cancel.seen)
    ensures ok ==> device.position == old(device.position) + saved
    ensures ok ==> (saved == diskSize <==> device.ends == old(device.ends))
    ensures device.modified == (old(device.modified) && !(ok && diskSize > 0))
    ensures old(device.requests) <= device.requests
    ensures cancel.clear - old(cancel.clear) == |device.requests| - |old(device.requests)|
    ensures Sized(device.requests, |old(device.requests)|, old(device.position),
                  if bufferSize0 == 0 then 0x8_0000 else bufferSize0, diskSize)
  {
    hide Sized, Copied;
    ghost var start, first := old(device.position), |old(device.requests)|;
    NothingSized(device.requests, start, if bufferSize0 == 0 then 0x8_0000 else bufferSize0, diskSize);
    saved := 0;
    NothingCopied(file.written, device.content, start);
    if diskSize == 0 {
      return true, saved;
    }
    var bufferSize: nat := if bufferSize0 == 0 then DEFAULT_BUFFER else bufferSize0;
    ghost var whole := bufferSize;
    var savedSize: nat := 0;
    while true
      invariant savedSize == saved <= diskSize
      invariant Min(whole, diskSize - saved) <= bufferSize <= whole && whole > 0
      invariant device.position == old(device.position) + saved <= |device.content|
      invariant Copied(old(file.written), file.written, device.content, start, saved)
      invariant device.modified == old(device.modified) && device.ends == old(device.ends)
      invariant device.failures == old(device.failures) && file.troubles == old(file.troubles)
      invariant cancel.seen == old(cancel.seen)
      invariant old(device.requests) <= device.requests
      invariant cancel.clear - old(cancel.clear) == |device.requests| - first
      invariant Sized(device.requests, first, start, whole, diskSize)
      decreases diskSize - savedSize
    {
      var raised := cancel.IsSet();
      if raised {
        return false, saved;
      }
      if diskSize - savedSize < bufferSize {
        bufferSize := diskSize - savedSize;
      }
      SizedMore(device.requests, first, start, whole, diskSize, Request(device.position, bufferSize));
      var read, buffer := device.Read(bufferSize);
      if !read {
        return false, saved;
      }
      if buffer == [] {
        break;
      }
      ghost var before := file.written;
      var written, writeSize := file.Write(buffer);
      CopiedMore(old(file.written), before, device.content, start, saved, buffer, writeSize);
      saved := saved + writeSize;
      if !written {
        return false, saved;
      }
      savedSize := savedSize + writeSize;
      if writeSize != |buffer| {
        return false, saved;
      }
    }
    device.modified := false;
    ok := true;
  }
}
