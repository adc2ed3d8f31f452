/** A connected client's record, `struct client_info` (main.c:121-128):
    its socket, the request buffer of MAX_REQUEST_SIZE + 1 bytes and the
    count of bytes received so far. The handlers `handleGET` and
    `handlePOST` run on the buffer in place; what one readiness of the
    client's socket does to the buffer (main.c:462-488) is `StepEffect`. */
module Clients {
  import opened CStrings
  import opened Outcomes
  import opened GetRequests
  import opened PostRequests

  /** MAX_REQUEST_SIZE: 50 KiB. */
  const MaxRequestSize := 1024 * 50
  /** The request buffer holds one more byte, for the terminating NUL. */
  const BufferSize := MaxRequestSize + 1
  /** `strncmp("POST /", request, 5)` compares only these five bytes. */
  const PostPrefix := "POST "

  /** A request buffer with `received` bytes in it: the buffer was zeroed by
      `calloc` and every append ends with a NUL, so every byte from
      `received` on is NUL. */
  predicate Consistent(buf: seq<char>, received: nat)
  {
    |buf| == BufferSize && received <= MaxRequestSize &&
    forall j :: received <= j < |buf| ==> buf[j] == NUL
  }

  /** `recv` writes `chunk` at `request + received`, and the byte after it
      is set to NUL. */
  function Appended(buf: seq<char>, received: nat, chunk: seq<char>): (a: seq<char>)
    requires received + |chunk| < |buf|
    ensures |a| == |buf|
  {
    buf[..received] + chunk + [NUL] + buf[received + |chunk| + 1..]
  }

  /** Receiving a request in two pieces leaves the buffer as receiving it
      in one piece does. */
  lemma AppendTwice(buf: seq<char>, received: nat, x: seq<char>, y: seq<char>)
    requires received + |x| + |y| < |buf|
    ensures Appended(Appended(buf, received, x), received + |x|, y) == Appended(buf, received, x + y)
  {
    var once := Appended(buf, received, x);
    var twice := Appended(once, received + |x|, y);
    var whole := Appended(buf, received, x + y);
    forall j | 0 <= j < |buf| ensures twice[j] == whole[j] {
      if j < received {
        assert twice[j] == once[j] == buf[j];
      } else if j < received + |x| {
        assert twice[j] == once[j] == x[j - received];
      }
    }
  }

  /** What a readiness of the client's socket leads to: the outcome, the
      buffer left behind and the new received count. */
  datatype Stepped = Stepped(outcome: Outcome, after: seq<char>, received: nat)

  /** One pass of main's loop over a ready client (main.c:462-488). A full
      buffer is answered 400 without reading; otherwise `chunk` is what
      `recv` returned (empty when it returned less than 1). The received
      bytes are appended, and the request goes to `handlePOST` when its first
      five bytes are "POST ", to `handleGET` otherwise. */
  function StepEffect(buf: seq<char>, received: nat, chunk: seq<char>, spawns: bool): (s: Stepped)
    requires Consistent(buf, received) && |chunk| <= MaxRequestSize - received
    ensures |s.after| == BufferSize
  {
    if received == MaxRequestSize then Stepped(BadRequest, buf, received)
    else if |chunk| == 0 then Stepped(Disconnected, buf, received)
    else
      var a := Appended(buf, received, chunk);
      var h := if a[..5] == PostPrefix then PostEffect(a) else GetEffect(a, spawns);
      Stepped(h.outcome, h.after, received + |chunk|)
  }

  /** A client left waiting has had the chunk appended and nothing else
      done to its buffer, which stays consistent with the new count. */
  lemma WaitKeepsAppended(buf: seq<char>, received: nat, chunk: seq<char>, spawns: bool)
    requires Consistent(buf, received) && |chunk| <= MaxRequestSize - received
    requires StepEffect(buf, received, chunk, spawns).outcome == Wait
    ensures received < MaxRequestSize && |chunk| > 0
    ensures StepEffect(buf, received, chunk, spawns).after == Appended(buf, received, chunk)
    ensures StepEffect(buf, received, chunk, spawns).received == received + |chunk|
    ensures Consistent(Appended(buf, received, chunk), received + |chunk|)
  {
    var a := Appended(buf, received, chunk);
    if a[..5] == PostPrefix {
      PostWaitsIff(a);
    } else {
      GetWaitsIff(a, spawns);
    }
    AppendedConsistent(buf, received, chunk);
  }

  /** Appending keeps every byte past the new count NUL. */
  lemma AppendedConsistent(buf: seq<char>, received: nat, chunk: seq<char>)
    requires Consistent(buf, received) && |chunk| <= MaxRequestSize - received
    ensures Consistent(Appended(buf, received, chunk), received + |chunk|)
  {
    var a := Appended(buf, received, chunk);
    forall j | received + |chunk| <= j < |a| ensures a[j] == NUL {
      if j > received + |chunk| {
        assert a[j] == buf[j];
      }
    }
  }

  /** `handleGET` writes only NULs into the buffer, so the bytes past the
      count stay NUL. */
  lemma GetKeepsConsistent(buf: seq<char>, received: nat, spawns: bool)
    requires Consistent(buf, received)
    ensures Consistent(GetEffect(buf, spawns).after, received)
  {
    var terminator := Find(StrAt(buf, 0), Terminator);
    if terminator.Some? {
      var b := buf[terminator.value := NUL];
      assert Consistent(b, received);
    }
  }

  /** `handlePOST` writes at most one NUL into the buffer, so the bytes past
      the count stay NUL. */
  lemma PostKeepsConsistent(buf: seq<char>, received: nat)
    requires Consistent(buf, received)
    ensures Terminated(buf) && Consistent(PostEffect(buf).after, received)
  {
    assert buf[|buf| - 1] == NUL;
    match Locate(buf)
    case Stopped(_) =>
    case DataAt(_, head) =>
      var endReq := LastNewline(buf, head, head + |StrAt(buf, head)| - 2);
      if endReq >= head {
        assert Consistent(buf[endReq := NUL], received);
      }
  }

  /** Whatever the outcome, the buffer a step leaves has NUL in every byte
      past the count the step leaves, so the next `recv` sees a C string. */
  lemma StepKeepsConsistent(buf: seq<char>, received: nat, chunk: seq<char>, spawns: bool)
    requires Consistent(buf, received) && |chunk| <= MaxRequestSize - received
    ensures var e := StepEffect(buf, received, chunk, spawns);
            Consistent(e.after, e.received)
  {
    if received < MaxRequestSize && |chunk| > 0 {
      var a := Appended(buf, received, chunk);
      AppendedConsistent(buf, received, chunk);
      if a[..5] == PostPrefix {
        PostKeepsConsistent(a, received + |chunk|);
      } else {
        GetKeepsConsistent(a, received + |chunk|, spawns);
      }
    }
  }

  /** A request may arrive in pieces: when the first piece leaves the client
      waiting, receiving the second afterwards has exactly the effect of
      receiving both at once. */
  lemma SplitDelivery(buf: seq<char>, received: nat, x: seq<char>, y: seq<char>, spawns: bool)
    requires Consistent(buf, received) && |x| > 0 && |y| > 0
    requires received + |x| + |y| <= MaxRequestSize
    requires StepEffect(buf, received, x, spawns).outcome == Wait
    ensures var first := StepEffect(buf, received, x, spawns);
            Consistent(first.after, first.received) &&
            StepEffect(first.after, first.received, y, spawns) == StepEffect(buf, received, x + y, spawns)
  {
    WaitKeepsAppended(buf, received, x, spawns);
    AppendTwice(buf, received, x, y);
  }

  /** A request that fills the buffer and is still waiting is answered 400
      at the socket's next readiness, without another read. */
  lemma FullBufferAnswered400(buf: seq<char>, received: nat, chunk: seq<char>, spawns: bool)
    requires Consistent(buf, received) && |chunk| == MaxRequestSize - received
    requires StepEffect(buf, received, chunk, spawns).outcome == Wait
    ensures var first := StepEffect(buf, received, chunk, spawns);
            Consistent(first.after, first.received) && first.received == MaxRequestSize &&
            StepEffect(first.after, first.received, [], spawns).outcome == BadRequest
  {
    WaitKeepsAppended(buf, received, chunk, spawns);
  }

  /** A request whose first five bytes are "POST " is never answered 400 by
      `handlePOST`, even when it is no well-formed POST ("POST x"): it waits
      for the boundary marker, uploads or faults. One that waits until the
      buffer is full is answered 400 by the main loop instead
      (`FullBufferAnswered400`). */
  lemma PostNeverAnswered400(buf: seq<char>, received: nat, chunk: seq<char>, spawns: bool)
    requires Consistent(buf, received) && 0 < |chunk| <= MaxRequestSize - received
    requires received + |chunk| >= 5 && (buf[..received] + chunk)[..5] == PostPrefix
    ensures var o := StepEffect(buf, received, chunk, spawns).outcome;
            o.Wait? || o.Upload? || o.Fault?
  {
    var a := Appended(buf, received, chunk);
    assert a[..5] == (buf[..received] + chunk)[..5];
    PostWaitsIff(a);
  }

  /** Only requests starting "POST " upload anything: any other request is
      handled as a GET. */
  lemma UploadOnlyFromPost(buf: seq<char>, received: nat, chunk: seq<char>, spawns: bool)
    requires Consistent(buf, received) && |chunk| <= MaxRequestSize - received
    requires StepEffect(buf, received, chunk, spawns).outcome.Upload?
    ensures received < MaxRequestSize && |chunk| > 0
    ensures Appended(buf, received, chunk)[..5] == PostPrefix
  {
  }

  /** The record of one connection. */
  class Client {
    var socket: int
    var received: nat
    const request: array<char>

    ghost predicate Valid()
      reads this, request
    {
      Consistent(request[..], received)
    }

    /** `calloc`: every field zero, the socket included, until the caller
        stores the accepted socket. */
    constructor ()
      ensures socket == 0 && received == 0 && fresh(request)
      ensures request[..] == seq(BufferSize, _ => NUL)
      ensures Valid()
    {
      socket := 0;
      received := 0;
      request := new char[BufferSize](_ => NUL);
    }

    /** `recv` into `request + received`, then `received += r` and the NUL
        after the new bytes. */
    method Append(chunk: seq<char>)
      requires Valid() && |chunk| <= MaxRequestSize - received
      modifies this, request
      ensures received == old(received) + |chunk| && socket == old(socket)
      ensures request[..] == Appended(old(request[..]), old(received), chunk)
      ensures Valid()
    {
      forall i | 0 <= i < |chunk| {
        request[received + i] := chunk[i];
      }
      received := received + |chunk|;
      request[received] := NUL;
      assert request[..] == Appended(old(request[..]), old(received), chunk);
      forall j | received < j < request.Length ensures request[j] == NUL {
        assert request[j] == old(request[j]);
      }
    }

    /** `handleGET` (main.c:356-375) on the buffer in place. */
    method HandleGet(spawns: bool) returns (o: Outcome)
      requires Valid()
      modifies request
      ensures o == GetEffect(old(request[..]), spawns).outcome
      ensures request[..] == GetEffect(old(request[..]), spawns).after
    {
      var terminator := Find(StrAt(request[..], 0), Terminator);
      if terminator.None? {
        return Wait;
      }
      request[terminator.value] := NUL;
      if request[..14] == FaviconPrefix {
        return Fake200;
      }
      if request[..5] != GetPrefix {
        return BadRequest;
      }
      var endPath := Find(StrAt(request[..], CommandStart), " ");
      if endPath.None? {
        return BadRequest;
      }
      var e := CommandStart + endPath.value;
      var cmd := request[CommandStart..e];
      StrAtNoNul(request[..], CommandStart);
      assert cmd == StrAt(request[..], CommandStart)[..endPath.value];
      request[e] := NUL;
      o := ServeCommand(cmd, spawns);
    }

    /** The filename copy of `handlePOST` (main.c:404-409): bytes from
        `start` go into `fileName[50]` up to the first '"' or NUL; a 51st
        byte would be written past the array. */
    method CopyFileName(start: nat) returns (name: seq<char>, overrun: bool)
      requires Valid() && start < request.Length
      ensures overrun <==> NameEnd(request[..], start) - start > FileNameSize
      ensures !overrun ==> name == request[start..NameEnd(request[..], start)]
    {
      var fileName := new char[FileNameSize](_ => NUL);
      var i := 0;
      var p := start;
      while request[p] != NUL && request[p] != '"'
        invariant start <= p < request.Length && i == p - start <= FileNameSize
        invariant fileName[..i] == request[start..p]
        invariant forall j :: start <= j < p ==> request[j] != NUL && request[j] != '"'
        decreases request.Length - p
      {
        if i == FileNameSize {
          assert NameEnd(request[..], start) > p;
          return [], true;
        }
        fileName[i] := request[p];
        assert fileName[..i + 1] == fileName[..i] + [request[p]];
        assert request[start..p + 1] == request[start..p] + [request[p]];
        i := i + 1;
        p := p + 1;
      }
      NameEndIs(request[..], start, p);
      return fileName[..i], false;
    }

    /** `while (*p != '\n') p++` from `ct`: the first '\n', NULs passed
        over, or None when the scan would leave the buffer. */
    method SkipToNewline(ct: nat) returns (head: Option<nat>)
      requires ct <= request.Length
      ensures head == NewlineFrom(request[..], ct)
    {
      var p := ct;
      while p < request.Length && request[p] != '\n'
        invariant ct <= p <= request.Length
        invariant forall j :: ct <= j < p ==> request[j] != '\n'
        decreases request.Length - p
      {
        p := p + 1;
      }
      if p == request.Length {
        return None;
      }
      NewlineFromIs(request[..], ct, p);
      return Some(p);
    }

    /** The backward scan of `handlePOST` (main.c:418-420): from
        `head + strlen(head) - 2` down to `head`, stopping at a '\n'. */
    method LastNewlineBefore(head: nat) returns (endReq: int)
      requires head < request.Length && request[head] == '\n'
      ensures endReq == LastNewline(request[..], head, head + |StrAt(request[..], head)| - 2)
    {
      var hi := head + |StrAt(request[..], head)| - 2;
      endReq := hi;
      while endReq >= head && request[endReq] != '\n'
        invariant head - 1 <= endReq <= hi
        invariant forall j :: endReq < j <= hi ==> request[j] != '\n'
        decreases endReq - head + 1
      {
        endReq := endReq - 1;
      }
      if endReq >= head {
        LastNewlineIs(request[..], head, hi, endReq);
      }
    }

    /** The searches of `handlePOST` (main.c:392-403): the boundary, then
        "filename=", then the copy 10 bytes past the key. */
    method Locate() returns (l: Located)
      requires Valid()
      ensures l == PostRequests.Locate(request[..])
    {
      var boundary := Find(StrAt(request[..], 0), Boundary);
      if boundary.None? {
        return Stopped(Wait);
      }
      var key := Find(StrAt(request[..], boundary.value), FileNameKey);
      if key.None? {
        return Stopped(Fault(NullDereference));
      }
      var start := boundary.value + key.value + FileNameSkip;
      if start >= request.Length {
        return Stopped(Fault(ReadPastBuffer));
      }
      l := LocateData(start);
    }

    /** From the filename copy at `start` (main.c:404-414): the copy, the
        search for "Content-Type:" past it and the scan to the next '\n'. */
    method LocateData(start: nat) returns (l: Located)
      requires Valid() && start < request.Length
      ensures l == PostRequests.LocateData(request[..], start)
    {
      var name, overrun := CopyFileName(start);
      if overrun {
        return Stopped(Fault(FileNameOverrun));
      }
      if |name| == FileNameSize {
        return Stopped(Fault(UnterminatedFileName));
      }
      var end := start + |name|;
      var contentType := Find(StrAt(request[..], end), ContentTypeKey);
      if contentType.None? {
        return Stopped(Fault(NullDereference));
      }
      var head := SkipToNewline(end + contentType.value);
      if head.None? {
        return Stopped(Fault(ReadPastBuffer));
      }
      return DataAt(name, head.value);
    }

    /** `handlePOST` (main.c:390-429) on the buffer in place. */
    method HandlePost() returns (o: Outcome)
      requires Valid()
      modifies request
      ensures o == PostEffect(old(request[..])).outcome
      ensures request[..] == PostEffect(old(request[..])).after
    {
      var l := Locate();
      if l.Stopped? {
        return l.outcome;
      }
      var endReq := LastNewlineBefore(l.head);
      if endReq >= l.head {
        request[endReq] := NUL;
      }
      o := Upload(l.fileName, StrAt(request[..], l.head));
    }
  }
}
