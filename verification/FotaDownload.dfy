/** The download client: header, body and exit code, over reads and writes of any size. */
module FotaDownload {
  import opened Types
  import opened Strings
  import opened HttpHeader
  import opened HttpFields

  datatype Poll = Timeout | PollError | PollInterrupted | ControlOnly | DataReady

  /**
   The data socket: a stream, and how much of it has been delivered. How much each receive delivers and how each wait
   ends is fixed beforehand, but unknown. Waits without data end at some point; when is unknown too.
   */
  class Socket {
    const stream: string
    const grants: nat -> nat
    const polls: nat -> Poll
    const settled: nat
    var pos: nat
    var receives: nat
    var waits: nat

    constructor (stream: string, grants: nat -> nat, polls: nat -> Poll, settled: nat)
      requires forall n :: settled <= n ==> polls(n) != PollInterrupted && polls(n) != ControlOnly
      ensures this.stream == stream && this.grants == grants && this.polls == polls && this.settled == settled
      ensures Valid() && pos == 0
    {
      this.stream, this.grants, this.polls, this.settled := stream, grants, polls, settled;
      pos, receives, waits := 0, 0, 0;
    }

    ghost predicate Valid()
      reads this
    {
      && pos <= |stream|
      && forall n :: settled <= n ==> polls(n) != PollInterrupted && polls(n) != ControlOnly
    }

    /** Every receive delivers something as long as something is left. */
    ghost predicate Steady() {
      forall n :: grants(n) > 0
    }

    /** No wait times out or fails. */
    ghost predicate Patient() {
      forall n :: polls(n) != Timeout && polls(n) != PollError
    }

    /** Some of what is left, or nothing: end of stream, or an error before it. */
    method Recv(max: nat) returns (data: string)
      requires Valid() && max > 0
      modifies this`pos, this`receives
      ensures Valid() && |data| <= max && pos == old(pos) + |data| && data == stream[old(pos)..pos]
      ensures Steady() && data == "" ==> pos == |stream|
    {
      var left, n := |stream| - pos, grants(receives);
      receives := receives + 1;
      if n > max { n := max; }
      if n > left { n := left; }
      data := stream[pos..pos + n];
      pos := pos + n;
    }

    method Wait() returns (p: Poll)
      requires Valid()
      modifies this`waits
      ensures Valid() && waits == old(waits) + 1
      ensures p == polls(old(waits))
    {
      p := polls(waits);
      waits := waits + 1;
    }
  }

  datatype Attempt = Fault | Interrupt | Take(n: nat)

  datatype WriteResult = Interrupted | Failed | Wrote(n: nat)

  /**
   The output file. How each write goes is fixed beforehand, but unknown. Interruptions and empty writes end at some
   point.
   */
  class OutFile {
    const canOpen: bool
    const attempts: nat -> Attempt
    const settled: nat
    var contents: string
    var writes: nat

    constructor (canOpen: bool, attempts: nat -> Attempt, settled: nat)
      requires forall n :: settled <= n ==> attempts(n) != Interrupt && attempts(n) != Take(0)
      ensures this.canOpen == canOpen && this.attempts == attempts && this.settled == settled
      ensures Valid() && contents == ""
    {
      this.canOpen, this.attempts, this.settled := canOpen, attempts, settled;
      contents, writes := "", 0;
    }

    ghost predicate Valid() {
      forall n :: settled <= n ==> attempts(n) != Interrupt && attempts(n) != Take(0)
    }

    /** No write fails. */
    ghost predicate Reliable() {
      forall n :: attempts(n) != Fault
    }

    method Write(data: string) returns (r: WriteResult)
      modifies this
      ensures writes == old(writes) + 1
      ensures match attempts(old(writes))
        case Fault => r == Failed && contents == old(contents)
        case Interrupt => r == Interrupted && contents == old(contents)
        case Take(n) =>
          var taken := if n <= |data| then n else |data|;
          r == Wrote(taken) && contents == old(contents) + data[..taken]
    {
      var attempt := attempts(writes);
      writes := writes + 1;
      match attempt
      case Fault => return Failed;
      case Interrupt => return Interrupted;
      case Take(n) =>
        var taken := if n <= |data| then n else |data|;
        contents := contents + data[..taken];
        return Wrote(taken);
    }

    /** Writes all of the data, or meets a failing write with a proper prefix of the data written. */
    method WriteAll(data: string) returns (ok: bool)
      requires Valid()
      modifies this
      ensures ok ==> contents == old(contents) + data
      ensures !ok ==> exists k :: 0 <= k < |data| && contents == old(contents) + data[..k]
      ensures Reliable() ==> ok
    {
      var written: nat, remaining: nat := 0, |data|;
      assert old(contents) + data[..0] == old(contents);
      while remaining > 0
        invariant written + remaining == |data| && contents == old(contents) + data[..written]
        decreases remaining, settled - writes
      {
        ghost var n := writes;
        var r := Write(data[written..]);
        match r
        case Failed =>
          assert attempts(n) == Fault;
          return false;
        case Interrupted =>
        case Wrote(n) =>
          assert data[..written] + data[written..][..n] == data[..written + n];
          written, remaining := written + n, remaining - n;
      }
      assert data[..|data|] == data;
      return true;
    }
  }

  datatype Exit = ConnectionClosed | Crashed | HttpError(status: int) | OpenFailed | EarlyWriteFailed | Short | Success

  const RECV_HEADER: nat := 4096
  const RECV_BODY: nat := 131072

  /**
   Buffers until the parser answers or the connection ends. Unless the length dangles, the answer is that of the stream,
   however it was split.
   */
  method ReadHeader(sock: Socket) returns (h: Header, buf: string)
    requires sock.Valid() && sock.pos == 0
    modifies sock
    ensures sock.Valid() && buf == sock.stream[..sock.pos]
    ensures h == ParseHttpHeader(buf)
    ensures !DanglingStream(sock.stream) && (h != Incomplete || sock.Steady()) ==> h == HeaderOf(sock.stream)
  {
    buf := "";
    h := Incomplete;
    assert ParseHttpHeader("") == Incomplete;
    while h == Incomplete
      invariant sock.Valid() && buf == sock.stream[..sock.pos] && h == ParseHttpHeader(buf)
      decreases |sock.stream| - sock.pos, h == Incomplete
    {
      var data := sock.Recv(RECV_HEADER);
      if data == "" {
        if sock.Steady() && !DanglingStream(sock.stream) { WholeStream(sock.stream); }
        return;
      }
      buf := buf + data;
      h := ParseHttpHeader(buf);
    }
    if !DanglingStream(sock.stream) { PrefixOutcome(sock.stream, sock.pos); }
  }

  lemma WholeStream(stream: string)
    requires !DanglingStream(stream)
    ensures ParseHttpHeader(stream[..|stream|]) == HeaderOf(stream)
  {
    assert stream[..|stream|] == stream;
    var found := Find(stream, BLANK_LINE, 0);
    if found.Some? { PrefixBeyondHeader(stream, found.value, |stream|); }
  }

  /** Nothing outside goes wrong. */
  ghost predicate Smooth(sock: Socket, file: OutFile) {
    sock.Steady() && sock.Patient() && file.Reliable()
  }

  /**
   The body loop, from what came with the header. While no write fails the file is exactly the body read so far and
   `received` is its length; after a failed write it is a prefix of it, and `received` is no more than its length. When
   nothing outside goes wrong the loop goes on to the announced length or to the end of the stream.
   */
  method ReadBody(sock: Socket, file: OutFile, bodyStart: nat, contentLength: nat, start: nat)
    returns (received: nat, writeFailed: bool)
    requires sock.Valid() && file.Valid() && bodyStart <= sock.pos
    requires file.contents == sock.stream[bodyStart..sock.pos] && start == |file.contents|
    modifies sock, file
    ensures sock.Valid() && bodyStart <= sock.pos
    ensures !writeFailed ==> file.contents == sock.stream[bodyStart..sock.pos] && received == |file.contents|
    ensures writeFailed ==> file.contents < sock.stream[bodyStart..sock.pos] && received <= |file.contents|
    ensures writeFailed ==> contentLength == 0 || received < contentLength
    ensures |file.contents| >= start
    ensures Smooth(sock, file) ==>
      !writeFailed && ((contentLength > 0 && received >= contentLength) || sock.pos == |sock.stream|)
  {
    received := start;
    while contentLength == 0 || received < contentLength
      invariant sock.Valid() && bodyStart <= sock.pos
      invariant file.contents == sock.stream[bodyStart..sock.pos] && received == |file.contents| >= start
      decreases |sock.stream| - sock.pos, sock.settled - sock.waits
    {
      var poll := sock.Wait();
      if poll == Timeout || poll == PollError { return received, false; }
      if poll == DataReady {
        ghost var before := sock.pos;
        var data := sock.Recv(RECV_BODY);
        if data == "" { return received, false; }
        assert sock.stream[bodyStart..before] + data == sock.stream[bodyStart..sock.pos];
        var ok := file.WriteAll(data);
        if !ok { return received, true; }
        received := received + |data|;
      }
    }
    return received, false;
  }

  /**
   Writes the body bytes that came with the header, then the rest, and judges the outcome: the first bytes could not all
   be written; or, whether the end came by a failed write, a timeout or the end of the stream, the file is short of what
   was received or of what was announced; or neither.
   */
  method SaveBody(sock: Socket, file: OutFile, buf: string, bodyStart: nat, contentLength: nat) returns (exit: Exit)
    requires sock.Valid() && file.Valid() && buf == sock.stream[..sock.pos] && bodyStart <= |buf|
    modifies sock, file
    ensures exit in {EarlyWriteFailed, Short, Success} && sock.Valid() && bodyStart <= sock.pos
    ensures file.contents <= sock.stream[bodyStart..]
    ensures exit == Success && contentLength > 0 ==> |file.contents| >= contentLength
    ensures exit == Short ==> contentLength > 0
    ensures exit == EarlyWriteFailed <==> |file.contents| < |buf| - bodyStart
    ensures exit == EarlyWriteFailed ==> sock.pos == |buf| && !file.Reliable()
    ensures exit != EarlyWriteFailed ==>
      exit == if contentLength > 0 && (|file.contents| < sock.pos - bodyStart || |file.contents| < contentLength)
              then Short else Success
    ensures Smooth(sock, file) ==>
      && exit == (if contentLength > |sock.stream| - bodyStart then Short else Success)
      && (contentLength == 0 || exit == Short ==> file.contents == sock.stream[bodyStart..])
  {
    file.contents := "";
    var received := |buf| - bodyStart;
    assert buf[bodyStart..] == sock.stream[bodyStart..sock.pos];
    if received > 0 {
      var ok := file.WriteAll(buf[bodyStart..]);
      assert sock.stream[bodyStart..sock.pos] <= sock.stream[bodyStart..];
      if !ok { return EarlyWriteFailed; }
    }
    var writeFailed;
    received, writeFailed := ReadBody(sock, file, bodyStart, contentLength, received);
    assert sock.stream[bodyStart..sock.pos] <= sock.stream[bodyStart..];
    return if contentLength > 0 && received < contentLength then Short else Success;
  }

  /** The exit a stream deserves. */
  ghost function Verdict(stream: string): Exit {
    match HeaderOf(stream)
    case Incomplete => ConnectionClosed
    case Throws => Crashed
    case Parsed(bodyStart, status, contentLength) =>
      if status != 200 then HttpError(status)
      else if contentLength > |stream| - bodyStart then Short
      else Success
  }

  /** A stream that begins with a complete header that does not dangle deserves what its header alone says. */
  lemma HeaderFirst(h: string, body: string)
    requires Complete(h) && !Dangling(h)
    ensures !DanglingStream(h + body) && HeaderOf(h + body) == ParseHttpHeader(h)
  {
    BlankLineStable(h, body);
    assert (h + body)[..|h|] == h;
  }

  /**
   Behind a well-formed header whose length field the parser finds, with code 200 the stream deserves success exactly if
   the body is at least as long as the field says.
   */
  lemma DeclaredVerdict(f: Frame, ds: string, body: string)
    requires f.Valid() && ParserFinds(f) && Declarable(ds)
    ensures var stream, status := Head(f.LinesWith(ds)) + body, NatValue(f.before[0][9..12]);
      && !DanglingStream(stream)
      && Verdict(stream)
         == if status != 200 then HttpError(status) else if |body| < NatValue(ds) then Short else Success
  {
    var ls := f.LinesWith(ds);
    FrameIsWellFormed(f, ds);
    StatusOfHead(ls);
    assert ls[0] == f.before[0];
    DeclaredIsRead(f, ds);
    HeaderRead(Head(ls), NatValue(f.before[0][9..12]), Some(NatValue(ds)));
    HeaderFirst(Head(ls), body);
  }

  /** Which exits a header allows. */
  ghost predicate ExitFits(exit: Exit, h: Header, canOpen: bool) {
    && (exit == ConnectionClosed <==> h == Incomplete)
    && (exit == Crashed <==> h == Throws)
    && (exit.HttpError? <==> h.Parsed? && h.status != 200)
    && (exit.HttpError? ==> exit.status == h.status)
    && (exit == OpenFailed <==> h.Parsed? && h.status == 200 && !canOpen)
  }

  /**
   What an exit says of the file, which holds a prefix of the body: too little of what was received, too little of what
   was received or announced, or enough of both, where a length was announced.
   */
  ghost predicate FileFits(exit: Exit, h: Header, sock: Socket, file: OutFile)
    reads sock, file
  {
    exit in {EarlyWriteFailed, Short, Success} ==>
      && h.Parsed? && h.bodyStart <= sock.pos <= |sock.stream| && file.contents <= sock.stream[h.bodyStart..]
      && var received := sock.pos - h.bodyStart;
         && (exit == EarlyWriteFailed ==> |file.contents| < received && !file.Reliable())
         && (exit == Short ==> h.contentLength > 0 && (|file.contents| < received || |file.contents| < h.contentLength))
         && (exit == Success && h.contentLength > 0 ==>
               |file.contents| >= received && |file.contents| >= h.contentLength)
  }

  /** What follows the header. */
  method AfterHeader(sock: Socket, file: OutFile, h: Header, buf: string) returns (exit: Exit)
    requires sock.Valid() && file.Valid() && buf == sock.stream[..sock.pos] && h == ParseHttpHeader(buf)
    modifies sock, file
    ensures ExitFits(exit, h, file.canOpen) && FileFits(exit, h, sock, file)
    ensures Smooth(sock, file) && h.Parsed? && h.status == 200 && file.canOpen ==>
      && h.bodyStart <= |sock.stream|
      && exit == (if h.contentLength > |sock.stream| - h.bodyStart then Short else Success)
      && (h.contentLength == 0 || exit == Short ==> file.contents == sock.stream[h.bodyStart..])
  {
    match h
    case Incomplete => return ConnectionClosed;
    case Throws => return Crashed;
    case Parsed(bodyStart, status, contentLength) =>
      if status != 200 { return HttpError(status); }
      ParsedInside(buf);
      if !file.canOpen { return OpenFailed; }
      exit := SaveBody(sock, file, buf, bodyStart, contentLength);
  }

  /**
   A whole download. Success means at least the announced number of body bytes is in the file, when one was announced,
   and all of the body when the stream ends there; the file never holds anything but a prefix of the body. When nothing
   outside goes wrong the exit is the one the stream deserves, whatever the sizes of reads and writes.
   */
  method Download(sock: Socket, file: OutFile) returns (exit: Exit, ghost h: Header)
    requires sock.Valid() && file.Valid() && sock.pos == 0
    modifies sock, file
    ensures !DanglingStream(sock.stream) && (h != Incomplete || sock.Steady()) ==> h == HeaderOf(sock.stream)
    ensures ExitFits(exit, h, file.canOpen) && FileFits(exit, h, sock, file)
    ensures exit == Success && h.contentLength > 0 && |sock.stream| == h.bodyStart + h.contentLength ==>
      file.contents == sock.stream[h.bodyStart..]
    ensures Smooth(sock, file) && file.canOpen && !DanglingStream(sock.stream) ==> exit == Verdict(sock.stream)
    ensures Smooth(sock, file) && (exit == Short || (exit == Success && h.contentLength == 0)) ==>
      file.contents == sock.stream[h.bodyStart..]
  {
    var header, buf := ReadHeader(sock);
    h := header;
    exit := AfterHeader(sock, file, header, buf);
  }

  /** The body starts inside what has been buffered. */
  lemma ParsedInside(buf: string)
    requires ParseHttpHeader(buf).Parsed?
    ensures ParseHttpHeader(buf).bodyStart <= |buf|
  {}

  /**
   Two downloads of one stream, each with reads and writes of its own: as soon as both complete the header they agree
   on it, and if the stream carries exactly the body it announces, two successes leave the same file. If nothing outside
   goes wrong they end the same, and a short body or one of unannounced length leaves the same file too.
   */
  method DownloadTwice(a: Socket, fileA: OutFile, b: Socket, fileB: OutFile)
    returns (exitA: Exit, exitB: Exit, ghost hA: Header, ghost hB: Header)
    requires a != b && fileA != fileB && a.Valid() && a.pos == 0 && b.Valid() && b.pos == 0
    requires fileA.Valid() && fileB.Valid()
    requires a.stream == b.stream && !DanglingStream(a.stream)
    modifies a, b, fileA, fileB
    ensures exitA != ConnectionClosed && exitB != ConnectionClosed ==> hA == hB == HeaderOf(a.stream)
    ensures exitA == exitB == Success && hA.Parsed? && hA.contentLength > 0
            && |a.stream| == hA.bodyStart + hA.contentLength ==>
      fileA.contents == fileB.contents == a.stream[hA.bodyStart..]
    ensures Smooth(a, fileA) && Smooth(b, fileB) && fileA.canOpen && fileB.canOpen ==>
      && exitA == exitB == Verdict(a.stream)
      && (exitA == Short || (exitA == Success && hA.Parsed? && hA.contentLength == 0) ==>
            fileA.contents == fileB.contents)
  {
    exitA, hA := Download(a, fileA);
    exitB, hB := Download(b, fileB);
  }
}
