// The `http_connection` object of pset6/pong61.cc: its response buffer is an
// array that the receive loops fill, shift down and reallocate in place.
// Every method is proved to leave the connection in the state the
// functions of module Pong61 compute from the state before the call.

module Pong61Connection {
  import opened Pong61
  import Pong61Properties

  class Connection {
    const fd: int
    var cstate: CState
    var status: int
    var contentLength: nat
    var hasContentLength: bool
    var eof: bool
    /** `buf_`; `bufsize_` is its capacity and `len_` the bytes of response held. */
    var buf: array<char>
    var bufsize: int
    var len: int

    /** There is always room for the NUL after the `len_` bytes. */
    ghost predicate Valid()
      reads this
    {
      BUFSIZ <= bufsize == buf.Length && 0 <= len < bufsize
    }

    /** The connection as a value. */
    ghost function State(): Conn
      reads this, buf
      requires Valid()
    {
      Conn(cstate, status, contentLength, hasContentLength, eof, buf[..len])
    }

    /** A fresh idle connection on socket `fd` with a BUFSIZ-byte buffer. */
    constructor (fd: int)
      requires fd >= 0
      ensures Valid() && fresh(buf)
      ensures this.fd == fd && cstate == Idle && !eof && bufsize == BUFSIZ && len == 0
    {
      this.fd := fd;
      cstate := Idle;
      status := -1;
      contentLength := 0;
      hasContentLength := false;
      eof := false;
      buf := new char[BUFSIZ];
      bufsize := BUFSIZ;
      len := 0;
    }

    /** The state change of `send_request` once the request is written. */
    method SendRequest()
      requires Valid() && cstate == Idle
      modifies this
      ensures Valid() && buf == old(buf) && bufsize == old(bufsize)
      ensures State() == Pong61.SendRequest(old(State()))
    {
      cstate := Waiting;
      status := -1;
      contentLength := 0;
      hasContentLength := false;
      len := 0;
    }

    /** `memmove(buf_, buf_ + from, len_ - from + 1)`: the rest and its NUL move down. */
    method ShiftDown(from: int)
      requires Valid() && 0 < from <= len
      modifies buf
      ensures buf[..len - from + 1] == old(buf[from..len + 1])
    {
      forall k | 0 <= k < len - from + 1 {
        buf[k] := buf[k + from];
      }
    }

    /** The fields other than the buffer, as a connection holding no data. */
    ghost function Fields(): Conn
      reads this
    {
      Conn(cstate, status, contentLength, hasContentLength, eof, [])
    }

    /** The parse of one header line `line` (the bytes before its CR LF). */
    method ParseLine(line: seq<char>)
      requires InHeaders(cstate)
      modifies this
      ensures buf == old(buf) && bufsize == old(bufsize) && len == old(len)
      ensures Fields() == HeaderLine(old(Fields()), line)
    {
      // The C string at buf_ once the CR is overwritten with NUL.
      var text := CString(line);
      if cstate == Waiting {
        var scanned := ScanStatus(text);
        if scanned.Some? {
          status := scanned.value;
          cstate := Headers;
        } else {
          cstate := Broken;
        }
      } else if |line| == 0 {
        cstate := Body;
      } else if StartsWithNoCase(text, CONTENT_LENGTH) {
        contentLength := StrToUL(text[|CONTENT_LENGTH|..]);
        hasContentLength := true;
      }
    }

    /** The body of the header loop at a CR LF at `i`: parse the line, then drop it. */
    method TakeLine(i: int)
      requires Valid() && InHeaders(cstate) && CRLFAt(buf[..len], i)
      requires forall k :: 0 <= k < i ==> !CRLFAt(buf[..len], k)
      modifies this, buf
      ensures Valid() && buf == old(buf) && bufsize == old(bufsize) && len == old(len) - (i + 2)
      ensures State() == HeaderLine(old(State()), old(State()).data[..i]).(data := old(State()).data[i + 2..])
      ensures Consume(State()) == Consume(old(State())) && eof == old(eof)
      ensures buf[len] == old(buf[len])
    {
      ghost var c := State();
      ghost var next := HeaderLine(c, c.data[..i]).(data := c.data[i + 2..]);
      assert next.eof == c.eof;
      assert c.data[..i] == buf[..i];
      assert c.data[i + 2..] == buf[i + 2..len];
      buf[i] := '\0';
      ParseLine(buf[..i]);
      HeaderLineKeepsData(c, buf[..i]);
      ghost var rest := buf[i + 2..len + 1];
      ShiftDown(i + 2);
      len := len - (i + 2);
      assert buf[..len + 1] == rest;
      assert buf[..len] == c.data[i + 2..];
      assert State() == next;
      ConsumeAt(c, i, State());
    }

    /** The loop of `process_response_headers`: consume every complete header line held. */
    method ConsumeLines()
      requires Valid()
      modifies this, buf
      ensures Valid() && buf == old(buf) && bufsize == old(bufsize)
      ensures State() == Consume(old(State()))
      ensures buf[len] == old(buf[len])
    {
      var i := 0;
      while InHeaders(cstate) && i + 2 <= len
        invariant Valid() && buf == old(buf) && bufsize == old(bufsize)
        invariant 0 <= i <= len
        invariant forall k :: 0 <= k < i ==> !CRLFAt(buf[..len], k)
        invariant Consume(State()) == Consume(old(State()))
        invariant buf[len] == old(buf[len])
        decreases len, len - i
      {
        if buf[i] == '\r' && buf[i + 1] == '\n' {
          TakeLine(i);
          i := 0;
        } else {
          assert !CRLFAt(buf[..len], i);
          i := i + 1;
        }
      }
      if InHeaders(cstate) {
        NoCRLF(buf[..len], i);
      }
    }

    /**
     * `process_response_headers`: consume every complete header line held,
     * then mark the connection broken at EOF; true while headers remain.
     */
    method ProcessHeaders() returns (more: bool)
      requires Valid()
      modifies this, buf
      ensures Valid() && buf == old(buf) && bufsize == old(bufsize)
      ensures State() == Pong61.ProcessHeaders(old(State())).after
      ensures more == Pong61.ProcessHeaders(old(State())).more
      ensures buf[len] == old(buf[len])
    {
      ghost var c := State();
      ConsumeLines();
      ghost var d := State();
      assert d == Consume(c);
      assert d.eof == c.eof by {
        ConsumeShape(c);
      }
      if eof {
        cstate := Broken;
      }
      more := InHeaders(cstate);
      assert State() == (if c.eof then d.(cstate := Broken) else d);
    }

    /** `check_response_body`: decide whether the body is complete. */
    method CheckBody() returns (more: bool)
      requires Valid()
      modifies this
      ensures Valid() && buf == old(buf) && bufsize == old(bufsize) && len == old(len)
      ensures State() == Pong61.CheckBody(old(State())).after
      ensures more == Pong61.CheckBody(old(State())).more
    {
      if cstate == Body && (hasContentLength || eof) && len >= contentLength {
        cstate := Idle;
      }
      if eof {
        if cstate == Idle {
          cstate := Closed;
        } else if cstate != Closed {
          cstate := Broken;
        }
      }
      more := cstate == Body;
    }

    /** `bufsize_ *= 2; buf_ = realloc(buf_, bufsize_)` when a full read might not fit. */
    method Grow()
      requires Valid()
      modifies this
      ensures Valid() && (buf == old(buf) || fresh(buf))
      ensures bufsize == Grown(old(len), old(bufsize)) && len + BUFSIZ <= bufsize
      ensures State() == old(State()) && buf[len] == old(buf[len])
    {
      if len + BUFSIZ > bufsize {
        var bigger := new char[2 * bufsize];
        forall k | 0 <= k < bufsize {
          bigger[k] := buf[k];
        }
        assert bigger[..len] == buf[..len];
        buf := bigger;
        bufsize := 2 * bufsize;
      }
    }

    /**
     * One pass of a receive loop body: double the buffer when a full read
     * might not fit, then take in what `read` returned; true when the
     * program exits on a read error.
     */
    method ReadMore(r: ReadResult) returns (exited: bool)
      requires Valid() && ReadOk(r)
      modifies this, buf
      ensures Valid() && (buf == old(buf) || fresh(buf))
      ensures bufsize == Grown(old(len), old(bufsize)) && old(len) + BUFSIZ <= bufsize
      ensures exited <==> r.Failure?
      ensures State() == ReadInto(old(State()), r)
      ensures r.Bytes? ==> buf[len] == '\0'
      ensures !r.Bytes? ==> buf[len] == old(buf[len])
    {
      Grow();
      exited := false;
      match r
      case Bytes(got) =>
        forall k | 0 <= k < |got| {
          buf[len + k] := got[k];
        }
        assert buf[..len + |got|] == old(buf[..len]) + got;
        len := len + |got|;
        buf[len] := '\0';
        assert buf[..len] == old(buf[..len]) + got;
      case EndOfFile =>
        eof := true;
      case Retry =>
      case Failure =>
        exited := true;
    }

    /**
     * `truncate_response`: cut the C string in the buffer at its first
     * newline and at 100 bytes, and return what is left of it.
     */
    method Truncate() returns (text: seq<char>)
      requires Valid() && buf[len] == '\0'
      modifies buf
      ensures buf[..len] == Cut(old(buf[..len])) && buf[len] == '\0'
      ensures text == Truncated(CString(old(buf[..len])))
    {
      ghost var d := buf[..len];
      var t := CString(buf[..len]);
      var e := |BeforeNewline(t)|;
      if e < |t| {
        buf[e] := '\0';
      }
      assert buf[..len] == if e < |t| then d[e := '\0'] else d;
      if |CString(buf[..len])| >= TRUNCATE_AT {
        buf[TRUNCATE_AT] := '\0';
      }
      assert buf[..len] == Cut(d);
      text := CString(buf[..len]);
      Pong61Properties.CutText(d);
    }

    /**
     * The loop of `receive_response_headers` and the status test after it,
     * with the socket's reads given as `input`.
     */
    method ReadHeaders(input: seq<ReadResult>) returns (outcome: Outcome)
      requires Valid() && buf[len] == '\0'
      requires forall k :: 0 <= k < |input| ==> ReadOk(input[k])
      modifies this, buf
      ensures Valid() && (buf == old(buf) || fresh(buf))
      ensures State() == HeadersLoop(old(State()), input).after
      ensures outcome == HeadersLoop(old(State()), input).outcome
    {
      ghost var spec := HeadersLoop(State(), input);
      var k := 0;
      ghost var c := State();
      var more := ProcessHeaders();
      while more
        invariant Valid() && (buf == old(buf) || fresh(buf))
        invariant 0 <= k <= |input| && buf[len] == '\0'
        invariant Pong61.ProcessHeaders(c) == Step(State(), more)
        invariant HeadersLoop(c, input[k..]) == spec
        decreases |input| - k
      {
        if k == |input| {
          return Starved;
        }
        var exited := ReadMore(input[k]);
        if exited {
          return Exited;
        }
        assert input[k..][1..] == input[k + 1..];
        k := k + 1;
        c := State();
        more := ProcessHeaders();
      }
      if status >= 500 {
        var message := Truncate();
        return Overloaded(message);
      }
      return Finished;
    }

    /**
     * `receive_response_headers`, with the socket's reads given as
     * `input`: read and parse until the headers are done, and on a status
     * of 500 or more exit with the truncated response.
     */
    method ReceiveResponseHeaders(input: seq<ReadResult>) returns (outcome: Outcome)
      requires Valid() && cstate != Idle && (len == 0 || buf[len] == '\0')
      requires forall k :: 0 <= k < |input| ==> ReadOk(input[k])
      modifies this, buf
      ensures Valid()
      ensures State() == ReceiveHeaders(old(State()), input).after
      ensures outcome == ReceiveHeaders(old(State()), input).outcome
    {
      if Code(cstate) < 0 {
        return Finished;
      }
      ghost var d := buf[..len];
      buf[0] := '\0';
      assert buf[..len] == if |d| > 0 then d[0 := '\0'] else d;
      outcome := ReadHeaders(input);
    }

    /**
     * `receive_response_body`, with the socket's reads given as `input`:
     * read until `check_response_body` says the response is complete.
     */
    method ReceiveResponseBody(input: seq<ReadResult>) returns (outcome: Outcome)
      requires Valid() && (Code(cstate) < 0 || cstate == Body)
      requires forall k :: 0 <= k < |input| ==> ReadOk(input[k])
      modifies this, buf
      ensures Valid()
      ensures State() == ReceiveBody(old(State()), input).after
      ensures outcome == ReceiveBody(old(State()), input).outcome
    {
      if Code(cstate) < 0 {
        return Finished;
      }
      ghost var spec := BodyLoop(State(), input);
      var k := 0;
      ghost var c := State();
      var more := CheckBody();
      while more
        invariant Valid() && (buf == old(buf) || fresh(buf)) && 0 <= k <= |input|
        invariant Pong61.CheckBody(c) == Step(State(), more)
        invariant BodyLoop(c, input[k..]) == spec
        decreases |input| - k
      {
        if k == |input| {
          return Starved;
        }
        var exited := ReadMore(input[k]);
        if exited {
          return Exited;
        }
        assert input[k..][1..] == input[k + 1..];
        k := k + 1;
        c := State();
        more := CheckBody();
      }
      return Finished;
    }
  }
}
