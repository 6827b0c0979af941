// The HTTP/1.0 response reader of the pong client (pset6/pong61.cc).
//
// An `http_connection` sends a POST request and then reads the server's
// response into a growing buffer. `process_response_headers` consumes
// complete CRLF-terminated lines from the front of the buffer: the
// Status-Line of section 6.1 of RFC 1945 first, then header fields, of
// which only Content-Length (section 10.4 of RFC 1945) is interpreted, with its name
// matched without regard to case (section 4.2 of RFC 1945), until the empty line.
// `check_response_body` then decides when the body is complete: when
// Content-Length bytes have arrived, or, without a Content-Length, when
// the server closes the connection (section 7.2.2 of RFC 1945).
//
// This module gives each of those steps as a function on a snapshot of the
// connection (`Conn`), together with the C library routines the parser
// relies on (`sscanf` with "%d", `strtoul` with base 0, `strncasecmp`,
// `strchr`). Module Pong61Properties proves what the parser accepts, and
// module Pong61Connection performs the same steps in place on a `buf`
// array that is doubled as the response grows.
module Pong61 {

  /** `BUFSIZ` of the C library: the initial buffer size and the read unit. */
  const BUFSIZ: int := 8192
  /** `ULONG_MAX` on a 64-bit target. */
  const ULONG_MAX: int := 0xFFFF_FFFF_FFFF_FFFF
  /** The header name `process_response_headers` looks for. */
  const CONTENT_LENGTH: seq<char> := "Content-Length: "
  /** The literal part of the `sscanf` format for the Status-Line. */
  const STATUS_PREFIX: seq<char> := "HTTP/1."
  /** `truncate_response` keeps at most this many characters. */
  const TRUNCATE_AT: int := 100

  datatype Option<T> = None | Some(value: T)

  /** `http_connection_state`. */
  datatype CState = Idle | Waiting | Headers | Body | Closed | Broken

  /** The enumerator values; the receive functions test `cstate_ < 0`. */
  function Code(s: CState): int
  {
    match s
    case Idle => 0
    case Waiting => 1
    case Headers => 2
    case Body => 3
    case Closed => -1
    case Broken => -2
  }

  /** The states in which `process_response_headers` still reads lines. */
  predicate InHeaders(s: CState)
  {
    s == Waiting || s == Headers
  }

  /**
   * The parser's view of an `http_connection`: the state, the status code,
   * the Content-Length and its flag, the EOF flag, and the `len_` bytes of
   * the response buffer.
   */
  datatype Conn = Conn(cstate: CState, status: int, contentLength: nat,
                       hasContentLength: bool, eof: bool, data: seq<char>)

  /** A result and whether the caller's read loop goes on. */
  datatype Step = Step(after: Conn, more: bool)

  // ---------------------------------------------------------------------
  // C library routines
  // ---------------------------------------------------------------------

  /** The C string starting at `s`: everything before the first NUL. */
  function CString(s: seq<char>): (r: seq<char>)
    ensures |r| <= |s|
  {
    if |s| == 0 || s[0] == '\0' then [] else [s[0]] + CString(s[1..])
  }

  /** `isspace` in the C locale. */
  predicate IsSpace(c: char)
  {
    c == ' ' || c == '\t' || c == '\n' || c == '\U{B}' || c == '\U{C}' || c == '\r'
  }

  /** Leading white space skipped, as `strtoul` and the `%d` conversion do. */
  function SkipSpace(s: seq<char>): seq<char>
  {
    if |s| > 0 && IsSpace(s[0]) then SkipSpace(s[1..]) else s
  }

  /** The value of an alphanumeric character as a digit; 36 for anything else. */
  function DigitValue(c: char): nat
  {
    if '0' <= c <= '9' then c as int - '0' as int
    else if 'a' <= c <= 'z' then c as int - 'a' as int + 10
    else if 'A' <= c <= 'Z' then c as int - 'A' as int + 10
    else 36
  }

  /** The length of the longest prefix of `s` made of digits in `base`. */
  function DigitRun(s: seq<char>, base: nat): (n: nat)
    ensures n <= |s|
  {
    if |s| > 0 && DigitValue(s[0]) < base then 1 + DigitRun(s[1..], base) else 0
  }

  /** The number the digits `s` denote in `base`, most significant first. */
  function Horner(s: seq<char>, base: nat): nat
  {
    if |s| == 0 then 0 else Horner(s[..|s| - 1], base) * base + DigitValue(s[|s| - 1])
  }

  /** The digits at the front of `u` in `base`, and their value. */
  function Prefix(u: seq<char>, base: nat): nat
  {
    Horner(u[..DigitRun(u, base)], base)
  }

  /**
   * The number `strtoul` with base 0 reads after the sign: hexadecimal
   * after "0x" or "0X", octal after "0", decimal otherwise.
   */
  function Magnitude(u: seq<char>): nat
  {
    if |u| >= 2 && u[0] == '0' && (u[1] == 'x' || u[1] == 'X') then Prefix(u[2..], 16)
    else if |u| > 0 && u[0] == '0' then Prefix(u, 8)
    else Prefix(u, 10)
  }

  /**
   * `strtoul(s, nullptr, 0)`: white space, an optional sign, then the
   * magnitude; no digits give 0, a value beyond `ULONG_MAX` gives
   * `ULONG_MAX`, and a minus sign negates modulo 2^64.
   */
  function StrToUL(s: seq<char>): (r: nat)
    ensures r <= ULONG_MAX
  {
    var t := SkipSpace(s);
    var neg := |t| > 0 && t[0] == '-';
    var v := Magnitude(if |t| > 0 && (t[0] == '-' || t[0] == '+') then t[1..] else t);
    if v > ULONG_MAX then ULONG_MAX
    else if neg && v > 0 then ULONG_MAX + 1 - v
    else v
  }

  /** A converted number and the input left after it. */
  datatype Scanned = Scanned(value: int, rest: seq<char>)

  /**
   * One "%d" conversion of `sscanf`: white space, an optional sign and at
   * least one decimal digit; `None` when there is no digit.
   */
  function ScanInt(s: seq<char>): (r: Option<Scanned>)
  {
    var t := SkipSpace(s);
    var neg := |t| > 0 && t[0] == '-';
    var u := if |t| > 0 && (t[0] == '-' || t[0] == '+') then t[1..] else t;
    var n := DigitRun(u, 10);
    if n == 0 then None
    else
      var v: int := Horner(u[..n], 10);
      Some(Scanned(if neg then -v else v, u[n..]))
  }

  /**
   * `sscanf(s, "HTTP/1.%d %d", &minor, &status) == 2`: the status code when
   * both conversions succeed. The blank in the format matches any white
   * space, which the second "%d" would skip anyway.
   */
  function ScanStatus(s: seq<char>): (r: Option<int>)
  {
    if |s| < |STATUS_PREFIX| || s[..|STATUS_PREFIX|] != STATUS_PREFIX then None
    else
      match ScanInt(s[|STATUS_PREFIX|..])
      case None => None
      case Some(minor) =>
        match ScanInt(SkipSpace(minor.rest))
        case None => None
        case Some(code) => Some(code.value)
  }

  /** `tolower` in the C locale. */
  function Lower(c: char): char
  {
    if 'A' <= c <= 'Z' then (c as int - 'A' as int + 'a' as int) as char else c
  }

  /** `strncasecmp(s, p, |p|) == 0` for a pattern `p` without NUL. */
  predicate StartsWithNoCase(s: seq<char>, p: seq<char>)
  {
    |s| >= |p| && forall k :: 0 <= k < |p| ==> Lower(s[k]) == Lower(p[k])
  }

  // ---------------------------------------------------------------------
  // process_response_headers
  // ---------------------------------------------------------------------

  /** The bytes at `i` and `i + 1` are CR LF. */
  predicate CRLFAt(d: seq<char>, i: int)
  {
    0 <= i && i + 1 < |d| && d[i] == '\r' && d[i + 1] == '\n'
  }

  /** The first CR LF at or after `i`, or -1: the scan of the header loop. */
  function FindCRLF(d: seq<char>, i: nat): (r: int)
    requires i <= |d|
    decreases |d| - i
    ensures r == -1 || (i <= r && CRLFAt(d, r))
    ensures forall k :: i <= k && (r == -1 || k < r) ==> !CRLFAt(d, k)
  {
    if i + 2 > |d| then -1 else if CRLFAt(d, i) then i else FindCRLF(d, i + 1)
  }

  /** A CR LF at `i` with none before it is the first one. */
  lemma {:induction false} FirstCRLFAt(d: seq<char>, i: int)
    requires CRLFAt(d, i)
    requires forall k :: 0 <= k < i ==> !CRLFAt(d, k)
    ensures FindCRLF(d, 0) == i
  {
  }

  /** Consuming from the first CR LF at `i` drops that line and goes on. */
  lemma {:induction false} ConsumeAt(c: Conn, i: int, next: Conn)
    requires InHeaders(c.cstate) && CRLFAt(c.data, i)
    requires forall k :: 0 <= k < i ==> !CRLFAt(c.data, k)
    requires next == HeaderLine(c, c.data[..i]).(data := c.data[i + 2..])
    ensures Consume(next) == Consume(c)
  {
    FirstCRLFAt(c.data, i);
  }

  /** No CR LF before `i` and no room for one after it: there is none. */
  lemma {:induction false} NoCRLF(d: seq<char>, i: nat)
    requires i + 2 > |d|
    requires forall k :: 0 <= k < i ==> !CRLFAt(d, k)
    ensures FindCRLF(d, 0) == -1
  {
  }

  /**
   * What one line (without its CR LF) does to the connection: the first
   * line must be a Status-Line, an empty line ends the headers, and a
   * Content-Length field sets the body length.
   */
  function HeaderLine(c: Conn, line: seq<char>): (r: Conn)
    requires InHeaders(c.cstate)
  {
    var text := CString(line);
    if c.cstate == Waiting then
      match ScanStatus(text)
      case Some(code) => c.(cstate := Headers, status := code)
      case None => c.(cstate := Broken)
    else if |line| == 0 then c.(cstate := Body)
    else if StartsWithNoCase(text, CONTENT_LENGTH) then
      c.(contentLength := StrToUL(text[|CONTENT_LENGTH|..]), hasContentLength := true)
    else c
  }

  /** A header line changes only the parsed fields, never the data. */
  lemma {:induction false} HeaderLineKeepsData(c: Conn, line: seq<char>)
    requires InHeaders(c.cstate)
    ensures HeaderLine(c, line) == HeaderLine(c.(data := []), line).(data := c.data)
  {
  }

  /** The header loop: complete lines are consumed while the state is Waiting or Headers. */
  function Consume(c: Conn): (r: Conn)
    decreases |c.data|
  {
    if !InHeaders(c.cstate) then c
    else
      var i := FindCRLF(c.data, 0);
      if i < 0 then c
      else Consume(HeaderLine(c, c.data[..i]).(data := c.data[i + 2..]))
  }

  /**
   * The header loop keeps the EOF flag, consumes a prefix of the bytes,
   * and stops in Waiting or Headers only when no complete line is left.
   */
  lemma {:induction false} ConsumeShape(c: Conn)
    decreases |c.data|
    ensures Consume(c).eof == c.eof
    ensures InHeaders(Consume(c).cstate) ==> FindCRLF(Consume(c).data, 0) == -1
    ensures var r := Consume(c); |r.data| <= |c.data| && r.data == c.data[|c.data| - |r.data|..]
  {
    if InHeaders(c.cstate) {
      var i := FindCRLF(c.data, 0);
      if i >= 0 {
        var c' := HeaderLine(c, c.data[..i]).(data := c.data[i + 2..]);
        ConsumeShape(c');
        var r := Consume(c');
        assert c'.data[|c'.data| - |r.data|..] == c.data[|c.data| - |r.data|..];
      }
    }
  }

  /** `process_response_headers`: the header loop, then EOF breaks the connection. */
  function ProcessHeaders(c: Conn): (s: Step)
  {
    var d := Consume(c);
    var e := if c.eof then d.(cstate := Broken) else d;
    Step(e, InHeaders(e.cstate))
  }

  /**
   * After `process_response_headers` the caller reads more only if the
   * connection is open and no complete line is left; at EOF the connection
   * is broken; the buffer keeps a suffix of its bytes.
   */
  lemma {:induction false} ProcessHeadersShape(c: Conn)
    ensures var s := ProcessHeaders(c); s.more ==> !c.eof && FindCRLF(s.after.data, 0) == -1
    ensures var s := ProcessHeaders(c); c.eof ==> s.after.cstate == Broken && !s.more
    ensures var s := ProcessHeaders(c);
            |s.after.data| <= |c.data| && s.after.data == c.data[|c.data| - |s.after.data|..]
  {
    ConsumeShape(c);
  }

  // ---------------------------------------------------------------------
  // check_response_body, send_request, reads, truncate_response
  // ---------------------------------------------------------------------

  /**
   * `check_response_body`: a body is complete once Content-Length bytes
   * are there, provided the length is known or the server has closed the
   * connection; at EOF a complete exchange becomes Closed and any other
   * unfinished one Broken.
   */
  function CheckBody(c: Conn): (s: Step)
  {
    var c1 := if c.cstate == Body && (c.hasContentLength || c.eof) && |c.data| >= c.contentLength
              then c.(cstate := Idle) else c;
    var c2 := if !c1.eof then c1
              else if c1.cstate == Idle then c1.(cstate := Closed)
              else if c1.cstate != Closed then c1.(cstate := Broken)
              else c1;
    Step(c2, c2.cstate == Body)
  }

  /** The response fields `send_request` clears after writing the request. */
  function SendRequest(c: Conn): (r: Conn)
    requires c.cstate == Idle
  {
    c.(cstate := Waiting, status := -1, contentLength := 0, hasContentLength := false, data := [])
  }

  /**
   * What one `read(fd, &buf_[len_], BUFSIZ - 1)` returned: some bytes, 0
   * (end of file), -1 with EINTR or EAGAIN, or -1 with another error, on
   * which the program exits.
   */
  datatype ReadResult = Bytes(got: seq<char>) | EndOfFile | Retry | Failure

  predicate ReadOk(r: ReadResult)
  {
    r.Bytes? ==> 0 < |r.got| <= BUFSIZ - 1
  }

  /** The connection after a read. */
  function ReadInto(c: Conn, r: ReadResult): (d: Conn)
  {
    match r
    case Bytes(got) => c.(data := c.data + got)
    case EndOfFile => c.(eof := true)
    case Retry => c
    case Failure => c
  }

  /**
   * The buffer size after the growth test of the read loops: doubled when a
   * full read and its terminating NUL might not fit.
   */
  function Grown(len: int, bufsize: int): int
  {
    if len + BUFSIZ > bufsize then 2 * bufsize else bufsize
  }

  /** The text before the first newline. */
  function BeforeNewline(t: seq<char>): (r: seq<char>)
    ensures r <= t && '\n' !in r
    ensures |r| < |t| ==> t[|r|] == '\n'
  {
    if |t| == 0 || t[0] == '\n' then [] else [t[0]] + BeforeNewline(t[1..])
  }

  /** The text `truncate_response` returns for the C string `t`. */
  function Truncated(t: seq<char>): (r: seq<char>)
  {
    var u := BeforeNewline(t);
    if |u| >= TRUNCATE_AT then u[..TRUNCATE_AT] else u
  }

  /**
   * The `len_` buffer bytes after `truncate_response` (the byte at `len_`
   * is a NUL): the first newline of the C string is overwritten with NUL,
   * and so is the byte at index 100 if the C string is still that long.
   */
  function Cut(d: seq<char>): (r: seq<char>)
    ensures |r| == |d|
  {
    var t := CString(d);
    var e := |BeforeNewline(t)|;
    var d1 := if e < |t| then d[e := '\0'] else d;
    if |CString(d1)| >= TRUNCATE_AT && TRUNCATE_AT < |d1| then d1[TRUNCATE_AT := '\0'] else d1
  }

  // ---------------------------------------------------------------------
  // receive_response_headers and receive_response_body
  // ---------------------------------------------------------------------

  /**
   * How a receive function ends: normally, by exiting after a status of
   * 500 or more (with the truncated response as the message), by exiting
   * on a read error, or, in the model only, because the list of reads the
   * socket delivers ran out.
   */
  datatype Outcome = Finished | Overloaded(message: seq<char>) | Exited | Starved

  datatype Received = Received(after: Conn, outcome: Outcome)

  /** The loop `while (process_response_headers()) { grow; read; }` and the status test after it. */
  function HeadersLoop(c: Conn, input: seq<ReadResult>): (r: Received)
    decreases |input|
  {
    var s := ProcessHeaders(c);
    if !s.more then
      if s.after.status >= 500 then
        Received(s.after.(data := Cut(s.after.data)), Overloaded(Truncated(CString(s.after.data))))
      else Received(s.after, Finished)
    else if |input| == 0 then Received(s.after, Starved)
    else if input[0].Failure? then Received(s.after, Exited)
    else HeadersLoop(ReadInto(s.after, input[0]), input[1..])
  }

  /** `receive_response_headers` on a connection that has sent its request. */
  function ReceiveHeaders(c: Conn, input: seq<ReadResult>): (r: Received)
    requires c.cstate != Idle
  {
    if Code(c.cstate) < 0 then Received(c, Finished)
    else HeadersLoop(c.(data := if |c.data| > 0 then c.data[0 := '\0'] else c.data), input)
  }

  /** The loop `while (check_response_body()) { grow; read; }`. */
  function BodyLoop(c: Conn, input: seq<ReadResult>): (r: Received)
    decreases |input|
  {
    var s := CheckBody(c);
    if !s.more then Received(s.after, Finished)
    else if |input| == 0 then Received(s.after, Starved)
    else if input[0].Failure? then Received(s.after, Exited)
    else BodyLoop(ReadInto(s.after, input[0]), input[1..])
  }

  /** `receive_response_body` on a connection whose headers are done. */
  function ReceiveBody(c: Conn, input: seq<ReadResult>): (r: Received)
    requires Code(c.cstate) < 0 || c.cstate == Body
  {
    if Code(c.cstate) < 0 then Received(c, Finished) else BodyLoop(c, input)
  }
}
