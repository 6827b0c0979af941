// What the pong client's response parser accepts and how a response ends
// (pset6/pong61.cc): a well-formed HTTP/1.0 response is parsed into its
// status code, its Content-Length and its body; field names are matched
// without regard to case; the body ends by length or by the server
// closing the connection; and `truncate_response` yields at most one line
// of at most 100 characters.
module Pong61Properties {
  import opened Pong61

  /** The decimal digit character for `d`. */
  function DigitChar(d: nat): char
    requires d < 10
  {
    ('0' as int + d) as char
  }

  /** The decimal numeral for `n`, without leading zeros. */
  function Dec(n: nat): (s: seq<char>)
    decreases n
    ensures |s| >= 1
    ensures forall k :: 0 <= k < |s| ==> '0' <= s[k] <= '9'
    ensures n >= 1 ==> s[0] != '0'
  {
    if n < 10 then [DigitChar(n)] else Dec(n / 10) + [DigitChar(n % 10)]
  }

  /** The numeral denotes its number. */
  lemma {:induction false} DecValue(n: nat)
    decreases n
    ensures Horner(Dec(n), 10) == n
  {
    if n >= 10 {
      var s := Dec(n);
      assert s[..|s| - 1] == Dec(n / 10);
      DecValue(n / 10);
    }
  }

  /** A status line "HTTP/1.<minor> <code><reason>". */
  function StatusLine(minor: nat, code: nat, reason: seq<char>): seq<char>
  {
    STATUS_PREFIX + Dec(minor) + " " + Dec(code) + reason
  }

  /** Header lines, each followed by CR LF. */
  function Fields(fs: seq<seq<char>>): seq<char>
  {
    if |fs| == 0 then [] else fs[0] + "\r\n" + Fields(fs[1..])
  }

  /** A header line the parser skips: not empty, no CR, and not a Content-Length field. */
  predicate Ignorable(f: seq<char>)
  {
    |f| > 0 && '\r' !in f && !StartsWithNoCase(CString(f), CONTENT_LENGTH)
  }

  /** A complete response with a Content-Length of `n`. */
  function Response(minor: nat, code: nat, reason: seq<char>, fs: seq<seq<char>>, n: nat,
                    body: seq<char>): seq<char>
  {
    StatusLine(minor, code, reason) + "\r\n" + Fields(fs) + CONTENT_LENGTH + Dec(n) + "\r\n"
      + "\r\n" + body
  }

  // ---------------------------------------------------------------------
  // The C library routines
  // ---------------------------------------------------------------------

  /** The C string is the longest prefix without NUL. */
  lemma {:induction false} CStringShape(s: seq<char>)
    ensures CString(s) <= s && '\0' !in CString(s)
    ensures |CString(s)| < |s| ==> s[|CString(s)|] == '\0'
  {
    if |s| > 0 && s[0] != '\0' {
      CStringShape(s[1..]);
      assert CString(s) == [s[0]] + CString(s[1..]);
    }
  }

  lemma {:induction false} CStringWhole(s: seq<char>)
    requires '\0' !in s
    ensures CString(s) == s
  {
    if |s| > 0 {
      CStringWhole(s[1..]);
    }
  }

  /** Writing a NUL inside a C string cuts it there. */
  lemma {:induction false} CStringCut(d: seq<char>, e: int)
    requires 0 <= e <= |CString(d)| && e < |d|
    ensures CString(d[e := '\0']) == CString(d)[..e]
  {
    if e > 0 {
      assert d[0] != '\0';
      assert d[e := '\0'][1..] == d[1..][e - 1 := '\0'];
      CStringCut(d[1..], e - 1);
    }
  }

  lemma {:induction false} SkipNone(s: seq<char>)
    requires |s| == 0 || !IsSpace(s[0])
    ensures SkipSpace(s) == s
  {
  }

  lemma {:induction false} SkipBlank(s: seq<char>)
    requires |s| > 0 && !IsSpace(s[0])
    ensures SkipSpace([' '] + s) == s
  {
    assert ([' '] + s)[1..] == s;
  }

  /** The digit run of digits followed by a non-digit is exactly those digits. */
  lemma {:induction false} RunOf(d: seq<char>, rest: seq<char>, base: nat)
    requires forall k :: 0 <= k < |d| ==> DigitValue(d[k]) < base
    requires |rest| == 0 || DigitValue(rest[0]) >= base
    ensures DigitRun(d + rest, base) == |d|
  {
    if |d| > 0 {
      assert (d + rest)[0] == d[0];
      assert (d + rest)[1..] == d[1..] + rest;
      RunOf(d[1..], rest, base);
    } else {
      assert d + rest == rest;
    }
  }

  /** The magnitude of a decimal numeral is its number. */
  lemma {:induction false} MagnitudeDec(n: nat)
    ensures Magnitude(Dec(n)) == n
  {
    var s := Dec(n);
    assert s + [] == s;
    if n == 0 {
      assert s == "0";
      RunOf(s, [], 8);
      assert s[..1] == s && s[..0] == [];
      assert Horner(s, 8) == Horner([], 8) * 8 + DigitValue(s[0]);
    } else {
      RunOf(s, [], 10);
      assert s[..|s|] == s;
      DecValue(n);
    }
  }

  /** `strtoul` reads back a decimal numeral. */
  lemma {:induction false} StrToULDec(n: nat)
    requires n <= ULONG_MAX
    ensures StrToUL(Dec(n)) == n
  {
    var s := Dec(n);
    assert SkipSpace(s) == s by { SkipNone(s); }
    MagnitudeDec(n);
  }

  /** A "%d" conversion reads a decimal numeral followed by a non-digit. */
  lemma {:induction false} ScanDec(n: nat, rest: seq<char>)
    requires |rest| == 0 || DigitValue(rest[0]) >= 10
    ensures ScanInt(Dec(n) + rest) == Some(Scanned(n, rest))
  {
    var s := Dec(n) + rest;
    SkipNone(s);
    RunOf(Dec(n), rest, 10);
    assert s[..|Dec(n)|] == Dec(n);
    assert s[|Dec(n)|..] == rest;
    DecValue(n);
  }

  lemma {:induction false} StatusLineShape(minor: nat, code: nat, reason: seq<char>)
    ensures var s := StatusLine(minor, code, reason);
            |s| >= |STATUS_PREFIX| && s[..|STATUS_PREFIX|] == STATUS_PREFIX
            && s[|STATUS_PREFIX|..] == Dec(minor) + ([' '] + (Dec(code) + reason))
  {
    var s := StatusLine(minor, code, reason);
    assert s == STATUS_PREFIX + (Dec(minor) + ([' '] + (Dec(code) + reason)));
  }

  /** The `sscanf` test accepts every HTTP/1.x status line and yields its code. */
  lemma {:induction false} StatusLineScans(minor: nat, code: nat, reason: seq<char>)
    requires |reason| == 0 || DigitValue(reason[0]) >= 10
    ensures ScanStatus(StatusLine(minor, code, reason)) == Some(code)
  {
    var x := Dec(code) + reason;
    StatusLineShape(minor, code, reason);
    ScanDec(minor, [' '] + x);
    SkipBlank(x);
    ScanDec(code, reason);
  }

  /** A first line that does not start with "HTTP/1." breaks the connection. */
  lemma {:induction false} NotHttp1Breaks(c: Conn, line: seq<char>)
    requires c.cstate == Waiting
    requires '\0' !in line && (|line| < |STATUS_PREFIX| || line[..|STATUS_PREFIX|] != STATUS_PREFIX)
    ensures HeaderLine(c, line) == c.(cstate := Broken)
  {
    CStringWhole(line);
  }

  /** Base 0 reads a leading zero as octal: "010" is 8, not the 10 of section 10.4 of RFC 1945. */
  lemma {:induction false} LeadingZeroIsOctal()
    ensures StrToUL("010") == 8
  {
    var s := "010";
    assert SkipSpace(s) == s by { SkipNone(s); }
    assert Prefix(s, 8) == 8 by {
      RunOf(s, [], 8);
      assert s + [] == s;
      assert s[..3] == s && s[..2] == "01" && "01"[..1] == "0" && "0"[..0] == [];
    }
  }

  /** A negative Content-Length wraps around modulo 2^64. */
  lemma {:induction false} MinusOneWraps()
    ensures StrToUL("-1") == ULONG_MAX
  {
    var s := "-1";
    SkipNone(s);
    assert s[1..] == "1";
    RunOf("1", [], 10);
    assert "1" + [] == "1";
  }

  // ---------------------------------------------------------------------
  // process_response_headers
  // ---------------------------------------------------------------------

  /** The header loop takes the line before the first CR LF, then goes on with the rest. */
  lemma {:induction false} FirstCRLF(line: seq<char>, rest: seq<char>)
    requires '\r' !in line
    ensures var d := line + "\r\n" + rest;
            FindCRLF(d, 0) == |line| && d[..|line|] == line && d[|line| + 2..] == rest
  {
    var d := line + "\r\n" + rest;
    assert CRLFAt(d, |line|);
    forall k | 0 <= k < |line|
      ensures !CRLFAt(d, k)
    {
      assert d[k] == line[k];
    }
    assert d[..|line|] == line;
    assert d[|line| + 2..] == rest;
  }

  /** A line's effect does not depend on the bytes in the buffer. */
  lemma {:induction false} HeaderLineData(c: Conn, d: seq<char>, line: seq<char>, rest: seq<char>)
    requires InHeaders(c.cstate)
    ensures HeaderLine(c.(data := d), line).(data := rest) == HeaderLine(c, line).(data := rest)
  {
  }

  lemma {:induction false} ConsumeLine(c: Conn, line: seq<char>, rest: seq<char>)
    requires InHeaders(c.cstate) && '\r' !in line
    ensures Consume(c.(data := line + "\r\n" + rest)) == Consume(HeaderLine(c, line).(data := rest))
  {
    var d := line + "\r\n" + rest;
    FirstCRLF(line, rest);
    var c1 := c.(data := d);
    assert Consume(c1) == Consume(HeaderLine(c1, line).(data := rest));
    HeaderLineData(c, d, line, rest);
  }

  /** Header fields other than Content-Length are skipped. */
  lemma {:induction false} FieldsIgnored(c: Conn, fs: seq<seq<char>>, rest: seq<char>)
    requires c.cstate == Headers
    requires forall k :: 0 <= k < |fs| ==> Ignorable(fs[k])
    decreases |fs|
    ensures Consume(c.(data := Fields(fs) + rest)) == Consume(c.(data := rest))
  {
    if |fs| > 0 {
      var tail := Fields(fs[1..]) + rest;
      assert Fields(fs) + rest == fs[0] + "\r\n" + tail;
      assert HeaderLine(c, fs[0]) == c by {
        assert Ignorable(fs[0]);
      }
      ConsumeLine(c, fs[0], tail);
      FieldsIgnored(c, fs[1..], rest);
    } else {
      assert Fields(fs) + rest == rest;
    }
  }

  /** The Content-Length field, in any letter case, sets the body length. */
  lemma {:induction false} ContentLengthLine(c: Conn, name: seq<char>, v: seq<char>)
    requires c.cstate == Headers && |name| == |CONTENT_LENGTH|
    requires forall k :: 0 <= k < |name| ==> Lower(name[k]) == Lower(CONTENT_LENGTH[k])
    requires '\0' !in name + v
    ensures HeaderLine(c, name + v) == c.(contentLength := StrToUL(v), hasContentLength := true)
  {
    var line := name + v;
    CStringWhole(line);
    assert line[..|name|] == name;
    assert line[|CONTENT_LENGTH|..] == v;
  }

  /** An empty line ends the headers; the bytes after it are the body. */
  lemma {:induction false} EmptyLine(c: Conn, body: seq<char>)
    requires c.cstate == Headers
    ensures Consume(c.(data := "\r\n" + body)) == c.(cstate := Body, data := body)
  {
    assert [] + "\r\n" + body == "\r\n" + body;
    ConsumeLine(c, [], body);
  }

  /** The exact field "Content-Length: <n>". */
  lemma {:induction false} LengthLine(c: Conn, n: nat)
    requires c.cstate == Headers && n <= ULONG_MAX
    ensures '\r' !in CONTENT_LENGTH + Dec(n)
    ensures HeaderLine(c, CONTENT_LENGTH + Dec(n)) == c.(contentLength := n, hasContentLength := true)
  {
    assert forall k :: 0 <= k < |CONTENT_LENGTH| ==> Lower(CONTENT_LENGTH[k]) == Lower(CONTENT_LENGTH[k]);
    assert '\0' !in CONTENT_LENGTH + Dec(n);
    ContentLengthLine(c, CONTENT_LENGTH, Dec(n));
    StrToULDec(n);
  }

  lemma {:induction false} Regroup(a: seq<char>, b: seq<char>, d: seq<char>, e: seq<char>, f: seq<char>, g: seq<char>)
    ensures a + b + d + e + f + g == a + ((b + d) + e + (f + g))
  {
  }

  /** The Content-Length field, the empty line and the body of a response. */
  lemma {:induction false} HeadPart(c: Conn, fs: seq<seq<char>>, n: nat, body: seq<char>)
    requires c.cstate == Headers && n <= ULONG_MAX
    requires forall k :: 0 <= k < |fs| ==> Ignorable(fs[k])
    ensures Consume(c.(data := Fields(fs) + CONTENT_LENGTH + Dec(n) + "\r\n" + "\r\n" + body))
            == c.(cstate := Body, contentLength := n, hasContentLength := true, data := body)
  {
    var line := CONTENT_LENGTH + Dec(n);
    var rest := line + "\r\n" + ("\r\n" + body);
    Regroup(Fields(fs), CONTENT_LENGTH, Dec(n), "\r\n", "\r\n", body);
    FieldsIgnored(c, fs, rest);
    var c3 := c.(contentLength := n, hasContentLength := true);
    LengthLine(c, n);
    ConsumeLine(c, line, "\r\n" + body);
    EmptyLine(c3, body);
  }

  /**
   * A well-formed response with a Content-Length is parsed into its status
   * code, its length and its body, and the headers are done.
   */
  lemma {:induction false} ResponseParses(c: Conn, minor: nat, code: nat, reason: seq<char>, fs: seq<seq<char>>,
                       n: nat, body: seq<char>)
    requires c.cstate == Waiting && !c.eof && n <= ULONG_MAX
    requires |reason| == 0 || DigitValue(reason[0]) >= 10
    requires '\r' !in reason && '\0' !in reason
    requires forall k :: 0 <= k < |fs| ==> Ignorable(fs[k])
    ensures ProcessHeaders(c.(data := Response(minor, code, reason, fs, n, body)))
            == Step(c.(cstate := Body, status := code, contentLength := n, hasContentLength := true,
                       data := body), false)
  {
    var sl := StatusLine(minor, code, reason);
    var rest := Fields(fs) + CONTENT_LENGTH + Dec(n) + "\r\n" + "\r\n" + body;
    assert Response(minor, code, reason, fs, n, body) == sl + "\r\n" + rest;
    assert '\r' !in sl && '\0' !in sl;
    ConsumeLine(c, sl, rest);
    CStringWhole(sl);
    StatusLineScans(minor, code, reason);
    HeadPart(c.(cstate := Headers, status := code), fs, n, body);
  }

  /** Processing again without new bytes changes nothing. */
  lemma {:induction false} ProcessHeadersIdempotent(c: Conn)
    ensures ProcessHeaders(ProcessHeaders(c).after) == ProcessHeaders(c)
  {
    ConsumeShape(c);
  }

  // ---------------------------------------------------------------------
  // check_response_body
  // ---------------------------------------------------------------------

  /** With a Content-Length, the body is complete once that many bytes are there. */
  lemma {:induction false} BodyCompleteByLength(c: Conn)
    requires c.cstate == Body && c.hasContentLength && !c.eof
    ensures CheckBody(c).more <==> |c.data| < c.contentLength
    ensures !CheckBody(c).more ==> CheckBody(c).after == c.(cstate := Idle)
  {
  }

  /** Without a Content-Length, the body is complete when the server closes the connection. */
  lemma {:induction false} BodyDelimitedByClose(c: Conn)
    requires c.cstate == Body && !c.hasContentLength && c.contentLength == 0
    ensures CheckBody(c).more <==> !c.eof
    ensures c.eof ==> CheckBody(c).after == c.(cstate := Closed)
  {
  }

  /** A connection closed before Content-Length bytes arrived is broken. */
  lemma {:induction false} ShortBodyBroken(c: Conn)
    requires c.cstate == Body && c.hasContentLength && c.eof && |c.data| < c.contentLength
    ensures CheckBody(c) == Step(c.(cstate := Broken), false)
  {
  }

  /** At end of file every connection is finished: closed or broken. */
  lemma {:induction false} EofFinishes(c: Conn)
    requires c.eof
    ensures CheckBody(c).after.cstate == Closed || CheckBody(c).after.cstate == Broken
    ensures !CheckBody(c).more && CheckBody(c).after.data == c.data
  {
  }

  lemma {:induction false} CheckBodyIdempotent(c: Conn)
    ensures CheckBody(CheckBody(c).after) == CheckBody(c)
  {
  }

  /** A complete response leaves the connection idle, ready for the next request. */
  lemma {:induction false} ResponseCompletes(c: Conn, minor: nat, code: nat, reason: seq<char>, fs: seq<seq<char>>,
                          n: nat, body: seq<char>)
    requires c.cstate == Waiting && !c.eof && n <= ULONG_MAX && |body| >= n
    requires |reason| == 0 || DigitValue(reason[0]) >= 10
    requires '\r' !in reason && '\0' !in reason
    requires forall k :: 0 <= k < |fs| ==> Ignorable(fs[k])
    ensures var s := ProcessHeaders(c.(data := Response(minor, code, reason, fs, n, body)));
            CheckBody(s.after)
            == Step(c.(cstate := Idle, status := code, contentLength := n, hasContentLength := true,
                       data := body), false)
  {
    ResponseParses(c, minor, code, reason, fs, n, body);
  }

  /** `send_request` starts a fresh exchange: no status, no length, no bytes. */
  lemma {:induction false} SendThenNothing(c: Conn)
    requires c.cstate == Idle && !c.eof
    ensures ProcessHeaders(SendRequest(c)) == Step(SendRequest(c), true)
  {
  }

  // ---------------------------------------------------------------------
  // The read loops and truncate_response
  // ---------------------------------------------------------------------

  /** After the growth test a full read and its NUL fit, and the size stays at least `BUFSIZ`. */
  lemma {:induction false} GrowthRoom(len: int, bufsize: int, got: nat)
    requires BUFSIZ <= bufsize && 0 <= len < bufsize && got <= BUFSIZ - 1
    ensures BUFSIZ <= Grown(len, bufsize) && len + got < Grown(len, bufsize)
    ensures Grown(len, bufsize) == bufsize || Grown(len, bufsize) == 2 * bufsize
  {
  }

  /** `receive_response_headers`, when it returns, leaves the headers done. */
  lemma {:induction false} HeadersLoopEnds(c: Conn, input: seq<ReadResult>)
    decreases |input|
    ensures var r := HeadersLoop(c, input);
            (r.outcome == Finished || r.outcome.Overloaded?) ==> !InHeaders(r.after.cstate)
    ensures var r := HeadersLoop(c, input);
            r.outcome.Overloaded? <==> (r.outcome != Starved && r.outcome != Exited && r.after.status >= 500)
  {
    var s := ProcessHeaders(c);
    if s.more && |input| > 0 && !input[0].Failure? {
      HeadersLoopEnds(ReadInto(s.after, input[0]), input[1..]);
    }
  }

  /** `receive_response_body`, when it returns, leaves no body pending. */
  lemma {:induction false} BodyLoopEnds(c: Conn, input: seq<ReadResult>)
    decreases |input|
    ensures var r := BodyLoop(c, input);
            r.outcome == Finished ==> r.after.cstate != Body
    ensures !BodyLoop(c, input).outcome.Overloaded?
  {
    var s := CheckBody(c);
    if s.more && |input| > 0 && !input[0].Failure? {
      BodyLoopEnds(ReadInto(s.after, input[0]), input[1..]);
    }
  }

  /** The reads append their bytes, in order, to the response buffer. */
  lemma {:induction false} BodyLoopKeepsBytes(c: Conn, input: seq<ReadResult>)
    decreases |input|
    ensures |BodyLoop(c, input).after.data| >= |c.data|
    ensures BodyLoop(c, input).after.data[..|c.data|] == c.data
  {
    var s := CheckBody(c);
    if s.more && |input| > 0 && !input[0].Failure? {
      var c' := ReadInto(s.after, input[0]);
      BodyLoopKeepsBytes(c', input[1..]);
      assert c'.data[..|c.data|] == c.data;
    }
  }

  /** `truncate_response` yields at most one line of at most 100 characters, from the front. */
  lemma {:induction false} TruncatedShape(t: seq<char>)
    ensures |Truncated(t)| <= TRUNCATE_AT && '\n' !in Truncated(t) && Truncated(t) <= t
    ensures '\n' !in t && |t| <= TRUNCATE_AT ==> Truncated(t) == t
  {
    var u := BeforeNewline(t);
    if |u| >= TRUNCATE_AT {
      assert u[..TRUNCATE_AT] <= u;
    }
    if '\n' !in t {
      assert u == t;
    }
  }

  /** The bytes `truncate_response` leaves spell the truncated text. */
  lemma {:induction false} CutText(d: seq<char>)
    ensures CString(Cut(d)) == Truncated(CString(d))
  {
    var t := CString(d);
    var u := BeforeNewline(t);
    var e := |u|;
    var d1 := if e < |t| then d[e := '\0'] else d;
    if e < |t| {
      CStringCut(d, e);
      assert t[..e] == u;
    }
    assert CString(d1) == u;
    if |u| >= TRUNCATE_AT && TRUNCATE_AT < |d1| {
      CStringCut(d1, TRUNCATE_AT);
    }
  }
}
