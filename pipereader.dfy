// The line-reading loop of a WeensyOS user process (lectures/kernel8/p-pipereader.cc).
//
// The process reads from the kernel's one-byte pipe into a 200-byte buffer
// until the buffered bytes hold a newline, prints the message up to and
// including it, and shifts the rest down. The system call is answered as
// `syscall_piperead` in kernel8/kernel.cc answers it; what the kernel pipe
// holds at each successive call is an input of the model.
module PipeReaderProcess {
  import opened WeensyCommon

  const BUFCAP: nat := 200
  const NEWLINE: byte := 10

  /** `memchr(buf, '\n', buflen)`: the first newline, if any. */
  function FirstNewline(s: seq<byte>): (r: Option<nat>)
    ensures r.Some? ==> r.value < |s| && s[r.value] == NEWLINE && NEWLINE !in s[..r.value]
    ensures r.None? <==> NEWLINE !in s
  {
    if |s| == 0 then None
    else if s[0] == NEWLINE then Some(0)
    else
      var r := FirstNewline(s[1..]);
      assert s == [s[0]] + s[1..];
      if r.None? then None
      else
        assert s[..r.value + 1] == [s[0]] + s[1..][..r.value];
        Some(r.value + 1)
  }

  /**
   * `syscall_piperead` with room `room` and the one-byte kernel pipe holding
   * `pipe`: 0 when there is no room, -1 when the pipe is empty, else 1.
   */
  function PipeReadReply(room: nat, pipe: Option<byte>): (r: int)
    ensures r == 0 <==> room == 0
    ensures r == 1 <==> room > 0 && pipe.Some?
    ensures r == -1 <==> room > 0 && pipe.None?
  {
    if room == 0 then 0 else if pipe.None? then -1 else 1
  }

  /** The bytes that calls with room delivered, in order: one per full pipe. */
  function Received(calls: seq<Option<byte>>): (s: seq<byte>)
    ensures |s| <= |calls|
  {
    if |calls| == 0 then []
    else
      var last := calls[|calls| - 1];
      Received(calls[..|calls| - 1]) + (if last.Some? then [last.value] else [])
  }

  /** One more call delivers its byte after the earlier ones, if the pipe held one. */
  lemma {:induction false} ReceivedSnoc(pipe: seq<Option<byte>>, k: nat)
    requires k < |pipe|
    ensures Received(pipe[..k + 1]) == Received(pipe[..k]) + (if pipe[k].Some? then [pipe[k].value] else [])
  {
    assert pipe[..k + 1][..k] == pipe[..k];
  }

  datatype Step =
    | Message(msg: seq<byte>)  // a line was printed
    | Waiting                  // every given call was made and no newline arrived yet
    | Panicked                 // a call with no room returned 0: "pipe closed for reading!"

  class Reader {
    var buf: array<byte>
    var buflen: nat
    var nreads: nat

    ghost predicate Valid()
      reads this
    {
      buf.Length == BUFCAP && buflen <= BUFCAP
    }

    ghost function Pending(): seq<byte>
      reads this, buf
      requires Valid()
    {
      buf[..buflen]
    }

    constructor ()
      ensures Valid() && buflen == 0 && nreads == 0 && fresh(buf)
    {
      buf := new byte[BUFCAP];
      buflen := 0;
      nreads := 0;
    }

    /**
     * One pass of the outer loop: read until a newline is buffered, print the
     * message, shift the rest down. `pipe[k]` is what the kernel pipe holds
     * at the k-th call; `used` calls were made. When the buffer fills with no
     * newline, the next call asks for 0 bytes, the kernel answers 0 and the
     * process panics.
     */
    method ReadMessage(pipe: seq<Option<byte>>) returns (res: Step, used: nat)
      requires Valid()
      modifies this, buf
      ensures Valid() && buf == old(buf)
      ensures used <= |pipe| && nreads == old(nreads) + used
      ensures res.Message? ==>
        var s := old(Pending()) + Received(pipe[..used]);
        FirstNewline(s).Some? &&
        res.msg == s[..FirstNewline(s).value + 1] && Pending() == s[FirstNewline(s).value + 1..]
      ensures res.Waiting? ==>
        var s := old(Pending()) + Received(pipe);
        used == |pipe| && NEWLINE !in s && Pending() == s
      ensures res.Panicked? ==>
        used >= 1 &&
        var s := old(Pending()) + Received(pipe[..used - 1]);
        |s| == BUFCAP && NEWLINE !in s && Pending() == s
    {
      ghost var p0 := Pending();
      used := 0;
      var newline := FirstNewline(buf[..buflen]);
      while newline.None?
        invariant Valid() && buf == old(buf) && used <= |pipe|
        invariant nreads == old(nreads) + used
        invariant buf[..buflen] == p0 + Received(pipe[..used])
        invariant newline == FirstNewline(buf[..buflen])
        decreases |pipe| - used
      {
        if used == |pipe| {
          assert pipe[..used] == pipe;
          return Waiting, used;
        }
        var r := PipeRead(pipe[used]);
        ReceivedSnoc(pipe, used);
        used := used + 1;
        if r == 0 {
          return Panicked, used;
        }
        newline := FirstNewline(buf[..buflen]);
      }
      var msg := TakeMessage(newline.value + 1);
      res := Message(msg);
    }

    /** `printf` of the first `messagelen` bytes, then the shift of the rest down. */
    method TakeMessage(messagelen: nat) returns (msg: seq<byte>)
      requires Valid() && messagelen <= buflen
      modifies this, buf
      ensures Valid() && buf == old(buf) && nreads == old(nreads)
      ensures msg == old(Pending())[..messagelen] && Pending() == old(Pending())[messagelen..]
    {
      msg := buf[..messagelen];
      Shift(messagelen);
    }

    /**
     * `++nreads; r = sys_piperead(&buf[buflen], sizeof(buf) - buflen)`, and
     * on r > 0 `buflen += r`.
     */
    method PipeRead(pipe: Option<byte>) returns (r: int)
      requires Valid()
      modifies this, buf
      ensures Valid() && buf == old(buf) && nreads == old(nreads) + 1
      ensures r == PipeReadReply(BUFCAP - old(buflen), pipe)
      ensures r == 1 ==> Pending() == old(Pending()) + [pipe.value]
      ensures r != 1 ==> Pending() == old(Pending())
    {
      nreads := nreads + 1;
      r := PipeReadReply(BUFCAP - buflen, pipe);
      if r > 0 {
        buf[buflen] := pipe.value;
        buflen := buflen + r;
      }
    }

    /** `memmove(buf, &buf[m], buflen - m); buflen -= m`. */
    method Shift(m: nat)
      requires Valid() && m <= buflen
      modifies this, buf
      ensures Valid() && buf == old(buf) && nreads == old(nreads)
      ensures Pending() == old(Pending())[m..]
    {
      ghost var s := buf[..buflen];
      var n := buflen - m;
      var k := 0;
      while k < n
        invariant 0 <= k <= n
        invariant forall j :: 0 <= j < k ==> buf[j] == s[j + m]
        invariant forall j :: k <= j < |s| ==> buf[j] == s[j]
        modifies buf
      {
        buf[k] := buf[k + m];
        k := k + 1;
      }
      buflen := n;
      assert buf[..buflen] == s[m..];
    }
  }

  /** Each call that found the kernel pipe holding a byte delivered exactly that one byte. */
  lemma {:induction false} ReceivedAtMostOnePerCall(calls: seq<Option<byte>>)
    ensures |Received(calls)| == |set k | 0 <= k < |calls| && calls[k].Some?|
    decreases |calls|
  {
    if |calls| > 0 {
      var n := |calls| - 1;
      ReceivedAtMostOnePerCall(calls[..n]);
      var a := set k | 0 <= k < n && calls[..n][k].Some?;
      var b := set k | 0 <= k < |calls| && calls[k].Some?;
      assert a == set k | 0 <= k < n && calls[k].Some?;
      if calls[n].Some? {
        assert b == a + {n};
      } else {
        assert b == a;
      }
    }
  }
}
