// Running a parsed command list in psets/pset5/sh61.cc: `run` splits the
// list into conditional chains, `run_conditional` walks one chain pipeline
// by pipeline, and `run_pipeline` starts the commands of one pipeline.
//
// Starting a process, waiting for it and the terminal's foreground are not
// part of this model. What `waitpid` reports for the last command of each
// pipeline is a parameter, `waits[e]` for the command at index `e`: each
// pipeline starts at most once (ListRanAtMostOnce), so one status per command
// is all a run can observe. The walks return the pipelines they start, by
// the index of their first command.

module Sh61Run {
  import opened Sh61Common

  /** The signal number of `SIGINT`. */
  const SIGINT := 2

  /**
   * The operator the skip loop passes over after a pipeline ends with `w`:
   * `||` after success, `&&` after failure or an interrupt, nothing after
   * any other signal.
   */
  function CourseSkip(w: WaitStatus): Option<TokenType>
  {
    match w
    case Exited(code) => if code == 0 then Some(Or) else Some(And)
    case Signaled(sig) => if sig == SIGINT then Some(And) else None
  }

  function Skips(waits: seq<WaitStatus>): (s: seq<Option<TokenType>>)
    ensures |s| == |waits| && SkipOps(s)
    ensures forall k :: 0 <= k < |waits| ==> s[k] == CourseSkip(waits[k])
  {
    seq(|waits|, k requires 0 <= k < |waits| => CourseSkip(waits[k]))
  }

  /**
   * `exit_status` after waiting for a pipeline that ended with `w`: its exit
   * code, 1 for an interrupt, and unchanged for any other signal.
   */
  function NextStatus(status: int, w: WaitStatus): int
  {
    match w
    case Exited(code) => code
    case Signaled(sig) => if sig == SIGINT then 1 else status
  }

  /** A wait status that leaves `exit_status` as it was. */
  predicate OtherSignal(w: WaitStatus)
  {
    w.Signaled? && w.signal != SIGINT
  }

  /** `exit_status` after the waits `ws`, in order, starting from `status`. */
  function LastStatus(ws: seq<WaitStatus>, status: int): int
    decreases |ws|
  {
    if |ws| == 0 then status else NextStatus(LastStatus(ws[..|ws| - 1], status), ws[|ws| - 1])
  }

  /** The wait statuses of the pipelines that started at `ran`, in order. */
  function EndWaits(links: seq<TokenType>, waits: seq<WaitStatus>, ran: seq<nat>): (ws: seq<WaitStatus>)
    requires Terminated(links) && |waits| == |links| && Within(ran, 0, |links| - 1)
    ensures |ws| == |ran|
  {
    seq(|ran|, k requires 0 <= k < |ran| => waits[PipelineEnd(links, ran[k])])
  }

  /** What `run_conditional` returns for the chain at `c` run in the foreground. */
  function ChainStatus(links: seq<TokenType>, waits: seq<WaitStatus>, c: nat): int
    requires Terminated(links) && c < |links| && |waits| == |links|
  {
    SourceChainOrdered(links, Skips(waits), c);
    AscendingIncreasing(SourceChain(links, Skips(waits), c), c, ChainEnd(links, c));
    LastStatus(EndWaits(links, waits, SourceChain(links, Skips(waits), c)), -1)
  }

  /** The first command of the last conditional chain of the list from `i`. */
  function LastChain(links: seq<TokenType>, i: nat): (l: nat)
    requires Terminated(links) && i < |links|
    ensures ChainStart(links, i, l) && ChainEnd(links, l) == |links| - 1
    decreases |links| - i
  {
    var k := ChainEnd(links, i);
    if k + 1 < |links| then LastChain(links, k + 1) else i
  }

  /** What `run` returns: the status of the last chain, or -1 when that runs in the background. */
  function ListStatus(links: seq<TokenType>, waits: seq<WaitStatus>, i: nat): int
    requires Terminated(links) && i < |links| && |waits| == |links|
  {
    if links[|links| - 1] == Background then -1 else ChainStatus(links, waits, LastChain(links, i))
  }

  /** The status of the list from `i` is that of the rest of the list, or of the chain at `i` if it is last. */
  lemma {:induction false} ListStatusStep(links: seq<TokenType>, waits: seq<WaitStatus>, i: nat, k: nat)
    requires Terminated(links) && i < |links| && |waits| == |links| && k == ChainEnd(links, i)
    ensures ListStatus(links, waits, i)
         == if k + 1 < |links| then ListStatus(links, waits, k + 1)
            else if links[k] == Background then -1 else ChainStatus(links, waits, i)
  {
    if k + 1 < |links| {
      assert LastChain(links, i) == LastChain(links, k + 1);
    } else {
      assert LastChain(links, i) == i && k == |links| - 1;
    }
  }

  // ---------------------------------------------------------------------
  // What the status promises
  // ---------------------------------------------------------------------

  /** Pipelines killed by a signal other than `SIGINT` do not change the status. */
  lemma {:induction false} SignalsKeepStatus(ws: seq<WaitStatus>, status: int, j: nat)
    requires j <= |ws|
    requires forall k :: j <= k < |ws| ==> OtherSignal(ws[k])
    ensures LastStatus(ws, status) == LastStatus(ws[..j], status)
    decreases |ws|
  {
    if |ws| > j {
      var n := |ws| - 1;
      SignalsKeepStatus(ws[..n], status, j);
      assert ws[..n][..j] == ws[..j];
    } else {
      assert ws[..j] == ws;
    }
  }

  /**
   * The status is that of the last pipeline that exited or was interrupted.
   */
  lemma {:induction false} LastCountedStatus(ws: seq<WaitStatus>, status: int, j: nat)
    requires j < |ws| && !OtherSignal(ws[j])
    requires forall k :: j < k < |ws| ==> OtherSignal(ws[k])
    ensures LastStatus(ws, status) == if ws[j].Exited? then ws[j].code else 1
  {
    SignalsKeepStatus(ws, status, j + 1);
    assert ws[..j + 1][..j] == ws[..j];
  }

  /** With only other signals, the status stays at its start value. */
  lemma {:induction false} AllSignalsKeepStatus(ws: seq<WaitStatus>, status: int)
    requires forall k :: 0 <= k < |ws| ==> OtherSignal(ws[k])
    ensures LastStatus(ws, status) == status
  {
    SignalsKeepStatus(ws, status, 0);
  }

  /** Waiting one more pipeline extends the waits by its status. */
  lemma {:induction false} StatusStep(links: seq<TokenType>, waits: seq<WaitStatus>, ran: seq<nat>, c: nat)
    requires Terminated(links) && |waits| == |links| && Within(ran, 0, |links| - 1) && c < |links|
    ensures Within(ran + [c], 0, |links| - 1)
    ensures LastStatus(EndWaits(links, waits, ran + [c]), -1)
         == NextStatus(LastStatus(EndWaits(links, waits, ran), -1), waits[PipelineEnd(links, c)])
  {
    var ws := EndWaits(links, waits, ran + [c]);
    assert ws[..|ran|] == EndWaits(links, waits, ran);
  }

  // ---------------------------------------------------------------------
  // The source's loops
  // ---------------------------------------------------------------------

  /** `run_pipeline(c)`: start `c`, then each next command while the link is `|`. */
  method RunPipeline(links: seq<TokenType>, c: nat) returns (started: seq<nat>)
    requires c < |links|
    ensures started == PipelineMembers(links, c)
  {
    started := [c];
    var it := c;
    while it + 1 < |links|
      invariant c <= it < |links|
      invariant PipelineMembers(links, c) == started + PipelineMembers(links, it)[1..]
      decreases |links| - it
    {
      if links[it] != Pipe {
        break;
      }
      started := started + [it + 1];
      it := it + 1;
    }
  }

  /** `while (c->link == TYPE_PIPE) c = c->next;` */
  method SeekPipelineEnd(links: seq<TokenType>, c: nat) returns (e: nat)
    requires Terminated(links) && c < |links|
    ensures e == PipelineEnd(links, c)
  {
    e := c;
    while links[e] == Pipe
      invariant c <= e < |links| && PipelineEnd(links, e) == PipelineEnd(links, c)
      decreases |links| - e
    {
      e := e + 1;
    }
  }

  /**
   * The skip loop: while the pipeline ending at `k` is followed by `op`,
   * step to the next command, then to the end of its pipeline.
   */
  method SkipPipelines(links: seq<TokenType>, e: nat, op: TokenType) returns (k: nat)
    requires Terminated(links) && e < |links| && links[e] != Pipe
    ensures k == Skip(links, e, op)
  {
    k := e;
    while CondType(links, k) == Some(op)
      invariant e <= k < |links| && links[k] != Pipe && Skip(links, k, op) == Skip(links, e, op)
      decreases |links| - k
    {
      k := SeekPipelineEnd(links, k + 1);
    }
  }

  /** The handling of the wait status of the pipeline ending at `e`. */
  method HandleWait(links: seq<TokenType>, waits: seq<WaitStatus>, e: nat, status0: int)
    returns (k: nat, status: int)
    requires Terminated(links) && |waits| == |links| && e < |links| && links[e] != Pipe
    ensures k == SkipEnd(links, Skips(waits), e) && status == NextStatus(status0, waits[e])
  {
    k, status := e, status0;
    match waits[e]
    case Exited(code) =>
      status := code;
      k := SkipPipelines(links, e, if status == 0 then Or else And);
    case Signaled(sig) =>
      if sig == SIGINT {
        status := 1;
        k := SkipPipelines(links, e, And);
      }
  }

  /**
   * One round of the loop of `run_conditional`: run the pipeline at `c`,
   * wait for its last command, and skip what its status makes irrelevant.
   */
  method RunRound(links: seq<TokenType>, waits: seq<WaitStatus>, c: nat, status0: int)
    returns (k: nat, status: int)
    requires Terminated(links) && c < |links| && |waits| == |links|
    ensures k == SkipEnd(links, Skips(waits), PipelineEnd(links, c))
    ensures status == NextStatus(status0, waits[PipelineEnd(links, c)])
  {
    var members := RunPipeline(links, c);
    var e := SeekPipelineEnd(links, c);
    k, status := HandleWait(links, waits, e, status0);
  }

  /** The loop of `run_conditional` over the chain at `c0`, run in this shell. */
  method RunChain(links: seq<TokenType>, waits: seq<WaitStatus>, c0: nat) returns (ran: seq<nat>, status: int)
    requires Terminated(links) && c0 < |links| && |waits| == |links|
    ensures ran == SourceChain(links, Skips(waits), c0)
    ensures status == ChainStatus(links, waits, c0)
  {
    ran, status := [], -1;
    var c := c0;
    ghost var skips := Skips(waits);
    while true
      invariant c < |links| && Within(ran, 0, |links| - 1)
      invariant SourceChain(links, skips, c0) == ran + SourceChain(links, skips, c)
      invariant status == LastStatus(EndWaits(links, waits, ran), -1)
      decreases |links| - c
    {
      StatusStep(links, waits, ran, c);
      var k;
      k, status := RunRound(links, waits, c, status);
      SourceChainGrows(links, skips, c0, ran, c, k);
      ran := ran + [c];
      if EndsChain(links[k]) {
        break;
      }
      c := k + 1;
    }
  }

  /**
   * `run_conditional(c, bg)`: a background chain runs in a forked shell
   * (nothing runs if the fork fails) and the caller gets -1; a foreground
   * chain runs here and its status is returned.
   */
  method RunConditional(links: seq<TokenType>, waits: seq<WaitStatus>, c: nat, bg: bool, forkOk: bool)
    returns (ran: seq<nat>, status: int)
    requires Terminated(links) && c < |links| && |waits| == |links|
    ensures ran == if bg && !forkOk then [] else SourceChain(links, Skips(waits), c)
    ensures status == if bg then -1 else ChainStatus(links, waits, c)
  {
    ran, status := [], -1;
    if bg && !forkOk {
      return;
    }
    var s;
    ran, s := RunChain(links, waits, c);
    if !bg {
      status := s;
    }
  }

  /**
   * `run(c)`: find the end of the chain at `i`, run the chain (in the
   * background when it ends in `&`), then the rest of the list. A
   * background chain whose first command is in `forkFails` cannot fork.
   */
  method Run(links: seq<TokenType>, waits: seq<WaitStatus>, i: nat, forkFails: set<nat>)
    returns (ran: seq<nat>, status: int)
    requires Terminated(links) && i < |links| && |waits| == |links|
    ensures ran == ListRan(links, Skips(waits), i, forkFails)
    ensures status == ListStatus(links, waits, i)
    decreases |links| - i
  {
    var k := i;
    while !EndsChain(links[k])
      invariant i <= k <= ChainEnd(links, i)
      decreases |links| - k
    {
      k := k + 1;
    }
    ChainEndFirst(links, i, k);
    ListStatusStep(links, waits, i, k);
    ran, status := RunConditional(links, waits, i, links[k] == Background, i !in forkFails);
    ListRanStep(links, Skips(waits), i, k, forkFails);
    if k + 1 < |links| {
      var more;
      more, status := Run(links, waits, k + 1, forkFails);
      ran := ran + more;
    }
  }

  // ---------------------------------------------------------------------
  // Examples
  // ---------------------------------------------------------------------

  /** `a || b`: `b` does not run after `a` succeeds. */
  lemma {:induction false} OrAfterSuccess()
    ensures SourceChain([Or, Sequence], Skips([Exited(0), Exited(1)]), 0) == [0]
    ensures ChainStatus([Or, Sequence], [Exited(0), Exited(1)], 0) == 0
  {
    var links, waits := [Or, Sequence], [Exited(0), Exited(1)];
    assert Skips(waits)[0] == Some(Or);
    assert PipelineEnd(links, 1) == 1;
    assert Skip(links, 0, Or) == 1;
    assert EndWaits(links, waits, [0]) == [Exited(0)];
  }

  /** `a && b`: an interrupted `a` makes the chain fail without running `b`. */
  lemma {:induction false} AndAfterInterrupt()
    ensures SourceChain([And, Sequence], Skips([Signaled(SIGINT), Exited(0)]), 0) == [0]
    ensures ChainStatus([And, Sequence], [Signaled(SIGINT), Exited(0)], 0) == 1
  {
    var links, waits := [And, Sequence], [Signaled(SIGINT), Exited(0)];
    assert Skips(waits)[0] == Some(And);
    assert PipelineEnd(links, 1) == 1;
    assert Skip(links, 0, And) == 1;
    assert EndWaits(links, waits, [0]) == [Signaled(SIGINT)];
  }

  /** `a && b`: when another signal kills `a`, `b` still runs and its status is the chain's. */
  lemma {:induction false} AndAfterOtherSignal()
    ensures SourceChain([And, Sequence], Skips([Signaled(15), Exited(3)]), 0) == [0, 1]
    ensures ChainStatus([And, Sequence], [Signaled(15), Exited(3)], 0) == 3
  {
    var links, waits := [And, Sequence], [Signaled(15), Exited(3)];
    var skips := Skips(waits);
    assert skips[0] == None && skips[1] == Some(And);
    assert PipelineEnd(links, 0) == 0 && PipelineEnd(links, 1) == 1;
    assert SkipEnd(links, skips, 0) == 0;
    assert Skip(links, 1, And) == 1;
    assert SkipEnd(links, skips, 1) == 1;
    assert SourceChain(links, skips, 1) == [1];
    assert SourceChain(links, skips, 0) == [0, 1];
    var ws := EndWaits(links, waits, [0, 1]);
    assert ws == [Signaled(15), Exited(3)];
    assert ws[..1] == [Signaled(15)];
  }

  /** `a | b && c`: the status of a pipeline is that of its last command. */
  lemma {:induction false} PipelineStatus()
    ensures SourceChain([Pipe, And, Sequence], Skips([Exited(0), Exited(1), Exited(0)]), 0) == [0]
    ensures ChainStatus([Pipe, And, Sequence], [Exited(0), Exited(1), Exited(0)], 0) == 1
  {
    var links, waits := [Pipe, And, Sequence], [Exited(0), Exited(1), Exited(0)];
    assert PipelineEnd(links, 0) == 1 && PipelineEnd(links, 2) == 2;
    assert Skips(waits)[1] == Some(And);
    assert Skip(links, 1, And) == 2;
    assert EndWaits(links, waits, [0]) == [Exited(1)];
  }

  /** `a & b`: when the background shell cannot fork, only `b` runs. */
  lemma {:induction false} FailedForkSkipsChain()
    ensures ListRan([Background, Sequence], Skips([Exited(0), Exited(0)]), 0, {0}) == [1]
  {
    var links, skips := [Background, Sequence], Skips([Exited(0), Exited(0)]);
    assert ChainEnd(links, 0) == 0 && ChainEnd(links, 1) == 1;
    assert skips[1] == Some(Or);
    assert PipelineEnd(links, 1) == 1 && Skip(links, 1, Or) == 1;
  }
}
