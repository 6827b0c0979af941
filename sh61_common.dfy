// What the two versions of the sh61 shell (psets/pset5/sh61.cc and the
// handout pset5/sh61.cc) share: the token stream the tokenizer delivers,
// and the walks along a parsed command list that look only at each
// command's `link`, the control operator that ends it.
//
// A parsed list is a sequence; the command after the one at index `i` (its
// `next`) is the one at `i + 1`. The walks are described by the list of
// links alone.

module Sh61Common {
  datatype Option<T> = None | Some(value: T)

  /** The token types of the tokenizer; `link` takes these values too. */
  datatype TokenType = Normal | RedirectOp | Sequence | Background | Pipe | And | Or | LParen | RParen

  datatype Token = Token(kind: TokenType, text: string)

  /** The control operators that end a command: `;`, `&`, `|`, `&&` and `||`. */
  predicate IsOperator(k: TokenType)
  {
    k == Sequence || k == Background || k == Pipe || k == And || k == Or
  }

  /** Operators that end a conditional chain, where `run` splits the list. */
  predicate EndsChain(k: TokenType)
  {
    k == Sequence || k == Background
  }

  /**
   * A list the walks can follow: nonempty, and its last command ends in `;`
   * or `&`, so every `|`, `&&` and `||` has a command after it (the source
   * follows `next` there without a null check).
   */
  predicate Terminated(links: seq<TokenType>)
  {
    |links| > 0 && EndsChain(links[|links| - 1])
  }

  // ---------------------------------------------------------------------
  // Pipelines and get_cond_type
  // ---------------------------------------------------------------------

  /** The last command of the pipeline `i` is in: follow `|` links. */
  function PipelineEnd(links: seq<TokenType>, i: nat): (e: nat)
    requires Terminated(links) && i < |links|
    ensures i <= e < |links| && links[e] != Pipe
    decreases |links| - i
  {
    if links[i] == Pipe then PipelineEnd(links, i + 1) else i
  }

  /**
   * The commands `run_pipeline` starts from `i`: this one, then along `|`
   * links while there is a next command.
   */
  function PipelineMembers(links: seq<TokenType>, i: nat): seq<nat>
    requires i < |links|
    decreases |links| - i
  {
    if links[i] != Pipe || i + 1 == |links| then [i] else [i] + PipelineMembers(links, i + 1)
  }

  /** The indices `lo`, ..., `hi - 1`. */
  function Range(lo: nat, hi: nat): (r: seq<nat>)
    decreases hi - lo
  {
    if lo >= hi then [] else [lo] + Range(lo + 1, hi)
  }

  /** `get_cond_type`: the `&&` or `||` after the pipeline `i` is in, if any. */
  function CondType(links: seq<TokenType>, i: nat): (r: Option<TokenType>)
    requires Terminated(links) && i < |links|
    ensures r.Some? ==> r.value == And || r.value == Or
    decreases |links| - i
  {
    if links[i] == Pipe then CondType(links, i + 1)
    else if links[i] == And || links[i] == Or then Some(links[i])
    else None
  }

  /** The first command at or after `i` that ends a conditional chain. */
  function ChainEnd(links: seq<TokenType>, i: nat): (k: nat)
    requires Terminated(links) && i < |links|
    ensures i <= k < |links| && EndsChain(links[k])
    decreases |links| - i
  {
    if EndsChain(links[i]) then i else ChainEnd(links, i + 1)
  }

  /** No command before the chain end ends the chain: it is the first one that does. */
  lemma {:induction false} ChainEndFirst(links: seq<TokenType>, i: nat, j: nat)
    requires Terminated(links) && i <= j < |links| && EndsChain(links[j])
    ensures ChainEnd(links, i) <= j
    decreases j - i
  {
    if !EndsChain(links[i]) {
      ChainEndFirst(links, i + 1, j);
    }
  }

  /**
   * The skip loop at the end `e` of a pipeline that just ran: while the
   * pipeline is followed by the operator `op`, move to the end of the next
   * pipeline without running it.
   */
  function Skip(links: seq<TokenType>, e: nat, op: TokenType): (r: nat)
    requires Terminated(links) && e < |links| && links[e] != Pipe
    ensures e <= r < |links| && links[r] != Pipe && CondType(links, r) != Some(op)
    decreases |links| - e
  {
    if CondType(links, e) == Some(op) then Skip(links, PipelineEnd(links, e + 1), op) else e
  }

  // ---------------------------------------------------------------------
  // What the walks promise
  // ---------------------------------------------------------------------

  /** `get_cond_type` answers with the link at the end of the pipeline. */
  lemma {:induction false} CondTypeAtEnd(links: seq<TokenType>, i: nat)
    requires Terminated(links) && i < |links|
    ensures var e := PipelineEnd(links, i);
      CondType(links, i) == if links[e] == And || links[e] == Or then Some(links[e]) else None
    decreases |links| - i
  {
    if links[i] == Pipe {
      CondTypeAtEnd(links, i + 1);
    }
  }

  /** `run_pipeline` starts exactly the commands from `i` to the end of its pipeline. */
  lemma {:induction false} PipelineMembersRange(links: seq<TokenType>, i: nat)
    requires Terminated(links) && i < |links|
    ensures PipelineMembers(links, i) == Range(i, PipelineEnd(links, i) + 1)
    decreases |links| - i
  {
    if links[i] == Pipe {
      PipelineMembersRange(links, i + 1);
    }
  }

  /** The skip loop never leaves the conditional chain it is in. */
  lemma {:induction false} SkipStaysInChain(links: seq<TokenType>, e: nat, op: TokenType)
    requires Terminated(links) && e < |links| && links[e] != Pipe
    requires op == And || op == Or
    ensures ChainEnd(links, Skip(links, e, op)) == ChainEnd(links, e)
    decreases |links| - e
  {
    if CondType(links, e) == Some(op) {
      var n := PipelineEnd(links, e + 1);
      SkipStaysInChain(links, n, op);
      ChainEndThroughPipeline(links, e + 1);
    }
  }

  /** Following `|` links stays inside a conditional chain. */
  lemma {:induction false} ChainEndThroughPipeline(links: seq<TokenType>, i: nat)
    requires Terminated(links) && i < |links|
    ensures ChainEnd(links, PipelineEnd(links, i)) == ChainEnd(links, i)
    decreases |links| - i
  {
    if links[i] == Pipe {
      ChainEndThroughPipeline(links, i + 1);
    }
  }

  // ---------------------------------------------------------------------
  // The pipelines a conditional chain runs
  // ---------------------------------------------------------------------

  /**
   * The loop of `run_conditional` in both versions, given for each command
   * the operator its wait status makes the loop skip (`skips[e]` for the
   * last command `e` of a pipeline; None: nothing is skipped): run the
   * pipeline at `c`, skip while the next operator is that one, and go on
   * after the operator the loop stopped at unless it ends the chain. The
   * result lists the pipelines that ran, by their first command.
   */
  function SourceChain(links: seq<TokenType>, skips: seq<Option<TokenType>>, c: nat): seq<nat>
    requires Terminated(links) && c < |links| && |skips| == |links|
    decreases |links| - c
  {
    var e := PipelineEnd(links, c);
    var k := SkipEnd(links, skips, e);
    if EndsChain(links[k]) then [c] else [c] + SourceChain(links, skips, k + 1)
  }

  /**
   * The reference reading of `&&` and `||`, one pipeline at a time: the
   * pipeline after an operator runs unless the last pipeline that ran
   * skips that operator. `go` says whether the pipeline at `c` runs;
   * `last` is what the last pipeline that ran skips.
   */
  function Walk(links: seq<TokenType>, skips: seq<Option<TokenType>>, c: nat, go: bool,
                last: Option<TokenType>): seq<nat>
    requires Terminated(links) && c < |links| && |skips| == |links|
    decreases |links| - c
  {
    var e := PipelineEnd(links, c);
    var skip := if go then skips[e] else last;
    var ran := if go then [c] else [];
    if EndsChain(links[e]) then ran else ran + Walk(links, skips, e + 1, skip != Some(links[e]), skip)
  }

  /** What follows the pipeline that ends at `e`, decided by `last`. */
  function After(links: seq<TokenType>, skips: seq<Option<TokenType>>, e: nat, last: Option<TokenType>): seq<nat>
    requires Terminated(links) && e < |links| && |skips| == |links|
  {
    if EndsChain(links[e]) then []
    else Walk(links, skips, e + 1, last != Some(links[e]), last)
  }

  predicate Increasing(s: seq<nat>)
  {
    forall i, j :: 0 <= i < j < |s| ==> s[i] < s[j]
  }

  /** A pipeline that runs does not depend on what ran before it. */
  lemma {:induction false} WalkRunsAnyway(links: seq<TokenType>, skips: seq<Option<TokenType>>, c: nat,
                       l1: Option<TokenType>, l2: Option<TokenType>)
    requires Terminated(links) && c < |links| && |skips| == |links|
    ensures Walk(links, skips, c, true, l1) == Walk(links, skips, c, true, l2)
  {
  }

  /** The skip loop passes over exactly the pipelines the reference does not run. */
  lemma {:induction false} SkipWalk(links: seq<TokenType>, skips: seq<Option<TokenType>>, e: nat, op: TokenType)
    requires Terminated(links) && e < |links| && |skips| == |links| && links[e] != Pipe
    ensures After(links, skips, e, Some(op)) == After(links, skips, Skip(links, e, op), Some(op))
    decreases |links| - e
  {
    CondTypeAtEnd(links, e);
    if CondType(links, e) == Some(op) {
      SkippedWalk(links, skips, e + 1, Some(op));
      SkipWalk(links, skips, PipelineEnd(links, e + 1), op);
    }
  }

  /** A pipeline that does not run leaves the decision to what ran before it. */
  lemma {:induction false} SkippedWalk(links: seq<TokenType>, skips: seq<Option<TokenType>>, c: nat, last: Option<TokenType>)
    requires Terminated(links) && c < |links| && |skips| == |links|
    ensures Walk(links, skips, c, false, last) == After(links, skips, PipelineEnd(links, c), last)
  {
    var e := PipelineEnd(links, c);
    if !EndsChain(links[e]) {
      var rest := Walk(links, skips, e + 1, last != Some(links[e]), last);
      assert [] + rest == rest;
    }
  }

  /** Skip operators are conditional operators. */
  predicate SkipOps(skips: seq<Option<TokenType>>)
  {
    forall k :: 0 <= k < |skips| && skips[k].Some? ==> skips[k].value == And || skips[k].value == Or
  }

  /** Where the skip loop that follows the pipeline ending at `e` stops. */
  function SkipEnd(links: seq<TokenType>, skips: seq<Option<TokenType>>, e: nat): (k: nat)
    requires Terminated(links) && e < |links| && |skips| == |links| && links[e] != Pipe
  {
    if skips[e].Some? then Skip(links, e, skips[e].value) else e
  }

  /** A pipeline that runs, then what follows it under its own skip operator. */
  lemma {:induction false} WalkRuns(links: seq<TokenType>, skips: seq<Option<TokenType>>, c: nat)
    requires Terminated(links) && c < |links| && |skips| == |links|
    ensures var e := PipelineEnd(links, c);
      Walk(links, skips, c, true, None)
      == [c] + After(links, skips, e, skips[e])
  {
  }

  /** After the skip loop, the next pipeline runs unless the chain has ended. */
  lemma {:induction false} AfterSkipLoop(links: seq<TokenType>, skips: seq<Option<TokenType>>, e: nat)
    requires Terminated(links) && e < |links| && |skips| == |links| && links[e] != Pipe
    requires skips[e].Some? ==> skips[e].value == And || skips[e].value == Or
    ensures var k := SkipEnd(links, skips, e);
      After(links, skips, e, skips[e])
      == if EndsChain(links[k]) then [] else Walk(links, skips, k + 1, true, None)
  {
    if skips[e].Some? {
      var op := skips[e].value;
      assert skips[e] == Some(op) && SkipEnd(links, skips, e) == Skip(links, e, op);
      AfterSkipped(links, skips, e, op);
    }
  }

  /** After skipping on the operator `op`, the next pipeline runs unless the chain has ended. */
  lemma {:induction false} AfterSkipped(links: seq<TokenType>, skips: seq<Option<TokenType>>, e: nat, op: TokenType)
    requires Terminated(links) && e < |links| && |skips| == |links| && links[e] != Pipe && (op == And || op == Or)
    ensures var k := Skip(links, e, op);
      After(links, skips, e, Some(op))
      == if EndsChain(links[k]) then [] else Walk(links, skips, k + 1, true, None)
  {
    var k := Skip(links, e, op);
    SkipWalk(links, skips, e, op);
    SkipStopsBefore(links, k, op);
    if !EndsChain(links[k]) {
      WalkRunsAnyway(links, skips, k + 1, None, Some(op));
    }
  }

  /** The skip loop stops at a command that is not followed by the operator it skips on. */
  lemma {:induction false} SkipStopsBefore(links: seq<TokenType>, k: nat, op: TokenType)
    requires Terminated(links) && k < |links| && links[k] != Pipe && (op == And || op == Or)
    requires CondType(links, k) != Some(op)
    ensures links[k] != op
  {
  }

  /** The loop of `run_conditional` runs exactly the pipelines the reference reading runs. */
  lemma {:induction false} SourceChainIsWalk(links: seq<TokenType>, skips: seq<Option<TokenType>>, c: nat)
    requires Terminated(links) && c < |links| && |skips| == |links| && SkipOps(skips)
    ensures SourceChain(links, skips, c) == Walk(links, skips, c, true, None)
    decreases |links| - c
  {
    var e := PipelineEnd(links, c);
    var k := SkipEnd(links, skips, e);
    WalkRuns(links, skips, c);
    AfterSkipLoop(links, skips, e);
    if EndsChain(links[k]) {
      assert [c] + [] == [c];
    } else {
      SourceChainIsWalk(links, skips, k + 1);
    }
  }

  /** One round of the loop: the pipeline at `c` runs and the skip loop stops at `k`. */
  lemma {:induction false} SourceChainStep(links: seq<TokenType>, skips: seq<Option<TokenType>>, c: nat, k: nat)
    requires Terminated(links) && c < |links| && |skips| == |links|
    requires k == SkipEnd(links, skips, PipelineEnd(links, c))
    ensures !EndsChain(links[k]) ==> k + 1 < |links|
    ensures SourceChain(links, skips, c)
         == if EndsChain(links[k]) then [c] else [c] + SourceChain(links, skips, k + 1)
  {
  }

  /** One round of the loop over a chain: the pipelines started so far grow by the one at `c`. */
  lemma {:induction false} SourceChainGrows(links: seq<TokenType>, skips: seq<Option<TokenType>>, c0: nat, ran: seq<nat>, c: nat, k: nat)
    requires Terminated(links) && c0 < |links| && c < |links| && |skips| == |links|
    requires k == SkipEnd(links, skips, PipelineEnd(links, c))
    requires SourceChain(links, skips, c0) == ran + SourceChain(links, skips, c)
    ensures EndsChain(links[k]) ==> SourceChain(links, skips, c0) == ran + [c]
    ensures !EndsChain(links[k]) ==>
      k + 1 < |links| && SourceChain(links, skips, c0) == (ran + [c]) + SourceChain(links, skips, k + 1)
  {
    SourceChainStep(links, skips, c, k);
    if !EndsChain(links[k]) {
      ConcatAssoc(ran, [c], SourceChain(links, skips, k + 1));
    }
  }

  lemma {:induction false} ConcatAssoc<T>(a: seq<T>, b: seq<T>, c: seq<T>)
    ensures a + (b + c) == (a + b) + c
  {
  }

  /** A non-empty sequence is its first element followed by the rest. */
  lemma {:induction false} HeadTail<T>(s: seq<T>)
    requires |s| > 0
    ensures [s[0]] + s[1..] == s
  {
  }

  predicate Within(s: seq<nat>, lo: nat, hi: nat)
  {
    forall k :: 0 <= k < |s| ==> lo <= s[k] <= hi
  }

  /** Each pipeline of the chain runs at most once, in list order, and inside the chain. */
  lemma {:induction false} WalkOrdered(links: seq<TokenType>, skips: seq<Option<TokenType>>, c: nat, go: bool,
                                       last: Option<TokenType>)
    requires Terminated(links) && c < |links| && |skips| == |links|
    ensures Ascending(Walk(links, skips, c, go, last), c, ChainEnd(links, c))
    decreases |links| - c
  {
    var e := PipelineEnd(links, c);
    var ran := if go then [c] else [];
    ChainEndThroughPipeline(links, c);
    assert Ascending(ran, c, e) by {
      if go {
        assert ran[1..] == [];
      }
    }
    if !EndsChain(links[e]) {
      var skip := if go then skips[e] else last;
      var rest := Walk(links, skips, e + 1, skip != Some(links[e]), skip);
      WalkOrdered(links, skips, e + 1, skip != Some(links[e]), skip);
      AscendingConcat(ran, rest, c, e, ChainEnd(links, c));
    }
  }

  /**
   * `s` is strictly increasing and its elements lie between `lo` and `hi`,
   * stated one element at a time.
   */
  predicate Ascending(s: seq<nat>, lo: nat, hi: nat)
    decreases |s|
  {
    |s| == 0 || (lo <= s[0] <= hi && Ascending(s[1..], s[0] + 1, hi))
  }

  lemma {:induction false} AscendingLower(s: seq<nat>, lo: nat, m: nat, hi: nat)
    requires Ascending(s, m, hi) && lo <= m
    ensures Ascending(s, lo, hi)
  {
  }

  lemma {:induction false} AscendingConcat(a: seq<nat>, b: seq<nat>, lo: nat, mid: nat, hi: nat)
    requires Ascending(a, lo, mid) && Ascending(b, mid + 1, hi) && lo <= mid + 1 && mid <= hi
    ensures Ascending(a + b, lo, hi)
    decreases |a|
  {
    if |a| == 0 {
      assert a + b == b;
      AscendingLower(b, lo, mid + 1, hi);
    } else {
      AscendingConcat(a[1..], b, a[0] + 1, mid, hi);
      assert (a + b)[1..] == a[1..] + b;
    }
  }

  /** Ascending sequences are increasing and within their bounds. */
  lemma {:induction false} AscendingIncreasing(s: seq<nat>, lo: nat, hi: nat)
    requires Ascending(s, lo, hi)
    ensures Increasing(s) && Within(s, lo, hi)
    decreases |s|
  {
    if |s| > 0 {
      var t := s[1..];
      AscendingIncreasing(t, s[0] + 1, hi);
      forall i, j | 0 <= i < j < |s|
        ensures s[i] < s[j]
      {
        assert s[j] == t[j - 1];
        if i > 0 {
          assert s[i] == t[i - 1];
        }
      }
      forall k | 0 <= k < |s|
        ensures lo <= s[k] <= hi
      {
        if k > 0 {
          assert s[k] == t[k - 1];
        }
      }
    }
  }

  // ---------------------------------------------------------------------
  // The chains `run` starts
  // ---------------------------------------------------------------------

  /** What `waitpid` reports for the last command of a pipeline. */
  datatype WaitStatus = Exited(code: int) | Signaled(signal: int)

  /** `i` is where a conditional chain starts when the list is run from `from`. */
  predicate ChainStart(links: seq<TokenType>, from: nat, i: nat)
  {
    from <= i < |links| && (i == from || (i > 0 && EndsChain(links[i - 1])))
  }

  /**
   * The pipelines `run` starts from `i`, given for each command `c` that
   * starts a conditional chain the pipelines `chains[c]` that chain starts
   * when `run` reaches it: each chain in turn, to the end of the list.
   */
  function ListRanOver(links: seq<TokenType>, chains: seq<seq<nat>>, i: nat): seq<nat>
    requires Terminated(links) && i < |links| && |chains| == |links|
    decreases |links| - i
  {
    var k := ChainEnd(links, i);
    if k + 1 < |links| then chains[i] + ListRanOver(links, chains, k + 1) else chains[i]
  }

  /** The pipelines the chain at `i` starts when `run` reaches it. */
  function ChainRan(links: seq<TokenType>, skips: seq<Option<TokenType>>, i: nat, forkFails: set<nat>): seq<nat>
    requires Terminated(links) && i < |links| && |skips| == |links|
  {
    if links[ChainEnd(links, i)] == Background && i in forkFails then [] else SourceChain(links, skips, i)
  }

  /** What the chain starting at each command starts. */
  function ChainRans(links: seq<TokenType>, skips: seq<Option<TokenType>>, forkFails: set<nat>): seq<seq<nat>>
    requires Terminated(links) && |skips| == |links|
  {
    seq(|links|, c requires 0 <= c < |links| => ChainRan(links, skips, c, forkFails))
  }

  /**
   * The pipelines `run` starts from `i`: each conditional chain in turn,
   * except a background chain whose shell cannot be forked (its first
   * command is in `forkFails`).
   */
  function ListRan(links: seq<TokenType>, skips: seq<Option<TokenType>>, i: nat, forkFails: set<nat>): seq<nat>
    requires Terminated(links) && i < |links| && |skips| == |links|
  {
    ListRanOver(links, ChainRans(links, skips, forkFails), i)
  }

  /** `run` starts the chain at `i`, then the rest of the list. */
  lemma {:induction false} ListRanStep(links: seq<TokenType>, skips: seq<Option<TokenType>>, i: nat, k: nat, forkFails: set<nat>)
    requires Terminated(links) && i < |links| && |skips| == |links| && k == ChainEnd(links, i)
    ensures k + 1 < |links| ==> ListRan(links, skips, i, forkFails)
                                == ChainRan(links, skips, i, forkFails) + ListRan(links, skips, k + 1, forkFails)
    ensures k + 1 == |links| ==> ListRan(links, skips, i, forkFails) == ChainRan(links, skips, i, forkFails)
  {
    var chains := ChainRans(links, skips, forkFails);
    assert chains[i] == ChainRan(links, skips, i, forkFails);
  }

  lemma {:induction false} InConcat(a: seq<nat>, b: seq<nat>, x: nat)
    requires x in b
    ensures x in a + b
  {
    var n :| 0 <= n < |b| && b[n] == x;
    assert (a + b)[|a| + n] == x;
  }

  /** A chain the list reaches whose first pipeline is its first command: `run` starts that pipeline. */
  lemma {:induction false} ListRanOverHas(links: seq<TokenType>, chains: seq<seq<nat>>, i: nat, j: nat)
    requires Terminated(links) && |chains| == |links| && ChainStart(links, i, j)
    requires |chains[j]| > 0 && chains[j][0] == j
    ensures j in ListRanOver(links, chains, i)
    decreases |links| - i
  {
    var k := ChainEnd(links, i);
    if j == i {
      if k + 1 < |links| {
        assert (chains[i] + ListRanOver(links, chains, k + 1))[0] == j;
      } else {
        assert chains[i][0] == j;
      }
    } else {
      ChainEndFirst(links, i, j - 1);
      ListRanOverHas(links, chains, k + 1, j);
      InConcat(chains[i], ListRanOver(links, chains, k + 1), j);
    }
  }

  /** Each chain starts its pipelines in order, inside the chain. */
  predicate ChainsAscending(links: seq<TokenType>, chains: seq<seq<nat>>)
    requires Terminated(links) && |chains| == |links|
  {
    forall c :: 0 <= c < |links| ==> Ascending(chains[c], c, ChainEnd(links, c))
  }

  /** Chains in order one after another: the whole list in order. */
  lemma {:induction false} ListRanOverOrdered(links: seq<TokenType>, chains: seq<seq<nat>>, i: nat)
    requires Terminated(links) && |chains| == |links| && i < |links| && ChainsAscending(links, chains)
    ensures Ascending(ListRanOver(links, chains, i), i, |links| - 1)
    decreases |links| - i
  {
    var k := ChainEnd(links, i);
    assert Ascending(chains[i], i, k);
    if k + 1 < |links| {
      ListRanOverOrdered(links, chains, k + 1);
      AscendingConcat(chains[i], ListRanOver(links, chains, k + 1), i, k, |links| - 1);
    } else {
      AscendingUpper(chains[i], i, k, |links| - 1);
    }
  }

  lemma {:induction false} AscendingUpper(s: seq<nat>, lo: nat, hi: nat, top: nat)
    requires Ascending(s, lo, hi) && hi <= top
    ensures Ascending(s, lo, top)
    decreases |s|
  {
    if |s| > 0 {
      AscendingUpper(s[1..], s[0] + 1, hi, top);
    }
  }

  /** The loop of `run_conditional` starts with the pipeline at `c`. */
  lemma {:induction false} SourceChainFirst(links: seq<TokenType>, skips: seq<Option<TokenType>>, c: nat)
    requires Terminated(links) && c < |links| && |skips| == |links|
    ensures |SourceChain(links, skips, c)| > 0 && SourceChain(links, skips, c)[0] == c
  {
  }

  /** Every conditional chain of the list starts, unless its background shell cannot be forked. */
  lemma {:induction false} ChainStartsRun(links: seq<TokenType>, skips: seq<Option<TokenType>>, i: nat, forkFails: set<nat>, j: nat)
    requires Terminated(links) && i < |links| && |skips| == |links| && ChainStart(links, i, j)
    requires !(links[ChainEnd(links, j)] == Background && j in forkFails)
    ensures j in ListRan(links, skips, i, forkFails)
  {
    var chains := ChainRans(links, skips, forkFails);
    SourceChainFirst(links, skips, j);
    assert chains[j] == SourceChain(links, skips, j);
    ListRanOverHas(links, chains, i, j);
  }

  /** The loop of `run_conditional` starts each pipeline of its chain at most once, in order. */
  lemma {:induction false} SourceChainOrdered(links: seq<TokenType>, skips: seq<Option<TokenType>>, i: nat)
    requires Terminated(links) && i < |links| && |skips| == |links| && SkipOps(skips)
    ensures Ascending(SourceChain(links, skips, i), i, ChainEnd(links, i))
  {
    SourceChainIsWalk(links, skips, i);
    WalkOrdered(links, skips, i, true, None);
  }

  lemma {:induction false} ChainRansAscending(links: seq<TokenType>, skips: seq<Option<TokenType>>, forkFails: set<nat>)
    requires Terminated(links) && |skips| == |links| && SkipOps(skips)
    ensures ChainsAscending(links, ChainRans(links, skips, forkFails))
  {
    var chains := ChainRans(links, skips, forkFails);
    forall c | 0 <= c < |links|
      ensures Ascending(chains[c], c, ChainEnd(links, c))
    {
      SourceChainOrdered(links, skips, c);
    }
  }

  /** `run` starts each pipeline of the list at most once, in list order. */
  lemma {:induction false} ListRanAtMostOnce(links: seq<TokenType>, skips: seq<Option<TokenType>>, i: nat, forkFails: set<nat>)
    requires Terminated(links) && i < |links| && |skips| == |links| && SkipOps(skips)
    ensures Increasing(ListRan(links, skips, i, forkFails))
    ensures Within(ListRan(links, skips, i, forkFails), i, |links| - 1)
  {
    ChainRansAscending(links, skips, forkFails);
    ListRanOverOrdered(links, ChainRans(links, skips, forkFails), i);
    AscendingIncreasing(ListRan(links, skips, i, forkFails), i, |links| - 1);
  }
}
