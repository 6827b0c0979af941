// The earlier pset5/sh61.cc: a parser that only knows words and control
// operators, and the run side of a shell that handles lists, background
// chains, conditionals and pipelines, but not redirections or subshells.
//
// Its command list is a linked list built by `parse_line`; here it is a
// sequence of commands in list order, and a command's `next` is the
// element after it. The run side uses the chain walks shared with the
// later version (module Sh61Common): only what a wait status makes the
// skip loop skip differs — a command killed by a signal skips nothing.
// As there, the links of the list are a parameter and so are the wait
// statuses and which background forks fail; processes are not modelled.

module Sh61Handout {
  import opened Sh61Common
  import Sh61Run

  /**
   * `struct command`: its words, the child's pid (-1 if none), the
   * operator that ends it and the read end of the pipe feeding it (-1 if
   * none).
   */
  datatype Command = Command(args: seq<string>, pid: int, link: TokenType, readfd: int)

  /** `command::command()`. */
  function NewCommand(): Command
  {
    Command([], -1, Sequence, -1)
  }

  // ---------------------------------------------------------------------
  // parse_line
  // ---------------------------------------------------------------------

  /** Where the run of words starting at `i` stops: the first token that is not a word, or the end. */
  function WordsEnd(t: seq<Token>, i: nat): (w: nat)
    requires i <= |t|
    ensures i <= w <= |t| && (w < |t| ==> t[w].kind != Normal)
    decreases |t| - i
  {
    if i < |t| && t[i].kind == Normal then WordsEnd(t, i + 1) else i
  }

  /** The texts of the tokens `t[i..w]`, in order. */
  function Texts(t: seq<Token>, i: nat, w: nat): seq<string>
    requires i <= w <= |t|
    decreases w - i
  {
    if w == i then [] else Texts(t, i, w - 1) + [t[w - 1].text]
  }

  /**
   * The command `parse_line` builds from the words `t[i..w]`: a new
   * command holding them, linked by the operator at `w`, or by `;` when
   * the stream ends there.
   */
  function Head(t: seq<Token>, i: nat, w: nat): Command
    requires i <= w <= |t|
  {
    Command(Texts(t, i, w), -1, if w == |t| then Sequence else t[w].kind, -1)
  }

  /**
   * The commands `parse_line` builds from token `i` on: for each command,
   * the words up to the next operator, linked by that operator; a command
   * cut off by the end of the stream is linked by `;`.
   */
  function Line(t: seq<Token>, i: nat): seq<Command>
    requires i <= |t|
    decreases |t| - i
  {
    if i == |t| then []
    else
      var w := WordsEnd(t, i);
      if w == |t| then [Head(t, i, w)] else [Head(t, i, w)] + Line(t, w + 1)
  }

  /** `parse_line(s)` on the tokens of `s`; the empty list stands for `nullptr`. */
  function ParseLine(t: seq<Token>): seq<Command>
  {
    Line(t, 0)
  }

  /** `parse_line` as the source writes it: a loop over the tokens, one command per operator. */
  method ParseLineLoop(t: seq<Token>) returns (cmds: seq<Command>)
    ensures cmds == ParseLine(t)
  {
    cmds := [];
    var it := 0;
    while it != |t|
      invariant it <= |t| && Line(t, 0) == cmds + Line(t, it)
      decreases |t| - it
    {
      ghost var start := it;
      var c;
      c, it := ParseWords(t, it);
      if it == |t| {
        c := c.(link := Sequence);
        assert Line(t, 0) == cmds + [c] by {
          LineStep(t, start, it);
        }
        cmds := cmds + [c];
        return;
      }
      c := c.(link := t[it].kind);
      assert Line(t, 0) == (cmds + [c]) + Line(t, it + 1) by {
        LineStep(t, start, it);
        ConcatAssoc(cmds, [c], Line(t, it + 1));
      }
      cmds := cmds + [c];
      it := it + 1;
    }
    assert cmds + [] == cmds;
  }

  /**
   * The inner loop of `parse_line`: push each word onto a new command,
   * stopping at an operator or at the end of the stream.
   */
  method ParseWords(t: seq<Token>, start: nat) returns (c: Command, it: nat)
    requires start < |t|
    ensures it == WordsEnd(t, start) && c == NewCommand().(args := Texts(t, start, it))
  {
    c := NewCommand();
    it := start;
    while t[it].kind == Normal
      invariant start <= it < |t| && WordsEnd(t, it) == WordsEnd(t, start)
      invariant c == NewCommand().(args := Texts(t, start, it))
      decreases |t| - it
    {
      c := c.(args := c.args + [t[it].text]);
      it := it + 1;
      if it == |t| {
        return;
      }
    }
  }

  /** One command of `Line` from `i`, where its words stop at `w`. */
  lemma {:induction false} LineStep(t: seq<Token>, i: nat, w: nat)
    requires i < |t| && w == WordsEnd(t, i)
    ensures Line(t, i) == if w == |t| then [Head(t, i, w)] else [Head(t, i, w)] + Line(t, w + 1)
  {
  }

  // ---------------------------------------------------------------------
  // What parse_line promises
  // ---------------------------------------------------------------------

  /** The texts of the words from token `i` on, in order. */
  function WordTexts(t: seq<Token>, i: nat): seq<string>
    requires i <= |t|
    decreases |t| - i
  {
    if i == |t| then [] else (if t[i].kind == Normal then [t[i].text] else []) + WordTexts(t, i + 1)
  }

  /** The types of the operators from token `i` on, in order. */
  function OperatorKinds(t: seq<Token>, i: nat): seq<TokenType>
    requires i <= |t|
    decreases |t| - i
  {
    if i == |t| then [] else (if t[i].kind == Normal then [] else [t[i].kind]) + OperatorKinds(t, i + 1)
  }

  /** All words of the commands `cs`, in list order. */
  function AllArgs(cs: seq<Command>): seq<string>
    decreases |cs|
  {
    if |cs| == 0 then [] else cs[0].args + AllArgs(cs[1..])
  }

  /** The links of the commands `cs`, in list order. */
  function Links(cs: seq<Command>): seq<TokenType>
    decreases |cs|
  {
    if |cs| == 0 then [] else [cs[0].link] + Links(cs[1..])
  }

  lemma {:induction false} LinksAt(cs: seq<Command>, k: nat)
    requires k < |cs|
    ensures |Links(cs)| == |cs| && Links(cs)[k] == cs[k].link
    decreases |cs|
  {
    if k > 0 {
      LinksAt(cs[1..], k - 1);
    } else if |cs| > 1 {
      LinksAt(cs[1..], 0);
    }
  }

  /** A run of words contributes its texts. */
  lemma {:induction false} WordRunTexts(t: seq<Token>, i: nat, w: nat)
    requires i <= |t| && w == WordsEnd(t, i)
    ensures WordTexts(t, i) == Texts(t, i, w) + WordTexts(t, w)
    decreases w - i
  {
    if i < w {
      WordRunTexts(t, i + 1, w);
      TextsCons(t, i, w);
      ConcatAssoc([t[i].text], Texts(t, i + 1, w), WordTexts(t, w));
    }
  }

  /** The texts of a run, first text first. */
  lemma {:induction false} TextsCons(t: seq<Token>, i: nat, j: nat)
    requires i < j <= |t|
    ensures Texts(t, i, j) == [t[i].text] + Texts(t, i + 1, j)
    decreases j - i
  {
    if i + 1 < j {
      TextsCons(t, i, j - 1);
      ConcatAssoc([t[i].text], Texts(t, i + 1, j - 1), [t[j - 1].text]);
    }
  }

  /** The texts of a run are the strings its tokens hold. */
  lemma {:induction false} TextsAre(t: seq<Token>, i: nat, w: nat, a: seq<string>)
    requires i <= w <= |t| && |a| == w - i && forall k :: i <= k < w ==> t[k].text == a[k - i]
    ensures Texts(t, i, w) == a
    decreases w - i
  {
    if i < w {
      TextsAre(t, i, w - 1, a[..|a| - 1]);
      assert a == a[..|a| - 1] + [a[|a| - 1]];
    }
  }

  /** The texts of a run are the same after any prefix. */
  lemma {:induction false} TextsShift(p: seq<Token>, q: seq<Token>, j: nat, w: nat)
    requires j <= w <= |q|
    ensures Texts(p + q, |p| + j, |p| + w) == Texts(q, j, w)
    decreases w - j
  {
    if j < w {
      TextsShift(p, q, j, w - 1);
      assert (p + q)[|p| + w - 1] == q[w - 1];
    }
  }

  /** Every token of a run of words is a word. */
  lemma {:induction false} WordsEndNormal(t: seq<Token>, i: nat, k: nat)
    requires i <= k < |t| && k < WordsEnd(t, i)
    ensures t[k].kind == Normal
    decreases k - i
  {
    if i < k {
      WordsEndNormal(t, i + 1, k);
    }
  }

  /** A run of words contributes no operators. */
  lemma {:induction false} WordRunOperators(t: seq<Token>, i: nat, w: nat)
    requires i <= |t| && w == WordsEnd(t, i)
    ensures OperatorKinds(t, i) == OperatorKinds(t, w)
    decreases w - i
  {
    if i < w {
      WordRunOperators(t, i + 1, w);
    }
  }

  /** The words of a list: those of its first command, then the rest. */
  lemma {:induction false} AllArgsCons(c: Command, cs: seq<Command>)
    ensures AllArgs([c] + cs) == c.args + AllArgs(cs)
  {
    assert ([c] + cs)[1..] == cs;
  }

  /** `parse_line` keeps every word, in order, and nothing else. */
  lemma {:induction false} LineKeepsWords(t: seq<Token>, i: nat)
    requires i <= |t|
    ensures AllArgs(Line(t, i)) == WordTexts(t, i)
    decreases |t| - i
  {
    if i < |t| {
      var w := WordsEnd(t, i);
      if w == |t| {
        KeepsLastWords(t, i, w);
      } else {
        LineKeepsWords(t, w + 1);
        ArgsAfterWords(t, i, w);
        WordsAfterRun(t, i, w);
      }
    }
  }

  /** The last command holds the last words. */
  lemma {:induction false} KeepsLastWords(t: seq<Token>, i: nat, w: nat)
    requires i < |t| && w == WordsEnd(t, i) && w == |t|
    ensures AllArgs(Line(t, i)) == WordTexts(t, i)
  {
    WordRunTexts(t, i, w);
    LineStep(t, i, w);
    AllArgsCons(Head(t, i, w), []);
  }

  /** A command that an operator ends holds the words before it. */
  lemma {:induction false} ArgsAfterWords(t: seq<Token>, i: nat, w: nat)
    requires i < |t| && w == WordsEnd(t, i) && w < |t|
    ensures AllArgs(Line(t, i)) == Texts(t, i, w) + AllArgs(Line(t, w + 1))
  {
    LineStep(t, i, w);
    AllArgsCons(Head(t, i, w), Line(t, w + 1));
  }

  /** The words from a run: those of the run, then those after the operator that ends it. */
  lemma {:induction false} WordsAfterRun(t: seq<Token>, i: nat, w: nat)
    requires i < |t| && w == WordsEnd(t, i) && w < |t|
    ensures WordTexts(t, i) == Texts(t, i, w) + WordTexts(t, w + 1)
  {
    WordRunTexts(t, i, w);
    assert WordTexts(t, w) == [] + WordTexts(t, w + 1);
  }

  /** The `;` that ends a stream ending in a word, when something is left from `i`. */
  function Tail(t: seq<Token>, i: nat): seq<TokenType>
  {
    if i < |t| && t[|t| - 1].kind == Normal then [Sequence] else []
  }

  /** The links of the commands from `i`: that of the first command, then the rest. */
  lemma {:induction false} LinksStep(t: seq<Token>, i: nat, w: nat)
    requires i < |t| && w == WordsEnd(t, i)
    ensures Links(Line(t, i)) == if w == |t| then [Sequence] else [t[w].kind] + Links(Line(t, w + 1))
  {
    LineStep(t, i, w);
    if w < |t| {
      LinksCons(Line(t, i)[0], Line(t, w + 1));
    }
  }

  /** The operator that stops a run of words is the next operator, and the run adds no `;`. */
  lemma {:induction false} OperatorsStep(t: seq<Token>, i: nat, w: nat)
    requires i < |t| && w == WordsEnd(t, i) && w < |t|
    ensures OperatorKinds(t, i) + Tail(t, i) == [t[w].kind] + (OperatorKinds(t, w + 1) + Tail(t, w + 1))
  {
    WordRunOperators(t, i, w);
    assert Tail(t, i) == Tail(t, w + 1);
    ConcatAssoc([t[w].kind], OperatorKinds(t, w + 1), Tail(t, w + 1));
  }

  /** A stream that ends in a run of words: no operator, and the `;` the run is linked by. */
  lemma {:induction false} OperatorsLast(t: seq<Token>, i: nat, w: nat)
    requires i < |t| && w == WordsEnd(t, i) && w == |t|
    ensures OperatorKinds(t, i) + Tail(t, i) == [Sequence]
  {
    WordRunOperators(t, i, w);
    WordsEndNormal(t, i, |t| - 1);
  }

  /**
   * Each operator token links one command, in order, and a stream that
   * ends in a word gets one more command, linked by `;`.
   */
  lemma {:induction false} LineLinks(t: seq<Token>, i: nat)
    requires i <= |t|
    ensures Links(Line(t, i)) == OperatorKinds(t, i) + Tail(t, i)
    decreases |t| - i
  {
    if i < |t| {
      var w := WordsEnd(t, i);
      LinksStep(t, i, w);
      if w == |t| {
        OperatorsLast(t, i, w);
      } else {
        LineLinks(t, w + 1);
        OperatorsStep(t, i, w);
      }
    }
  }

  lemma {:induction false} LinksCons(c: Command, cs: seq<Command>)
    ensures Links([c] + cs) == [c.link] + Links(cs)
  {
    assert ([c] + cs)[1..] == cs;
  }

  /** No command of the list is linked by a word. */
  lemma {:induction false} LinksAreOperators(t: seq<Token>)
    ensures forall k :: 0 <= k < |ParseLine(t)| ==> ParseLine(t)[k].link != Normal
  {
    LineLinks(t, 0);
    var cs := ParseLine(t);
    var ops := OperatorKinds(t, 0);
    OperatorKindsNotNormal(t, 0);
    forall k | 0 <= k < |cs|
      ensures cs[k].link != Normal
    {
      LinksAt(cs, k);
      if k >= |ops| {
        assert Links(cs)[k] == Sequence;
      } else {
        assert Links(cs)[k] == ops[k];
      }
    }
  }

  lemma {:induction false} OperatorKindsNotNormal(t: seq<Token>, i: nat)
    requires i <= |t|
    ensures forall k :: 0 <= k < |OperatorKinds(t, i)| ==> OperatorKinds(t, i)[k] != Normal
    decreases |t| - i
  {
    if i < |t| {
      OperatorKindsNotNormal(t, i + 1);
    }
  }

  /**
   * The list `parse_line` returns can be run without following a missing
   * `next` exactly when the line is not empty and ends in a word, `;` or
   * `&`.
   */
  lemma {:induction false} ParsedListTerminated(t: seq<Token>)
    ensures Terminated(Links(ParseLine(t)))
        <==> |t| > 0 && (t[|t| - 1].kind == Normal || EndsChain(t[|t| - 1].kind))
  {
    LineLinks(t, 0);
    if |t| > 0 && t[|t| - 1].kind != Normal {
      LastOperator(t, 0);
    }
  }

  /** When the stream ends in an operator, that operator is the last one. */
  lemma {:induction false} LastOperator(t: seq<Token>, i: nat)
    requires i < |t| && t[|t| - 1].kind != Normal
    ensures |OperatorKinds(t, i)| > 0 && OperatorKinds(t, i)[|OperatorKinds(t, i)| - 1] == t[|t| - 1].kind
    decreases |t| - i
  {
    var head := if t[i].kind == Normal then [] else [t[i].kind];
    var rest := OperatorKinds(t, i + 1);
    assert OperatorKinds(t, i) == head + rest;
    if i + 1 < |t| {
      LastOperator(t, i + 1);
      assert (head + rest)[|head + rest| - 1] == rest[|rest| - 1];
    } else {
      assert rest == [];
    }
  }

  /** A line of words only is one command holding them all. */
  lemma {:induction false} WordsOnly(t: seq<Token>)
    requires |t| > 0 && forall k :: 0 <= k < |t| ==> t[k].kind == Normal
    ensures ParseLine(t) == [Command(Texts(t, 0, |t|), -1, Sequence, -1)]
  {
    WordsEndAt(t, 0, |t|);
  }

  // ---------------------------------------------------------------------
  // Writing a list out and parsing it back
  // ---------------------------------------------------------------------

  /** How a control operator is written. */
  function OperatorText(k: TokenType): string
  {
    match k
    case Sequence => ";"
    case Background => "&"
    case Pipe => "|"
    case And => "&&"
    case Or => "||"
    case LParen => "("
    case RParen => ")"
    case RedirectOp => "<"
    case Normal => ""
  }

  function WordTokens(args: seq<string>): seq<Token>
  {
    seq(|args|, k requires 0 <= k < |args| => Token(Normal, args[k]))
  }

  /** The tokens of a list: each command's words, then its link. */
  function Render(cs: seq<Command>): seq<Token>
    decreases |cs|
  {
    if |cs| == 0 then [] else Rendered(cs[0]) + Render(cs[1..])
  }

  /** The tokens of one command: its words, then its link. */
  function Rendered(c: Command): seq<Token>
  {
    WordTokens(c.args) + [Token(c.link, OperatorText(c.link))]
  }

  /** A command as `parse_line` makes it: not started, no pipe, linked by an operator. */
  predicate Fresh(c: Command)
  {
    c.pid == -1 && c.readfd == -1 && c.link != Normal
  }

  /** The word run that ends at the first operator. */
  lemma {:induction false} WordsEndAt(t: seq<Token>, i: nat, w: nat)
    requires i <= w <= |t| && (w < |t| ==> t[w].kind != Normal) && forall k :: i <= k < w ==> t[k].kind == Normal
    ensures WordsEnd(t, i) == w
    decreases w - i
  {
    if i < w {
      WordsEndAt(t, i + 1, w);
    }
  }

  /** The words of a command written out, then its operator and whatever follows, parse to that command first. */
  lemma {:induction false} RenderedCommand(c: Command, q: seq<Token>)
    requires Fresh(c)
    ensures Line(Rendered(c) + q, 0) == [c] + Line(Rendered(c) + q, |Rendered(c)|)
  {
    var t := Rendered(c) + q;
    var w := |c.args|;
    RenderedTokens(c, q);
    RenderedWords(c, q);
    LineStep(t, 0, w);
    assert Head(t, 0, w) == c;
  }

  /** Where each token of a command written out sits. */
  lemma {:induction false} RenderedTokens(c: Command, q: seq<Token>)
    ensures |Rendered(c)| == |c.args| + 1
    ensures (Rendered(c) + q)[|c.args|] == Token(c.link, OperatorText(c.link))
    ensures forall k :: 0 <= k < |c.args| ==> (Rendered(c) + q)[k] == Token(Normal, c.args[k])
  {
    forall k | 0 <= k < |c.args|
      ensures (Rendered(c) + q)[k] == Token(Normal, c.args[k])
    {
      assert (Rendered(c) + q)[k] == WordTokens(c.args)[k];
    }
  }

  /** The words of a command written out are one run, holding its words. */
  lemma {:induction false} RenderedWords(c: Command, q: seq<Token>)
    requires c.link != Normal
    ensures |c.args| < |Rendered(c) + q|
    ensures WordsEnd(Rendered(c) + q, 0) == |c.args| && Texts(Rendered(c) + q, 0, |c.args|) == c.args
  {
    var t := Rendered(c) + q;
    RenderedTokens(c, q);
    WordsEndAt(t, 0, |c.args|);
    TextsAre(t, 0, |c.args|, c.args);
  }

  /** A run of words is the same run after any prefix. */
  lemma {:induction false} WordsEndShift(p: seq<Token>, q: seq<Token>, j: nat)
    requires j <= |q|
    ensures WordsEnd(p + q, |p| + j) == |p| + WordsEnd(q, j)
    decreases |q| - j
  {
    if j < |q| {
      assert (p + q)[|p| + j] == q[j];
      if q[j].kind == Normal {
        WordsEndShift(p, q, j + 1);
      }
    }
  }

  /** A command built after a prefix is the one built without it. */
  lemma {:induction false} HeadShift(p: seq<Token>, q: seq<Token>, j: nat, w: nat)
    requires j <= w <= |q|
    ensures Head(p + q, |p| + j, |p| + w) == Head(q, j, w)
  {
    TextsShift(p, q, j, w);
    if w < |q| {
      assert (p + q)[|p| + w] == q[w];
    }
  }

  /** The commands `parse_line` builds from a position depend only on the tokens from there on. */
  lemma {:induction false} LineShift(p: seq<Token>, q: seq<Token>, j: nat)
    requires j <= |q|
    ensures Line(p + q, |p| + j) == Line(q, j)
    decreases |q| - j
  {
    if j < |q| {
      var w := WordsEnd(q, j);
      if w < |q| {
        LineShift(p, q, w + 1);
        ShiftNext(p, q, j, w);
      } else {
        ShiftLast(p, q, j, w);
      }
    }
  }

  /** The last command is the same after a prefix. */
  lemma {:induction false} ShiftLast(p: seq<Token>, q: seq<Token>, j: nat, w: nat)
    requires j < |q| && w == WordsEnd(q, j) && w == |q|
    ensures Line(p + q, |p| + j) == Line(q, j)
  {
    WordsEndShift(p, q, j);
    HeadShift(p, q, j, w);
    LineStep(p + q, |p| + j, |p| + w);
    LineStep(q, j, w);
  }

  /** A command that an operator ends is the same after a prefix, and so is the rest when it is. */
  lemma {:induction false} ShiftNext(p: seq<Token>, q: seq<Token>, j: nat, w: nat)
    requires j < |q| && w == WordsEnd(q, j) && w < |q|
    requires Line(p + q, |p| + w + 1) == Line(q, w + 1)
    ensures Line(p + q, |p| + j) == Line(q, j)
  {
    WordsEndShift(p, q, j);
    HeadShift(p, q, j, w);
    LineStep(p + q, |p| + j, |p| + w);
    LineStep(q, j, w);
  }

  /** A command written out before a list parses to that command, then the list. */
  lemma {:induction false} RenderedFirst(c: Command, q: seq<Token>)
    requires Fresh(c)
    ensures Line(Rendered(c) + q, 0) == [c] + Line(q, 0)
  {
    RenderedCommand(c, q);
    LineShift(Rendered(c), q, 0);
  }

  /** The commands after the first of a list of fresh commands are fresh. */
  lemma {:induction false} FreshRest(cs: seq<Command>)
    requires |cs| > 0 && forall k :: 0 <= k < |cs| ==> Fresh(cs[k])
    ensures Fresh(cs[0]) && forall k :: 0 <= k < |cs[1..]| ==> Fresh(cs[1..][k])
  {
    forall k | 0 <= k < |cs[1..]|
      ensures Fresh(cs[1..][k])
    {
      assert cs[1..][k] == cs[k + 1];
    }
  }

  /** `parse_line` inverts writing a list out. */
  lemma {:induction false} ParseRender(cs: seq<Command>)
    requires forall k :: 0 <= k < |cs| ==> Fresh(cs[k])
    ensures ParseLine(Render(cs)) == cs
    decreases |cs|
  {
    if |cs| > 0 {
      FreshRest(cs);
      ParseRender(cs[1..]);
      RenderedFirst(cs[0], Render(cs[1..]));
      HeadTail(cs);
    }
  }

  // ---------------------------------------------------------------------
  // Running the list
  // ---------------------------------------------------------------------

  /**
   * What the skip loop skips after a pipeline whose last command ended
   * with `w`: only a normal exit counts — `||` after exit code 0, `&&`
   * after any other code; a signal skips nothing.
   */
  function HandoutSkip(w: WaitStatus): Option<TokenType>
  {
    match w
    case Exited(code) => if code == 0 then Some(Or) else Some(And)
    case Signaled(_) => None
  }

  function Skips(waits: seq<WaitStatus>): (s: seq<Option<TokenType>>)
    ensures |s| == |waits| && SkipOps(s)
    ensures forall k :: 0 <= k < |waits| ==> s[k] == HandoutSkip(waits[k])
  {
    seq(|waits|, k requires 0 <= k < |waits| => HandoutSkip(waits[k]))
  }

  /** `run_pipeline(c)`: start `c`, and if it is linked by `|`, the pipeline after it. */
  method RunPipeline(links: seq<TokenType>, c: nat) returns (started: seq<nat>)
    requires c < |links|
    ensures started == PipelineMembers(links, c)
    decreases |links| - c
  {
    started := [c];
    if links[c] != Pipe {
      return;
    }
    if c + 1 < |links| {
      var rest := RunPipeline(links, c + 1);
      started := started + rest;
    }
  }

  /**
   * The handling of the wait status of the pipeline ending at `e`: after
   * a normal exit, skip each pipeline linked by the operator the status
   * makes irrelevant.
   */
  method HandleWait(links: seq<TokenType>, waits: seq<WaitStatus>, e: nat) returns (k: nat)
    requires Terminated(links) && |waits| == |links| && e < |links| && links[e] != Pipe
    ensures k == SkipEnd(links, Skips(waits), e)
  {
    k := e;
    match waits[e]
    case Exited(code) =>
      ghost var op := if code == 0 then Or else And;
      while (code == 0 && CondType(links, k) == Some(Or)) || (code != 0 && CondType(links, k) == Some(And))
        invariant e <= k < |links| && links[k] != Pipe && Skip(links, k, op) == Skip(links, e, op)
        decreases |links| - k
      {
        k := Sh61Run.SeekPipelineEnd(links, k + 1);
      }
    case Signaled(_) =>
  }

  /** The loop of `run_conditional` over the chain at `c0`. */
  method RunChain(links: seq<TokenType>, waits: seq<WaitStatus>, c0: nat) returns (ran: seq<nat>)
    requires Terminated(links) && c0 < |links| && |waits| == |links|
    ensures ran == SourceChain(links, Skips(waits), c0)
  {
    ran := [];
    var c := c0;
    ghost var skips := Skips(waits);
    while true
      invariant c < |links| && SourceChain(links, skips, c0) == ran + SourceChain(links, skips, c)
      decreases |links| - c
    {
      var members := RunPipeline(links, c);
      var e := Sh61Run.SeekPipelineEnd(links, c);
      var k := HandleWait(links, waits, e);
      SourceChainGrows(links, skips, c0, ran, c, k);
      ran := ran + [c];
      if EndsChain(links[k]) {
        break;
      }
      c := k + 1;
    }
  }

  /**
   * `run_conditional(c, bg)`: a background chain runs in a forked shell,
   * and nothing runs when that fork fails; a foreground chain runs here.
   */
  method RunConditional(links: seq<TokenType>, waits: seq<WaitStatus>, c: nat, bg: bool, forkOk: bool)
    returns (ran: seq<nat>)
    requires Terminated(links) && c < |links| && |waits| == |links|
    ensures ran == if bg && !forkOk then [] else SourceChain(links, Skips(waits), c)
  {
    ran := [];
    if bg && !forkOk {
      return;
    }
    ran := RunChain(links, waits, c);
  }

  /** `run(c)`: the chain at `i` (in the background when it ends in `&`), then the rest of the list. */
  method Run(links: seq<TokenType>, waits: seq<WaitStatus>, i: nat, forkFails: set<nat>) returns (ran: seq<nat>)
    requires Terminated(links) && i < |links| && |waits| == |links|
    ensures ran == ListRan(links, Skips(waits), i, forkFails)
    decreases |links| - i
  {
    var k := i;
    while !EndsChain(links[k])
      invariant i <= k <= ChainEnd(links, i)
      decreases |links| - k
    {
      k := k + 1;
    }
    ChainEndFirst(links, i, k);
    ran := RunConditional(links, waits, i, links[k] == Background, i !in forkFails);
    ListRanStep(links, Skips(waits), i, k, forkFails);
    if k + 1 < |links| {
      var more := Run(links, waits, k + 1, forkFails);
      ran := ran + more;
    }
  }

  // ---------------------------------------------------------------------
  // The two versions side by side
  // ---------------------------------------------------------------------

  /** When every pipeline exits normally, both versions skip the same operators. */
  lemma {:induction false} ExitsAgree(waits: seq<WaitStatus>)
    requires forall k :: 0 <= k < |waits| ==> waits[k].Exited?
    ensures Skips(waits) == Sh61Run.Skips(waits)
  {
  }

  /** ... and so they start the same pipelines. */
  lemma {:induction false} ExitsRunTheSame(links: seq<TokenType>, waits: seq<WaitStatus>, i: nat, forkFails: set<nat>)
    requires Terminated(links) && i < |links| && |waits| == |links|
    requires forall k :: 0 <= k < |waits| ==> waits[k].Exited?
    ensures ListRan(links, Skips(waits), i, forkFails) == ListRan(links, Sh61Run.Skips(waits), i, forkFails)
  {
    ExitsAgree(waits);
  }

  /** `a && b` where `a` is interrupted: this version runs `b`, the later one does not. */
  lemma {:induction false} InterruptDiffers()
    ensures SourceChain([And, Sequence], Skips([Signaled(Sh61Run.SIGINT), Exited(0)]), 0) == [0, 1]
    ensures SourceChain([And, Sequence], Sh61Run.Skips([Signaled(Sh61Run.SIGINT), Exited(0)]), 0) == [0]
  {
    var links := [And, Sequence];
    var waits := [Signaled(Sh61Run.SIGINT), Exited(0)];
    assert SkipEnd(links, Skips(waits), 0) == 0;
    assert SourceChain(links, Skips(waits), 1) == [1];
    assert CondType(links, 0) == Some(And);
    assert CondType(links, 1) == None;
    assert Skip(links, 0, And) == 1;
  }
}
