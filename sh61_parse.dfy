// The command-list parser of psets/pset5/sh61.cc: `parse_list` turns the
// token stream into a list of commands, each holding its words, its
// redirections, an optional subshell list and the operator that ends it.
//
// The tokenizer is not part of this model; its output is a sequence of
// tokens. Where the parser reads the type of the token at the end of the
// stream, the end reads as `;` (type Sequence), and stepping past the end
// stays at the end.

module Sh61 {
  import opened Sh61Common

  /** `O_TRUNC` or `O_APPEND`, the mode of an output redirection. */
  datatype Mode = Truncate | Append

  /**
   * `struct command`. Its `next` is the following element of the list it
   * is in; `sub` is the subshell list `sub_front` points to (empty for
   * `nullptr`).
   */
  datatype Command = Command(args: seq<string>, pid: int, link: TokenType, readfd: int,
                             inFiles: map<int, string>, outFiles: map<int, (string, Mode)>,
                             sub: seq<Command>, subBg: bool)

  /** `command::command()`. */
  function NewCommand(): Command
  {
    Command([], -1, Sequence, -1, map[], map[], [], false)
  }

  /** The type of the token at `i`; the end of the stream reads as `;`. */
  function KindAt(t: seq<Token>, i: nat): TokenType
  {
    if i < |t| then t[i].kind else Sequence
  }

  /** `++it`, which stays at the end once there. */
  function Advance(t: seq<Token>, i: nat): nat
  {
    if i < |t| then i + 1 else i
  }

  /** The words and redirections of a command continue at `i`. */
  predicate InWords(t: seq<Token>, i: nat)
  {
    KindAt(t, i) == Normal || KindAt(t, i) == RedirectOp
  }

  /**
   * The redirection at `i` can be parsed: it is followed by a word, as the
   * parser asserts, and the operator has a first character to read.
   */
  predicate RedirectAt(t: seq<Token>, i: nat)
  {
    i + 1 < |t| && t[i + 1].kind == Normal && |t[i].text| > 0
  }

  /** Every redirection of the stream can be parsed; the parser then never aborts. */
  predicate RedirectsWellFormed(t: seq<Token>)
  {
    forall k :: 0 <= k < |t| && t[k].kind == RedirectOp ==> RedirectAt(t, k)
  }

  // ---------------------------------------------------------------------
  // Redirection operators
  // ---------------------------------------------------------------------

  predicate IsDigit(ch: char)
  {
    '0' <= ch <= '9'
  }

  function LeadingDigits(s: string): (r: string)
    ensures r <= s
  {
    if |s| > 0 && IsDigit(s[0]) then [s[0]] + LeadingDigits(s[1..]) else []
  }

  /** The decimal value of a string of digits. */
  function Decimal(d: string): nat
  {
    if |d| == 0 then 0
    else 10 * Decimal(d[..|d| - 1]) + (if IsDigit(d[|d| - 1]) then d[|d| - 1] as int - '0' as int else 0)
  }

  /** The characters of `s` that are not digits, in order. */
  function NonDigits(s: string): string
  {
    if |s| == 0 then []
    else NonDigits(s[..|s| - 1]) + (if IsDigit(s[|s| - 1]) then [] else [s[|s| - 1]])
  }

  /** The fd written before the operator (`std::stoi`), or -1 when there is none. */
  function FdOf(op: string): int
    requires |op| > 0
  {
    if IsDigit(op[0]) then Decimal(LeadingDigits(op)) else -1
  }

  /** The operator without the fd: its non-digit characters, or all of it. */
  function RawOf(op: string): string
    requires |op| > 0
  {
    if IsDigit(op[0]) then NonDigits(op) else op
  }

  predicate IsInput(op: string)
    requires |op| > 0
  {
    RawOf(op) == "<"
  }

  predicate IsOutput(op: string)
    requires |op| > 0
  {
    RawOf(op) == ">" || RawOf(op) == ">>"
  }

  /** The fd an input redirection applies to: standard input by default. */
  function InputFd(op: string): int
    requires |op| > 0
  {
    if FdOf(op) == -1 then 0 else FdOf(op)
  }

  /** The fd an output redirection applies to: standard output by default. */
  function OutputFd(op: string): int
    requires |op| > 0
  {
    if FdOf(op) == -1 then 1 else FdOf(op)
  }

  /** What the redirection `op file` records in command `c`. */
  function Redirect(c: Command, op: string, file: string): Command
    requires |op| > 0
  {
    if IsInput(op) then c.(inFiles := c.inFiles[InputFd(op) := file])
    else if IsOutput(op) then
      c.(outFiles := c.outFiles[OutputFd(op) := (file, if RawOf(op) == ">>" then Append else Truncate)])
    else c
  }

  // ---------------------------------------------------------------------
  // parse_list as functions
  // ---------------------------------------------------------------------

  /**
   * A command and where its tokens end, or `Abort` when the shell dies:
   * the assertion that a redirection is followed by a word fails, or
   * `op.at(0)` throws on an empty operator.
   */
  datatype Built = Built(cmd: Command, pos: nat) | Abort

  /** A command list and where it ends, or `ParseAbort` when the shell dies. */
  datatype Parse = Parse(cmds: seq<Command>, pos: nat) | ParseAbort

  /** The inner loop: words become arguments, redirections are recorded. */
  function Words(t: seq<Token>, i: nat, c: Command): (r: Built)
    requires i <= |t|
    ensures r.Built? ==> i <= r.pos <= |t| && !InWords(t, r.pos)
    ensures RedirectsWellFormed(t) ==> r.Built?
    decreases |t| - i
  {
    if KindAt(t, i) == Normal then Words(t, i + 1, c.(args := c.args + [t[i].text]))
    else if KindAt(t, i) == RedirectOp then
      if RedirectAt(t, i) then Words(t, i + 2, Redirect(c, t[i].text, t[i + 1].text))
      else Abort
    else Built(c, i)
  }

  /**
   * The inner loop started at `i` gets to position `k`: it steps over a
   * word, or over a redirection together with its file.
   */
  predicate WordsReach(t: seq<Token>, i: nat, k: nat)
    decreases |t| - i
  {
    i == k
    || (i < k && i < |t| && t[i].kind == Normal && WordsReach(t, i + 1, k))
    || (i < k && i < |t| && t[i].kind == RedirectOp && RedirectAt(t, i) && WordsReach(t, i + 2, k))
  }

  /**
   * One command from `i`: an optional parenthesised subshell list, then
   * words and redirections; its link is the type of the token that
   * stopped them.
   */
  function Group(t: seq<Token>, i: nat): (r: Built)
    requires i < |t|
    ensures r.Built? ==> i <= r.pos <= |t| && r.cmd.link == KindAt(t, r.pos)
    ensures RedirectsWellFormed(t) ==> r.Built?
    decreases |t| - i, 0
  {
    var start := if t[i].kind == LParen then
                   var inner := List(t, i + 1);
                   if inner.ParseAbort? then Abort
                   else Built(NewCommand().(sub := inner.cmds), Advance(t, inner.pos))
                 else Built(NewCommand(), i);
    if start.Abort? then Abort
    else
      var w := Words(t, start.pos, start.cmd);
      if w.Abort? then Abort
      else Built(w.cmd.(link := KindAt(t, w.pos)), w.pos)
  }

  /**
   * `parse_list(it, end)`: commands until the end of the stream, or until
   * a `)`, which ends the last command as `;` and is left for the caller.
   */
  function List(t: seq<Token>, i: nat): (r: Parse)
    requires i <= |t|
    ensures r.Parse? ==> i <= r.pos <= |t|
    ensures RedirectsWellFormed(t) ==> r.Parse?
    decreases |t| - i, 1
  {
    if i == |t| then Parse([], i)
    else
      var g := Group(t, i);
      if g.Abort? then ParseAbort
      else if g.cmd.link == RParen then Parse([g.cmd.(link := Sequence)], g.pos)
      else
        var rest := List(t, Advance(t, g.pos));
        if rest.ParseAbort? then ParseAbort
        else Parse([g.cmd] + rest.cmds, rest.pos)
  }

  /** `parse_line`: the whole stream, or `None` when the shell dies parsing it. */
  function ParseLine(t: seq<Token>): (r: Option<seq<Command>>)
    ensures RedirectsWellFormed(t) ==> r.Some?
  {
    var p := List(t, 0);
    if p.ParseAbort? then None else Some(p.cmds)
  }

  // ---------------------------------------------------------------------
  // parse_list as the source writes it
  // ---------------------------------------------------------------------

  /** The fd and raw operator of a redirection token, with the source's loop over it. */
  method SplitOperator(op: string) returns (fd: int, raw: string)
    requires |op| > 0
    ensures fd == FdOf(op) && raw == RawOf(op)
  {
    fd := -1;
    if IsDigit(op[0]) {
      fd := Decimal(LeadingDigits(op));
      raw := "";
      var i := 0;
      while i < |op|
        invariant 0 <= i <= |op|
        invariant raw == NonDigits(op[..i])
      {
        if !IsDigit(op[i]) {
          raw := raw + [op[i]];
        }
        assert op[..i + 1][..i] == op[..i];
        i := i + 1;
      }
      assert op[..|op|] == op;
    } else {
      raw := op;
    }
  }

  /** The redirection branch of the inner loop. */
  method AddRedirect(c: Command, op: string, file: string) returns (d: Command)
    requires |op| > 0
    ensures d == Redirect(c, op, file)
  {
    var fd, raw := SplitOperator(op);
    d := c;
    if raw == "<" {
      fd := if fd == -1 then 0 else fd;
      d := d.(inFiles := d.inFiles[fd := file]);
    } else if raw == ">" || raw == ">>" {
      fd := if fd == -1 then 1 else fd;
      var mode := Truncate;
      if raw == ">>" {
        mode := Append;
      }
      d := d.(outFiles := d.outFiles[fd := (file, mode)]);
    }
  }

  /** The inner loop of `parse_list` over the words and redirections from `i`. */
  method ParseWords(t: seq<Token>, i: nat, c0: Command) returns (ok: bool, c: Command, it: nat)
    requires i <= |t|
    ensures (if ok then Built(c, it) else Abort) == Words(t, i, c0)
  {
    c, it := c0, i;
    while InWords(t, it)
      invariant it <= |t| && Words(t, it, c) == Words(t, i, c0)
      decreases |t| - it
    {
      if t[it].kind == Normal {
        c := c.(args := c.args + [t[it].text]);
      }
      if t[it].kind == RedirectOp {
        var op := t[it].text;
        it := it + 1;
        if KindAt(t, it) != Normal || |op| == 0 {
          return false, c, it;
        }
        c := AddRedirect(c, op, t[it].text);
      }
      it := it + 1;
    }
    ok := true;
  }

  /**
   * The body of the loop of `parse_list` for the command starting at `i`:
   * the subshell list, the words and the link.
   */
  method ParseGroup(t: seq<Token>, i: nat) returns (ok: bool, c: Command, it: nat)
    requires i < |t|
    ensures (if ok then Built(c, it) else Abort) == Group(t, i)
    decreases |t| - i, 0
  {
    c := NewCommand();
    it := i;
    if t[it].kind == LParen {
      it := it + 1;
      var sub, stop;
      ok, sub, stop := ParseList(t, it);
      if !ok {
        return;
      }
      c := c.(sub := sub);
      it := Advance(t, stop);
    }
    ok, c, it := ParseWords(t, it, c);
    if ok {
      c := c.(link := KindAt(t, it));
    }
  }

  /** `parse_list(it, end)`, with the iterator as an index into the stream. */
  method ParseList(t: seq<Token>, i: nat) returns (ok: bool, cmds: seq<Command>, pos: nat)
    requires i <= |t|
    ensures (if ok then Parse(cmds, pos) else ParseAbort) == List(t, i)
    decreases |t| - i, 1
  {
    cmds := [];
    var it := i;
    while it != |t|
      invariant i <= it <= |t|
      invariant List(t, i) == (if List(t, it).ParseAbort? then ParseAbort
                               else Parse(cmds + List(t, it).cmds, List(t, it).pos))
      decreases |t| - it
    {
      var okc, c, stop := ParseGroup(t, it);
      if !okc {
        return false, cmds, it;
      }
      if c.link == RParen {
        c := c.(link := Sequence);
        cmds := cmds + [c];
        return true, cmds, stop;
      }
      cmds := cmds + [c];
      it := Advance(t, stop);
    }
    ok, pos := true, it;
  }
}
