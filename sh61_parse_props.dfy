// Properties of the parser of psets/pset5/sh61.cc: a list of plain
// commands written out as tokens parses back to itself, the end of the
// stream closes the last command as `;`, a parenthesised list becomes a
// subshell, the constructor's defaults survive parsing, and the
// redirection rules (default fds, modes, the last redirection of an fd
// winning).

module Sh61ParseProperties {
  import opened Sh61Common
  import opened Sh61

  /** The words of a command as tokens. */
  function WordTokens(args: seq<string>): (r: seq<Token>)
    ensures |r| == |args|
  {
    if |args| == 0 then [] else [Token(Normal, args[0])] + WordTokens(args[1..])
  }

  /** A command list written out: each command's words, then its link as an operator token. */
  function Unparse(cs: seq<Command>): seq<Token>
  {
    if |cs| == 0 then [] else WordTokens(cs[0].args) + [Token(cs[0].link, "")] + Unparse(cs[1..])
  }

  /** A command of words only, ended by a control operator. */
  predicate Plain(c: Command)
  {
    IsOperator(c.link) && c.pid == -1 && c.readfd == -1 && c.inFiles == map[] && c.outFiles == map[]
    && c.sub == [] && !c.subBg
  }

  predicate AllPlain(cs: seq<Command>)
  {
    forall k :: 0 <= k < |cs| ==> Plain(cs[k])
  }

  predicate NoRedirects(t: seq<Token>)
  {
    forall k :: 0 <= k < |t| ==> t[k].kind != RedirectOp
  }

  // ---------------------------------------------------------------------
  // Helpers on token sequences
  // ---------------------------------------------------------------------

  lemma {:induction false} WordTokensPlain(args: seq<string>)
    ensures forall k :: 0 <= k < |args| ==> WordTokens(args)[k] == Token(Normal, args[k])
    decreases |args|
  {
    if |args| > 0 {
      WordTokensPlain(args[1..]);
      forall k | 0 <= k < |args|
        ensures WordTokens(args)[k] == Token(Normal, args[k])
      {
        if k > 0 {
          assert WordTokens(args)[k] == WordTokens(args[1..])[k - 1];
        }
      }
    }
  }

  lemma {:induction false} UnparseNoRedirects(cs: seq<Command>)
    requires AllPlain(cs)
    ensures NoRedirects(Unparse(cs))
    decreases |cs|
  {
    if |cs| > 0 {
      WordTokensPlain(cs[0].args);
      UnparseNoRedirects(cs[1..]);
      var a := WordTokens(cs[0].args) + [Token(cs[0].link, "")];
      var u := Unparse(cs);
      assert u == a + Unparse(cs[1..]);
      forall k | 0 <= k < |u|
        ensures u[k].kind != RedirectOp
      {
        if k >= |a| {
          assert u[k] == Unparse(cs[1..])[k - |a|];
        } else if k < |cs[0].args| {
          assert u[k] == WordTokens(cs[0].args)[k];
        }
      }
    }
  }

  /** Reading the three pieces of `t[p..] == a + [b] + c` back out of `t`. */
  lemma {:induction false} Pieces(t: seq<Token>, p: nat, a: seq<Token>, b: Token, c: seq<Token>)
    requires p <= |t| && t[p..] == a + [b] + c
    ensures p + |a| < |t| && t[p..p + |a|] == a && t[p + |a|] == b && t[p + |a| + 1..] == c
  {
    assert t[p..p + |a|] == t[p..][..|a|];
    assert t[p + |a|] == t[p..][|a|];
    assert t[p + |a| + 1..] == t[p..][|a| + 1..];
  }

  /** Words followed by a non-word are all collected as arguments, in order. */
  lemma {:induction false} WordsRun(t: seq<Token>, p: nat, c: Command, args: seq<string>)
    requires RedirectsWellFormed(t) && p + |args| <= |t|
    requires t[p..p + |args|] == WordTokens(args)
    requires !InWords(t, p + |args|)
    ensures Words(t, p, c) == Built(c.(args := c.args + args), p + |args|)
    decreases |args|
  {
    if |args| == 0 {
      assert c.args + args == c.args;
    } else {
      assert t[p] == t[p..p + |args|][0] == Token(Normal, args[0]);
      assert t[p + 1..p + |args|] == t[p..p + |args|][1..] == WordTokens(args[1..]);
      WordsRun(t, p + 1, c.(args := c.args + [args[0]]), args[1..]);
      assert Words(t, p, c) == Words(t, p + 1, c.(args := c.args + [args[0]]));
      assert c.args + [args[0]] + args[1..] == c.args + args;
    }
  }

  /** A group that does not open with `(`: its words, then its link. */
  lemma {:induction false} GroupOfWords(t: seq<Token>, p: nat, w: Built)
    requires RedirectsWellFormed(t) && p < |t| && t[p].kind != LParen
    requires Words(t, p, NewCommand()) == w
    ensures Group(t, p) == Built(w.cmd.(link := KindAt(t, w.pos)), w.pos)
  {
  }

  /** A group closed by `)` is the last command of its list, ended as by `;`. */
  lemma {:induction false} ListParen(t: seq<Token>, p: nat, g: Built)
    requires RedirectsWellFormed(t) && p < |t| && Group(t, p) == g && g.cmd.link == RParen
    ensures List(t, p) == Parse([g.cmd.(link := Sequence)], g.pos)
  {
  }

  /** The first command of a written-out plain list is read back from `p`. */
  lemma {:induction false} PlainGroup(t: seq<Token>, p: nat, c: Command)
    requires RedirectsWellFormed(t) && Plain(c)
    requires p + |c.args| < |t| && t[p..p + |c.args|] == WordTokens(c.args)
    requires t[p + |c.args|] == Token(c.link, "")
    ensures Group(t, p) == Built(c, p + |c.args|)
  {
    var n := |c.args|;
    if n > 0 {
      assert t[p] == t[p..p + n][0];
    }
    WordsRun(t, p, NewCommand(), c.args);
    assert NewCommand().args + c.args == c.args;
    GroupOfWords(t, p, Built(NewCommand().(args := c.args), p + n));
  }

  /**
   * `t` holds, from `p` to its end, the plain commands `cs` one after the
   * other, each as its words and then its operator.
   */
  predicate Layout(t: seq<Token>, p: nat, cs: seq<Command>)
    decreases |cs|
  {
    if |cs| == 0 then p == |t|
    else
      var n := |cs[0].args|;
      Plain(cs[0]) && p + n < |t| && t[p..p + n] == WordTokens(cs[0].args)
      && t[p + n] == Token(cs[0].link, "") && Layout(t, p + n + 1, cs[1..])
  }

  /** A written-out plain list has that layout. */
  lemma {:induction false} UnparseLayout(t: seq<Token>, p: nat, cs: seq<Command>)
    requires p <= |t| && t[p..] == Unparse(cs) && AllPlain(cs)
    ensures Layout(t, p, cs)
    decreases |cs|
  {
    if |cs| == 0 {
      assert |t[p..]| == 0;
    } else {
      Pieces(t, p, WordTokens(cs[0].args), Token(cs[0].link, ""), Unparse(cs[1..]));
      forall k | 0 <= k < |cs| - 1
        ensures Plain(cs[1..][k])
      {
        assert cs[1..][k] == cs[k + 1];
      }
      UnparseLayout(t, p + |cs[0].args| + 1, cs[1..]);
    }
  }

  /** `parse_list` over a command that is not closed by `)`, then the rest of the list. */
  lemma {:induction false} ListStep(t: seq<Token>, p: nat, c: Command, q: nat, rest: seq<Command>, end: nat)
    requires RedirectsWellFormed(t) && p <= q < |t|
    requires Group(t, p) == Built(c, q) && c.link != RParen
    requires List(t, q + 1) == Parse(rest, end)
    ensures List(t, p) == Parse([c] + rest, end)
  {
  }

  /** At the end of the stream the list is empty. */
  lemma {:induction false} ListAtEnd(t: seq<Token>, p: nat)
    requires RedirectsWellFormed(t) && p == |t|
    ensures List(t, p) == Parse([], |t|)
  {
  }

  lemma {:induction false} ListRun(t: seq<Token>, p: nat, cs: seq<Command>)
    requires RedirectsWellFormed(t) && Layout(t, p, cs)
    ensures List(t, p) == Parse(cs, |t|)
    decreases |cs|
  {
    if |cs| == 0 {
      ListAtEnd(t, p);
    } else {
      var q := p + |cs[0].args|;
      PlainGroup(t, p, cs[0]);
      ListRun(t, q + 1, cs[1..]);
      ListStep(t, p, cs[0], q, cs[1..], |t|);
      HeadTail(cs);
    }
  }

  /** The words of the last command of `cs` and everything before it, as tokens. */
  function UnparseOpen(cs: seq<Command>): seq<Token>
    requires |cs| > 0
  {
    Unparse(cs[..|cs| - 1]) + WordTokens(cs[|cs| - 1].args)
  }

  /** Words closed by `)` make the last command of a subshell list, ended as by `;`. */
  lemma {:induction false} ListLastBeforeParen(t: seq<Token>, p: nat, c: Command)
    requires RedirectsWellFormed(t) && Plain(c) && c.link == Sequence
    requires p + |c.args| < |t| && t[p..p + |c.args|] == WordTokens(c.args)
    requires t[p + |c.args|].kind == RParen
    ensures List(t, p) == Parse([c], p + |c.args|)
  {
    var n := |c.args|;
    if n > 0 {
      assert t[p] == t[p..p + n][0];
    }
    WordsRun(t, p, NewCommand(), c.args);
    assert NewCommand().args + c.args == c.args;
    GroupOfWords(t, p, Built(NewCommand().(args := c.args), p + n));
    ListParen(t, p, Built(NewCommand().(args := c.args, link := RParen), p + n));
  }

  /**
   * `t` holds, from `p`, the plain commands `cs` one after the other, the
   * last one as its words only, followed by `)`.
   */
  predicate OpenLayout(t: seq<Token>, p: nat, cs: seq<Command>)
    decreases |cs|
  {
    |cs| > 0 &&
    var n := |cs[0].args|;
    Plain(cs[0]) && p + n < |t| && t[p..p + n] == WordTokens(cs[0].args)
    && if |cs| == 1 then cs[0].link == Sequence && t[p + n].kind == RParen
       else t[p + n] == Token(cs[0].link, "") && OpenLayout(t, p + n + 1, cs[1..])
  }

  /** The number of tokens of `cs` in an open layout, up to the `)`. */
  function OpenWidth(cs: seq<Command>): nat
    requires |cs| > 0
    decreases |cs|
  {
    if |cs| == 1 then |cs[0].args| else |cs[0].args| + 1 + OpenWidth(cs[1..])
  }

  /** A written-out open list followed by `)` has that layout. */
  lemma {:induction false} UnparseOpenLayout(t: seq<Token>, p: nat, cs: seq<Command>)
    requires |cs| > 0 && AllPlain(cs) && cs[|cs| - 1].link == Sequence
    requires p + |UnparseOpen(cs)| < |t| && t[p..p + |UnparseOpen(cs)|] == UnparseOpen(cs)
    requires t[p + |UnparseOpen(cs)|].kind == RParen
    ensures OpenLayout(t, p, cs) && |UnparseOpen(cs)| == OpenWidth(cs)
    decreases |cs|
  {
    if |cs| == 1 {
      UnparseOpenSingle(cs);
    } else {
      UnparseOpenHead(t, p, cs);
      UnparseOpenLayout(t, p + |cs[0].args| + 1, cs[1..]);
      OpenLayoutCons(t, p, cs);
    }
  }

  /** The first command laid out in front of the open layout of the rest. */
  lemma {:induction false} OpenLayoutCons(t: seq<Token>, p: nat, cs: seq<Command>)
    requires |cs| > 1 && p + |cs[0].args| < |t| && Plain(cs[0])
    requires t[p..p + |cs[0].args|] == WordTokens(cs[0].args) && t[p + |cs[0].args|] == Token(cs[0].link, "")
    requires OpenLayout(t, p + |cs[0].args| + 1, cs[1..])
    requires |UnparseOpen(cs)| == |cs[0].args| + 1 + |UnparseOpen(cs[1..])| && |UnparseOpen(cs[1..])| == OpenWidth(cs[1..])
    ensures OpenLayout(t, p, cs) && |UnparseOpen(cs)| == OpenWidth(cs)
  {
  }

  /** A written-out open list of one command is its words. */
  lemma {:induction false} UnparseOpenSingle(cs: seq<Command>)
    requires |cs| == 1
    ensures UnparseOpen(cs) == WordTokens(cs[0].args)
  {
    assert cs[..0] == [];
  }

  /** The first command of a written-out open list of more than one command, and the rest. */
  lemma {:induction false} UnparseOpenHead(t: seq<Token>, p: nat, cs: seq<Command>)
    requires |cs| > 1 && AllPlain(cs)
    requires p + |UnparseOpen(cs)| < |t| && t[p..p + |UnparseOpen(cs)|] == UnparseOpen(cs)
    ensures var n := |cs[0].args|;
      p + n < |t| && t[p..p + n] == WordTokens(cs[0].args) && t[p + n] == Token(cs[0].link, "")
    ensures var q := p + |cs[0].args| + 1;
      |UnparseOpen(cs)| == q - p + |UnparseOpen(cs[1..])|
      && t[q..q + |UnparseOpen(cs[1..])|] == UnparseOpen(cs[1..]) && AllPlain(cs[1..])
  {
    var rest := cs[1..];
    var m := |UnparseOpen(cs)|;
    var n := |cs[0].args|;
    assert cs[..|cs| - 1] == [cs[0]] + rest[..|rest| - 1];
    assert UnparseOpen(cs) == WordTokens(cs[0].args) + [Token(cs[0].link, "")] + UnparseOpen(rest);
    var u := t[p..p + m];
    assert t[p..p + n] == u[..n];
    assert t[p + n] == u[n];
    assert t[p + n + 1..p + m] == u[n + 1..];
    forall k | 0 <= k < |rest|
      ensures Plain(rest[k])
    {
      assert rest[k] == cs[k + 1];
    }
  }

  /** The list inside `( ... )`: its commands, the last ended as by `;`, up to the `)`. */
  lemma {:induction false} ListUntilParen(t: seq<Token>, p: nat, cs: seq<Command>)
    requires RedirectsWellFormed(t) && OpenLayout(t, p, cs)
    ensures List(t, p) == Parse(cs, p + OpenWidth(cs))
    decreases |cs|
  {
    if |cs| == 1 {
      ListLastBeforeParen(t, p, cs[0]);
      assert [cs[0]] == cs;
    } else {
      ListUntilParen(t, p + |cs[0].args| + 1, cs[1..]);
      OpenListCons(t, p, cs);
    }
  }

  /** The first command of an open layout, then the rest of the list up to the `)`. */
  lemma {:induction false} OpenListCons(t: seq<Token>, p: nat, cs: seq<Command>)
    requires RedirectsWellFormed(t) && OpenLayout(t, p, cs) && |cs| > 1
    requires var q := p + |cs[0].args| + 1; List(t, q) == Parse(cs[1..], q + OpenWidth(cs[1..]))
    ensures List(t, p) == Parse(cs, p + OpenWidth(cs))
  {
    var c, rest := cs[0], cs[1..];
    var q1 := p + |cs[0].args| + 1;
    var tail := List(t, q1);
    assert tail == Parse(rest, q1 + OpenWidth(rest));
    var q := q1 - 1;
    assert Plain(c) && q < |t| && t[p..q] == WordTokens(c.args) && t[q] == Token(c.link, "");
    PlainGroup(t, p, c);
    assert OpenWidth(cs) == |c.args| + 1 + OpenWidth(rest);
    ListStep(t, p, c, q, rest, q1 + OpenWidth(rest));
    HeadTail(cs);
  }

  /** Words and redirections stop at a token that is neither. */
  lemma {:induction false} WordsStop(t: seq<Token>, i: nat, c: Command)
    requires RedirectsWellFormed(t) && i <= |t| && !InWords(t, i)
    ensures Words(t, i, c) == Built(c, i)
  {
  }

  /** A group that opens with `(`: the list up to the `)` is its subshell, then come its words. */
  lemma {:induction false} GroupSubshell(t: seq<Token>, p: nat, inner: Parse, w: Built)
    requires RedirectsWellFormed(t) && p < |t| && t[p].kind == LParen
    requires List(t, p + 1) == inner && inner.pos < |t|
    requires Words(t, inner.pos + 1, NewCommand().(sub := inner.cmds)) == w
    ensures Group(t, p) == Built(w.cmd.(link := KindAt(t, w.pos)), w.pos)
  {
  }

  /** A command that ends at the end of the stream is the last one. */
  lemma {:induction false} ListLastAtEnd(t: seq<Token>, p: nat, c: Command)
    requires RedirectsWellFormed(t) && p < |t| && Group(t, p) == Built(c, |t|) && c.link != RParen
    ensures List(t, p) == Parse([c], |t|)
  {
    assert List(t, |t|) == Parse([], |t|);
    assert [c] + [] == [c];
  }

  // ---------------------------------------------------------------------
  // The parser's promises
  // ---------------------------------------------------------------------

  /**
   * One command per operator-ended group, in token order, with its words
   * as arguments in order: a written-out list of plain commands parses
   * back to itself.
   */
  lemma {:induction false} ParseUnparse(cs: seq<Command>)
    requires AllPlain(cs)
    ensures RedirectsWellFormed(Unparse(cs)) && ParseLine(Unparse(cs)) == Some(cs)
  {
    UnparseNoRedirects(cs);
    var t := Unparse(cs);
    assert t[0..] == t;
    UnparseLayout(t, 0, cs);
    ListRun(t, 0, cs);
  }

  /** Words running to the end of the stream make one command ended as by `;`. */
  lemma {:induction false} EndClosesCommand(args: seq<string>)
    requires |args| > 0
    ensures RedirectsWellFormed(WordTokens(args))
    ensures ParseLine(WordTokens(args)) == Some([NewCommand().(args := args)])
  {
    var t := WordTokens(args);
    WordTokensPlain(args);
    assert NoRedirects(t);
    assert t[0..|args|] == t;
    WordsRun(t, 0, NewCommand(), args);
    assert NewCommand().args + args == args;
    GroupOfWords(t, 0, Built(NewCommand().(args := args), |t|));
    ListLastAtEnd(t, 0, NewCommand().(args := args));
  }

  /**
   * `( list ) op`: the parenthesised list becomes the command's subshell
   * list, its last command ended as by `;`, and the command's link is the
   * operator after the `)`.
   */
  lemma {:induction false} SubshellParses(inner: seq<Command>, op: TokenType)
    requires |inner| > 0 && AllPlain(inner) && inner[|inner| - 1].link == Sequence
    requires IsOperator(op)
    ensures var t := [Token(LParen, "")] + UnparseOpen(inner) + [Token(RParen, ""), Token(op, "")];
      RedirectsWellFormed(t) && ParseLine(t) == Some([NewCommand().(sub := inner, link := op)])
  {
    var t := [Token(LParen, "")] + UnparseOpen(inner) + [Token(RParen, ""), Token(op, "")];
    var m := |UnparseOpen(inner)|;
    SubshellInner(inner, op);
    var c := NewCommand().(sub := inner);
    WordsStop(t, m + 2, c);
    GroupSubshell(t, 0, Parse(inner, 1 + m), Built(c, m + 2));
    ListAtEnd(t, m + 3);
    ListStep(t, 0, c.(link := op), m + 2, [], |t|);
    assert [c.(link := op)] + [] == [c.(link := op)];
  }

  /** Inside `( list ) op`, the list is read up to the `)`. */
  lemma {:induction false} SubshellInner(inner: seq<Command>, op: TokenType)
    requires |inner| > 0 && AllPlain(inner) && inner[|inner| - 1].link == Sequence
    requires IsOperator(op)
    ensures var t := [Token(LParen, "")] + UnparseOpen(inner) + [Token(RParen, ""), Token(op, "")];
      var m := |UnparseOpen(inner)|;
      RedirectsWellFormed(t) && |t| == m + 3 && t[0].kind == LParen && t[m + 2] == Token(op, "")
      && List(t, 1) == Parse(inner, 1 + m)
  {
    var body := UnparseOpen(inner);
    var t := [Token(LParen, "")] + body + [Token(RParen, ""), Token(op, "")];
    var m := |body|;
    SubshellNoRedirects(inner, op);
    assert t[1..1 + m] == body;
    assert t[1 + m] == Token(RParen, "");
    UnparseOpenLayout(t, 1, inner);
    ListUntilParen(t, 1, inner);
    assert t[m + 2] == Token(op, "");
  }

  /** The tokens of `( list ) op` hold no redirection. */
  lemma {:induction false} SubshellNoRedirects(inner: seq<Command>, op: TokenType)
    requires |inner| > 0 && AllPlain(inner) && IsOperator(op)
    ensures NoRedirects([Token(LParen, "")] + UnparseOpen(inner) + [Token(RParen, ""), Token(op, "")])
  {
    var body := UnparseOpen(inner);
    var t := [Token(LParen, "")] + body + [Token(RParen, ""), Token(op, "")];
    var init := inner[..|inner| - 1];
    assert AllPlain(init) by {
      forall k | 0 <= k < |init|
        ensures Plain(init[k])
      {
        assert init[k] == inner[k];
      }
    }
    UnparseNoRedirects(init);
    WordTokensPlain(inner[|inner| - 1].args);
    assert NoRedirects(body) by {
      forall k | 0 <= k < |body|
        ensures body[k].kind != RedirectOp
      {
        if k >= |Unparse(init)| {
          assert body[k] == WordTokens(inner[|inner| - 1].args)[k - |Unparse(init)|];
        } else {
          assert body[k] == Unparse(init)[k];
        }
      }
    }
    forall k | 0 <= k < |t|
      ensures t[k].kind != RedirectOp
    {
      if 1 <= k <= |body| {
        assert t[k] == body[k - 1];
      }
    }
  }

  // ---------------------------------------------------------------------
  // Malformed redirections
  // ---------------------------------------------------------------------

  /** Stepping over the word or the redirection at `i` leaves the same positions to reach. */
  lemma {:induction false} ReachStep(t: seq<Token>, i: nat, n: nat)
    requires i < |t|
    requires (n == 1 && t[i].kind == Normal) || (n == 2 && t[i].kind == RedirectOp && RedirectAt(t, i))
    ensures forall k: nat :: k != i ==> (WordsReach(t, i, k) <==> WordsReach(t, i + n, k))
  {
    forall k: nat | k != i
      ensures WordsReach(t, i, k) <==> WordsReach(t, i + n, k)
    {
      if WordsReach(t, i + n, k) {
        assert i + n <= k by { ReachForward(t, i + n, k); }
      }
    }
  }

  /** The inner loop only moves forward. */
  lemma {:induction false} ReachForward(t: seq<Token>, i: nat, k: nat)
    requires WordsReach(t, i, k)
    ensures i <= k
    decreases |t| - i
  {
    if i != k {
      if i < k && i < |t| && t[i].kind == Normal && WordsReach(t, i + 1, k) {
        ReachForward(t, i + 1, k);
      } else {
        ReachForward(t, i + 2, k);
      }
    }
  }

  /**
   * The inner loop aborts exactly when it reaches a redirection with no
   * word after it, or an empty operator.
   */
  lemma {:induction false} WordsAbortIff(t: seq<Token>, i: nat, c: Command)
    requires i <= |t|
    ensures Words(t, i, c).Abort? <==>
      exists k: nat :: WordsReach(t, i, k) && k < |t| && t[k].kind == RedirectOp && !RedirectAt(t, k)
    decreases |t| - i
  {
    if KindAt(t, i) == Normal {
      WordsAbortIff(t, i + 1, c.(args := c.args + [t[i].text]));
      ReachStep(t, i, 1);
    } else if KindAt(t, i) == RedirectOp {
      if RedirectAt(t, i) {
        WordsAbortIff(t, i + 2, Redirect(c, t[i].text, t[i + 1].text));
        ReachStep(t, i, 2);
      } else {
        assert WordsReach(t, i, i);
      }
    } else {
      forall k: nat | WordsReach(t, i, k)
        ensures k == i
      {
      }
    }
  }

  /** `echo >`: the redirection has no file, and the shell dies parsing the line. */
  lemma EchoRedirectAborts()
    ensures ParseLine([Token(Normal, "echo"), Token(RedirectOp, ">")]) == None
  {
    var t := [Token(Normal, "echo"), Token(RedirectOp, ">")];
    assert Words(t, 1, NewCommand().(args := ["echo"])) == Abort;
  }

  /** `cat < ; ls`: a `;` where the file should be is not a word, and the shell dies. */
  lemma SequenceAfterRedirectAborts()
    ensures ParseLine([Token(Normal, "cat"), Token(RedirectOp, "<"), Token(Sequence, ";"), Token(Normal, "ls")]) == None
  {
    var t := [Token(Normal, "cat"), Token(RedirectOp, "<"), Token(Sequence, ";"), Token(Normal, "ls")];
    assert !RedirectAt(t, 1);
    assert Words(t, 1, NewCommand().(args := ["cat"])) == Abort;
  }

  // ---------------------------------------------------------------------
  // The constructor's defaults
  // ---------------------------------------------------------------------

  /** Fields the parser never sets keep the constructor's values, in subshells too. */
  predicate Untouched(c: Command)
    decreases c
  {
    c.pid == -1 && c.readfd == -1 && !c.subBg && forall k :: 0 <= k < |c.sub| ==> Untouched(c.sub[k])
  }

  lemma {:induction false} WordsUntouched(t: seq<Token>, i: nat, c: Command)
    requires RedirectsWellFormed(t) && i <= |t| && Untouched(c)
    ensures Untouched(Words(t, i, c).cmd)
    decreases |t| - i
  {
    if KindAt(t, i) == Normal {
      WordsUntouched(t, i + 1, c.(args := c.args + [t[i].text]));
    } else if KindAt(t, i) == RedirectOp {
      WordsUntouched(t, i + 2, Redirect(c, t[i].text, t[i + 1].text));
    }
  }

  lemma {:induction false} GroupUntouched(t: seq<Token>, i: nat)
    requires RedirectsWellFormed(t) && i < |t|
    ensures Untouched(Group(t, i).cmd)
    decreases |t| - i, 0
  {
    if t[i].kind == LParen {
      var inner := List(t, i + 1);
      ListUntouched(t, i + 1);
      WordsUntouched(t, Advance(t, inner.pos), NewCommand().(sub := inner.cmds));
    } else {
      WordsUntouched(t, i, NewCommand());
    }
  }

  /** Every command `parse_list` builds has pid -1, readfd -1 and sub_bg false. */
  lemma {:induction false} ListUntouched(t: seq<Token>, i: nat)
    requires RedirectsWellFormed(t) && i <= |t|
    ensures forall k :: 0 <= k < |List(t, i).cmds| ==> Untouched(List(t, i).cmds[k])
    decreases |t| - i, 1
  {
    if i < |t| {
      var g := Group(t, i);
      GroupUntouched(t, i);
      if g.cmd.link != RParen {
        ListUntouched(t, Advance(t, g.pos));
      }
    }
  }

  // ---------------------------------------------------------------------
  // Redirections
  // ---------------------------------------------------------------------

  /** `<` redirects standard input; `>` and `>>` standard output, truncating or appending. */
  lemma {:induction false} DefaultRedirects(c: Command, f: string)
    ensures Redirect(c, "<", f) == c.(inFiles := c.inFiles[0 := f])
    ensures Redirect(c, ">", f) == c.(outFiles := c.outFiles[1 := (f, Truncate)])
    ensures Redirect(c, ">>", f) == c.(outFiles := c.outFiles[1 := (f, Append)])
  {
  }

  lemma {:induction false} LeadingDigitsOf(d: string, r: string)
    requires forall k :: 0 <= k < |d| ==> IsDigit(d[k])
    requires |r| > 0 && !IsDigit(r[0])
    ensures LeadingDigits(d + r) == d
    decreases |d|
  {
    if |d| > 0 {
      assert (d + r)[1..] == d[1..] + r;
      LeadingDigitsOf(d[1..], r);
    }
  }

  lemma {:induction false} NonDigitsConcat(a: string, b: string)
    ensures NonDigits(a + b) == NonDigits(a) + NonDigits(b)
    decreases |b|
  {
    if |b| == 0 {
      assert a + b == a;
    } else {
      assert (a + b)[..|a + b| - 1] == a + b[..|b| - 1];
      NonDigitsConcat(a, b[..|b| - 1]);
    }
  }

  lemma {:induction false} NonDigitsOfDigits(d: string)
    requires forall k :: 0 <= k < |d| ==> IsDigit(d[k])
    ensures NonDigits(d) == []
    decreases |d|
  {
    if |d| > 0 {
      NonDigitsOfDigits(d[..|d| - 1]);
    }
  }

  /** Leading digits give the fd, the remaining non-digit characters the operator. */
  lemma {:induction false} NumberedOperator(d: string, r: string)
    requires |d| > 0 && forall k :: 0 <= k < |d| ==> IsDigit(d[k])
    requires |r| > 0 && !IsDigit(r[0])
    ensures FdOf(d + r) == Decimal(d) && RawOf(d + r) == NonDigits(r)
  {
    LeadingDigitsOf(d, r);
    NonDigitsConcat(d, r);
    NonDigitsOfDigits(d);
    assert (d + r)[0] == d[0];
  }

  lemma {:induction false} RawTwoOut()
    ensures FdOf("2>") == 2 && RawOf("2>") == ">"
  {
    NumberedOperator("2", ">");
    assert "2" + ">" == "2>";
    assert ">"[..0] == [];
  }

  lemma {:induction false} RawTenIn()
    ensures FdOf("10<") == 10 && RawOf("10<") == "<"
  {
    NumberedOperator("10", "<");
    assert "10" + "<" == "10<";
    assert "<"[..0] == [];
    assert "10"[..1] == "1";
    assert "1"[..0] == [];
  }

  lemma {:induction false} RawTwoDup()
    ensures RawOf("2>&") == ">&"
  {
    NumberedOperator("2", ">&");
    assert "2" + ">&" == "2>&";
    assert ">&"[..1] == ">";
    assert ">"[..0] == [];
  }

  /** `2>` names fd 2 and `10<` fd 10; `2>&` and `<>` are not recorded. */
  lemma {:induction false} NumberedRedirects(c: Command, f: string)
    ensures Redirect(c, "2>", f) == c.(outFiles := c.outFiles[2 := (f, Truncate)])
    ensures Redirect(c, "10<", f) == c.(inFiles := c.inFiles[10 := f])
    ensures Redirect(c, "2>&", f) == c && Redirect(c, "<>", f) == c
  {
    RawTwoOut();
    RawTenIn();
    RawTwoDup();
  }

  /** A later redirection of the same fd in the same direction replaces the earlier one. */
  lemma {:induction false} LaterRedirectWins(c: Command, op1: string, f1: string, op2: string, f2: string)
    requires |op1| > 0 && |op2| > 0
    requires (IsInput(op1) && IsInput(op2) && InputFd(op1) == InputFd(op2))
          || (IsOutput(op1) && IsOutput(op2) && OutputFd(op1) == OutputFd(op2))
    ensures Redirect(Redirect(c, op1, f1), op2, f2) == Redirect(c, op2, f2)
  {
  }
}
