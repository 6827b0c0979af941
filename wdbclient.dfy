// The argv-to-wire serialiser of the weensydb load client (net5/wdbclientloop.cc).
//
// The command words after the options are turned into wire commands, 10000
// per batch, cycling back to the first command word when the list runs out;
// every batch is followed by `error\r\n`. `is_valid_key` is defined outside
// the file, so the model takes it as a parameter.
module WdbClient {

  /** A C string without its NUL: each char stands for one byte, so `|s|`
      is what `strlen` counts and what `%zu` prints as a length. */
  type String = seq<char>

  datatype Option<T> = None | Some(value: T)

  datatype Command =
    | Get(key: String)
    | Set(key: String, value: String)
    | Delete(key: String)
    | Exch(key1: String, key2: String)
    | Cas(key: String, oldValue: String, newValue: String)

  /** How many argument words follow the verb. */
  function Arity(c: Command): nat
  {
    match c
    case Get(_) => 1
    case Set(_, _) => 2
    case Delete(_) => 1
    case Exch(_, _) => 2
    case Cas(_, _, _) => 3
  }

  /**
   * The branch chain of the inner loop: the command whose verb is at
   * `argv[i]`, and the index of the word after it; None is `usage(1)` (an
   * unknown verb, missing arguments, or a key `validKey` rejects).
   */
  function ParseArgs(argv: seq<String>, i: nat, validKey: String -> bool): (r: Option<(Command, nat)>)
    requires i < |argv|
    ensures r.Some? ==> r.value.1 == i + 1 + Arity(r.value.0) <= |argv|
    ensures r.Some? ==> match r.value.0
      case Get(k) => argv[i] == "get" && k == argv[i + 1] && validKey(k)
      case Set(k, v) => argv[i] == "set" && k == argv[i + 1] && v == argv[i + 2] && validKey(k)
      case Delete(k) => argv[i] == "delete" && k == argv[i + 1] && validKey(k)
      case Exch(k1, k2) => argv[i] == "exch" && k1 == argv[i + 1] && k2 == argv[i + 2] && validKey(k1) && validKey(k2)
      case Cas(k, o, n) => argv[i] == "cas" && k == argv[i + 1] && o == argv[i + 2] && n == argv[i + 3] && validKey(k)
    ensures r.None? <==>
      !(argv[i] == "get" && i + 1 < |argv| && validKey(argv[i + 1])) &&
      !(argv[i] == "set" && i + 2 < |argv| && validKey(argv[i + 1])) &&
      !(argv[i] == "delete" && i + 1 < |argv| && validKey(argv[i + 1])) &&
      !(argv[i] == "exch" && i + 2 < |argv| && validKey(argv[i + 1]) && validKey(argv[i + 2])) &&
      !(argv[i] == "cas" && i + 3 < |argv| && validKey(argv[i + 1]))
  {
    if argv[i] == "get" && i + 1 < |argv| && validKey(argv[i + 1]) then
      Some((Get(argv[i + 1]), i + 2))
    else if argv[i] == "set" && i + 2 < |argv| && validKey(argv[i + 1]) then
      Some((Set(argv[i + 1], argv[i + 2]), i + 3))
    else if argv[i] == "delete" && i + 1 < |argv| && validKey(argv[i + 1]) then
      Some((Delete(argv[i + 1]), i + 2))
    else if argv[i] == "exch" && i + 2 < |argv| && validKey(argv[i + 1]) && validKey(argv[i + 2]) then
      Some((Exch(argv[i + 1], argv[i + 2]), i + 3))
    else if argv[i] == "cas" && i + 3 < |argv| && validKey(argv[i + 1]) then
      Some((Cas(argv[i + 1], argv[i + 2], argv[i + 3]), i + 4))
    else
      None
  }

  const CRLF: String := "\r\n"

  function Digit(d: nat): char
    requires d < 10
  {
    ('0' as int + d) as char
  }

  /** `%zu`: decimal digits, most significant first, no leading zeros. */
  function Decimal(n: nat): (s: String)
    ensures |s| >= 1 && forall k :: 0 <= k < |s| ==> '0' <= s[k] <= '9'
    ensures n > 0 ==> s[0] != '0'
  {
    if n < 10 then [Digit(n)] else Decimal(n / 10) + [Digit(n % 10)]
  }

  /** The value of a nonempty digit string. */
  function DigitsValue(s: String): Option<nat>
  {
    if |s| == 0 then None
    else if !('0' <= s[|s| - 1] <= '9') then None
    else
      var d := s[|s| - 1] as int - '0' as int;
      if |s| == 1 then Some(d)
      else match DigitsValue(s[..|s| - 1])
        case None => None
        case Some(v) => Some(10 * v + d)
  }

  /** Reading back a length printed with `%zu` gives the length. */
  lemma {:induction false} DecimalRoundTrip(n: nat)
    ensures DigitsValue(Decimal(n)) == Some(n)
    decreases n
  {
    if n >= 10 {
      DecimalRoundTrip(n / 10);
      var s := Decimal(n);
      assert s[..|s| - 1] == Decimal(n / 10);
    }
  }

  /** The bytes one command puts on the wire. */
  function Wire(c: Command): String
  {
    match c
    case Get(k) => "get " + (k + CRLF)
    case Set(k, v) => "set " + (k + (" " + (Decimal(|v|) + (CRLF + (v + CRLF)))))
    case Delete(k) => "delete " + (k + CRLF)
    case Exch(k1, k2) => "exch " + (k1 + (" " + (k2 + CRLF)))
    case Cas(k, o, n) =>
      "cas " + (k + (" " + (Decimal(|o|) + (" " + (Decimal(|n|) + (CRLF + (o + (n + CRLF))))))))
  }

  /** Keys that can be read back off the wire: no space and no carriage return. */
  predicate WireKey(k: String)
  {
    ' ' !in k && '\r' !in k
  }

  predicate WireKeys(c: Command)
  {
    match c
    case Get(k) => WireKey(k)
    case Set(k, _) => WireKey(k)
    case Delete(k) => WireKey(k)
    case Exch(k1, k2) => WireKey(k1) && WireKey(k2)
    case Cas(k, _, _) => WireKey(k)
  }

  /** The text before the first `d`, and what follows that `d`. */
  function Until(w: String, d: char): (r: Option<(String, String)>)
    ensures r.Some? ==> d !in r.value.0 && w == r.value.0 + ([d] + r.value.1)
  {
    if |w| == 0 then None
    else if w[0] == d then Some(([], w[1..]))
    else match Until(w[1..], d)
      case None => None
      case Some((a, b)) => Some(([w[0]] + a, b))
  }

  lemma {:induction false} UntilConcat(a: String, d: char, b: String)
    requires d !in a
    ensures Until(a + ([d] + b), d) == Some((a, b))
    decreases |a|
  {
    if |a| == 0 {
      assert a + ([d] + b) == [d] + b;
    } else {
      assert (a + ([d] + b))[1..] == a[1..] + ([d] + b);
      UntilConcat(a[1..], d, b);
      assert [a[0]] + a[1..] == a;
    }
  }

  /** The rest of `w` after the literal `lit`, if `w` starts with it. */
  function Expect(w: String, lit: String): (r: Option<String>)
    ensures r.Some? ==> w == lit + r.value
  {
    if |lit| <= |w| && w[..|lit|] == lit then Some(w[|lit|..]) else None
  }

  lemma {:induction false} ExpectConcat(lit: String, rest: String)
    ensures Expect(lit + rest, lit) == Some(rest)
  {
    assert (lit + rest)[..|lit|] == lit;
    assert (lit + rest)[|lit|..] == rest;
  }

  /** `n` bytes counted off the front of `w`. */
  function Take(w: String, n: Option<nat>): Option<(String, String)>
  {
    if n.Some? && n.value <= |w| then Some((w[..n.value], w[n.value..])) else None
  }

  lemma {:induction false} TakeConcat(a: String, rest: String)
    ensures Take(a + rest, Some(|a|)) == Some((a, rest))
  {
    assert (a + rest)[..|a|] == a;
    assert (a + rest)[|a|..] == rest;
  }

  /** The server's view: one command off the front of the wire, and the rest. */
  function Decode(w: String): Option<(Command, String)>
  {
    match Until(w, ' ')
    case None => None
    case Some((verb, r1)) =>
      if verb == "get" || verb == "delete" then
        match Until(r1, '\r')
        case None => None
        case Some((k, r2)) =>
          match Expect(r2, "\n")
          case None => None
          case Some(rest) => Some((if verb == "get" then Get(k) else Delete(k), rest))
      else if verb == "exch" then
        match Until(r1, ' ')
        case None => None
        case Some((k1, r2)) =>
          match Until(r2, '\r')
          case None => None
          case Some((k2, r3)) =>
            match Expect(r3, "\n")
            case None => None
            case Some(rest) => Some((Exch(k1, k2), rest))
      else if verb == "set" then
        match Until(r1, ' ')
        case None => None
        case Some((k, r2)) => DecodeSet(k, r2)
      else if verb == "cas" then
        match Until(r1, ' ')
        case None => None
        case Some((k, r2)) => DecodeCas(k, r2)
      else None
  }

  function DecodeSet(k: String, w: String): Option<(Command, String)>
  {
    match Until(w, '\r')
    case None => None
    case Some((len, r1)) =>
      match Expect(r1, "\n")
      case None => None
      case Some(r2) =>
        match Take(r2, DigitsValue(len))
        case None => None
        case Some((v, r3)) =>
          match Expect(r3, CRLF)
          case None => None
          case Some(rest) => Some((Set(k, v), rest))
  }

  function DecodeCas(k: String, w: String): Option<(Command, String)>
  {
    match Until(w, ' ')
    case None => None
    case Some((oldLen, r1)) =>
      match Until(r1, '\r')
      case None => None
      case Some((newLen, r2)) =>
        match Expect(r2, "\n")
        case None => None
        case Some(r3) =>
          match Take(r3, DigitsValue(oldLen))
          case None => None
          case Some((o, r4)) =>
            match Take(r4, DigitsValue(newLen))
            case None => None
            case Some((n, r5)) =>
              match Expect(r5, CRLF)
              case None => None
              case Some(rest) => Some((Cas(k, o, n), rest))
  }

  lemma {:induction false} DecimalUntil(n: nat, d: char, b: String)
    requires d == ' ' || d == '\r'
    ensures Until(Decimal(n) + ([d] + b), d) == Some((Decimal(n), b))
  {
    UntilConcat(Decimal(n), d, b);
  }

  /** Every command, keys permitting, is read back exactly, whatever follows it. */
  lemma {:induction false} DecodeWire(c: Command, rest: String)
    requires WireKeys(c)
    ensures Decode(Wire(c) + rest) == Some((c, rest))
  {
    match c
    case Get(k) => DecodeGetWire(k, rest);
    case Delete(k) => DecodeDeleteWire(k, rest);
    case Exch(k1, k2) => DecodeExchWire(k1, k2, rest);
    case Set(k, v) => DecodeSetLine(k, v, rest);
    case Cas(k, o, n) => DecodeCasLine(k, o, n, rest);
  }

  lemma {:induction false} DecodeGetWire(k: String, rest: String)
    requires WireKey(k)
    ensures Decode(Wire(Get(k)) + rest) == Some((Get(k), rest))
  {
    assert Wire(Get(k)) + rest == "get" + ([' '] + (k + ("\r" + ("\n" + rest))));
    UntilConcat("get", ' ', k + ("\r" + ("\n" + rest)));
    UntilConcat(k, '\r', "\n" + rest);
    ExpectConcat("\n", rest);
  }

  lemma {:induction false} DecodeDeleteWire(k: String, rest: String)
    requires WireKey(k)
    ensures Decode(Wire(Delete(k)) + rest) == Some((Delete(k), rest))
  {
    assert Wire(Delete(k)) + rest == "delete" + ([' '] + (k + ("\r" + ("\n" + rest))));
    UntilConcat("delete", ' ', k + ("\r" + ("\n" + rest)));
    UntilConcat(k, '\r', "\n" + rest);
    ExpectConcat("\n", rest);
  }

  lemma {:induction false} DecodeExchWire(k1: String, k2: String, rest: String)
    requires WireKey(k1) && WireKey(k2)
    ensures Decode(Wire(Exch(k1, k2)) + rest) == Some((Exch(k1, k2), rest))
  {
    ExchShape(k1, k2, rest);
    UntilConcat("exch", ' ', k1 + ([' '] + (k2 + ("\r" + ("\n" + rest)))));
    UntilConcat(k1, ' ', k2 + ("\r" + ("\n" + rest)));
    UntilConcat(k2, '\r', "\n" + rest);
    ExpectConcat("\n", rest);
  }

  lemma {:induction false} ExchShape(k1: String, k2: String, rest: String)
    ensures Wire(Exch(k1, k2)) + rest == "exch" + ([' '] + (k1 + ([' '] + (k2 + ("\r" + ("\n" + rest))))))
  {
    assert Wire(Exch(k1, k2)) == "exch " + (k1 + (" " + (k2 + CRLF)));
  }

  lemma {:induction false} DecodeSetLine(k: String, v: String, rest: String)
    requires WireKey(k)
    ensures Decode(Wire(Set(k, v)) + rest) == Some((Set(k, v), rest))
  {
    var tail := Decimal(|v|) + ("\r" + ("\n" + (v + (CRLF + rest))));
    SetShape(k, v, rest);
    DecodeVerbKey("set", k, tail);
    DecodeSetWire(k, v, rest);
  }

  lemma {:induction false} DecodeCasLine(k: String, o: String, n: String, rest: String)
    requires WireKey(k)
    ensures Decode(Wire(Cas(k, o, n)) + rest) == Some((Cas(k, o, n), rest))
  {
    var tail := Decimal(|o|) + (" " + (Decimal(|n|) + ("\r" + ("\n" + (o + (n + (CRLF + rest)))))));
    CasShape(k, o, n, rest);
    DecodeVerbKey("cas", k, tail);
    DecodeCasWire(k, o, n, rest);
  }

  lemma {:induction false} SetShape(k: String, v: String, rest: String)
    ensures Wire(Set(k, v)) + rest
      == "set" + ([' '] + (k + ([' '] + (Decimal(|v|) + ("\r" + ("\n" + (v + (CRLF + rest))))))))
  {
    var d := Decimal(|v|);
    assert Wire(Set(k, v)) == "set " + (k + (" " + (d + (CRLF + (v + CRLF)))));
    Regroup5(k, d, v, rest);
  }

  lemma {:induction false} Regroup5(k: String, d: String, v: String, rest: String)
    ensures ("set " + (k + (" " + (d + (CRLF + (v + CRLF)))))) + rest
      == "set" + ([' '] + (k + ([' '] + (d + ("\r" + ("\n" + (v + (CRLF + rest))))))))
  {
  }

  lemma {:induction false} CasShape(k: String, o: String, n: String, rest: String)
    ensures Wire(Cas(k, o, n)) + rest
      == "cas" + ([' '] + (k + ([' '] + (Decimal(|o|) + (" " + (Decimal(|n|) + ("\r" + ("\n" + (o + (n + (CRLF + rest)))))))))))
  {
    var d1, d2 := Decimal(|o|), Decimal(|n|);
    assert Wire(Cas(k, o, n)) == "cas " + (k + (" " + (d1 + (" " + (d2 + (CRLF + (o + (n + CRLF))))))));
    Regroup8(k, d1, d2, o, n, rest);
  }

  lemma {:induction false} Regroup8(k: String, d1: String, d2: String, o: String, n: String, rest: String)
    ensures ("cas " + (k + (" " + (d1 + (" " + (d2 + (CRLF + (o + (n + CRLF))))))))) + rest
      == "cas" + ([' '] + (k + ([' '] + (d1 + (" " + (d2 + ("\r" + ("\n" + (o + (n + (CRLF + rest)))))))))))
  {
  }

  /** After `set KEY ` or `cas KEY `, decoding goes on with the rest. */
  lemma {:induction false} DecodeVerbKey(verb: String, k: String, tail: String)
    requires verb == "set" || verb == "cas"
    requires WireKey(k)
    ensures verb == "set" ==> Decode(verb + ([' '] + (k + ([' '] + tail)))) == DecodeSet(k, tail)
    ensures verb == "cas" ==> Decode(verb + ([' '] + (k + ([' '] + tail)))) == DecodeCas(k, tail)
  {
    UntilConcat(verb, ' ', k + ([' '] + tail));
    UntilConcat(k, ' ', tail);
  }

  lemma {:induction false} DecodeSetWire(k: String, v: String, rest: String)
    ensures DecodeSet(k, Decimal(|v|) + ("\r" + ("\n" + (v + (CRLF + rest))))) == Some((Set(k, v), rest))
  {
    DecimalUntil(|v|, '\r', "\n" + (v + (CRLF + rest)));
    ExpectConcat("\n", v + (CRLF + rest));
    DecimalRoundTrip(|v|);
    TakeConcat(v, CRLF + rest);
    ExpectConcat(CRLF, rest);
  }

  lemma {:induction false} DecodeCasWire(k: String, o: String, n: String, rest: String)
    ensures DecodeCas(k, Decimal(|o|) + (" " + (Decimal(|n|) + ("\r" + ("\n" + (o + (n + (CRLF + rest))))))))
      == Some((Cas(k, o, n), rest))
  {
    DecimalUntil(|o|, ' ', Decimal(|n|) + ("\r" + ("\n" + (o + (n + (CRLF + rest))))));
    DecimalUntil(|n|, '\r', "\n" + (o + (n + (CRLF + rest))));
    ExpectConcat("\n", o + (n + (CRLF + rest)));
    DecimalRoundTrip(|o|);
    DecimalRoundTrip(|n|);
    TakeConcat(o, n + (CRLF + rest));
    TakeConcat(n, CRLF + rest);
    ExpectConcat(CRLF, rest);
  }

  /** All commands' bytes, in order. */
  function WireAll(cs: seq<Command>): String
  {
    if |cs| == 0 then [] else Wire(cs[0]) + WireAll(cs[1..])
  }

  lemma {:induction false} WireAllSnoc(cs: seq<Command>, c: Command)
    ensures WireAll(cs + [c]) == WireAll(cs) + Wire(c)
    decreases |cs|
  {
    if |cs| > 0 {
      assert (cs + [c])[1..] == cs[1..] + [c];
      WireAllSnoc(cs[1..], c);
    } else {
      assert cs + [c] == [c];
    }
  }

  /** The server reading `n` commands in a row. */
  function DecodeAll(w: String, n: nat): Option<(seq<Command>, String)>
    decreases n
  {
    if n == 0 then Some(([], w))
    else match Decode(w)
      case None => None
      case Some((c, r)) =>
        match DecodeAll(r, n - 1)
        case None => None
        case Some((cs, rest)) => Some(([c] + cs, rest))
  }

  /** A stream of commands is read back as the same commands in the same order. */
  lemma {:induction false} DecodeStream(cs: seq<Command>, rest: String)
    requires forall k :: 0 <= k < |cs| ==> WireKeys(cs[k])
    ensures DecodeAll(WireAll(cs) + rest, |cs|) == Some((cs, rest))
    decreases |cs|
  {
    if |cs| > 0 {
      var w0, tl := Wire(cs[0]), WireAll(cs[1..]);
      assert WireAll(cs) == w0 + tl;
      Assoc(w0, tl, rest);
      DecodeWire(cs[0], tl + rest);
      DecodeStream(cs[1..], rest);
      DecodeAllStep(WireAll(cs) + rest, |cs|, cs[0], tl + rest);
      assert [cs[0]] + cs[1..] == cs;
    } else {
      assert WireAll(cs) + rest == rest;
    }
  }

  lemma {:induction false} Assoc(a: String, b: String, c: String)
    ensures (a + b) + c == a + (b + c)
  {
  }

  lemma {:induction false} DecodeAllStep(w: String, n: nat, c: Command, r: String)
    requires n > 0 && Decode(w) == Some((c, r))
    ensures DecodeAll(w, n) ==
      match DecodeAll(r, n - 1)
      case None => None
      case Some((cs, rest)) => Some(([c] + cs, rest))
  {
  }

  const BATCH: nat := 10000
  const ERROR_LINE: String := "error\r\n"

  /**
   * The first k commands of a batch starting at `start`: `optind` wraps to
   * `first` whenever it reaches argc. None when one of them is `usage(1)`.
   */
  function Run(argv: seq<String>, first: nat, validKey: String -> bool, start: nat, k: nat)
    : (r: Option<(seq<Command>, nat)>)
    requires first < |argv| && first <= start <= |argv|
    ensures r.Some? ==> |r.value.0| == k && first <= r.value.1 <= |argv|
    ensures r.Some? ==> forall j :: 0 <= j < k ==> KeysValid(r.value.0[j], validKey)
    decreases k
  {
    if k == 0 then Some(([], start))
    else match Run(argv, first, validKey, start, k - 1)
      case None => None
      case Some((cs, pos)) =>
        var o := if pos == |argv| then first else pos;
        match ParseArgs(argv, o, validKey)
        case None => None
        case Some((c, next)) => Some((cs + [c], next))
  }

  /** One more command of a batch, read where the last one stopped (wrapping at argc). */
  lemma {:induction false} RunNext(argv: seq<String>, first: nat, validKey: String -> bool, start: nat, k: nat,
                cs: seq<Command>, pos: nat, o: nat)
    requires first < |argv| && first <= start <= |argv|
    requires Run(argv, first, validKey, start, k) == Some((cs, pos))
    requires o == if pos == |argv| then first else pos
    ensures Run(argv, first, validKey, start, k + 1) ==
      match ParseArgs(argv, o, validKey)
      case None => None
      case Some((c, next)) => Some((cs + [c], next))
  {
  }

  /** Every key the client checked with `is_valid_key` passed. */
  predicate KeysValid(c: Command, validKey: String -> bool)
  {
    match c
    case Get(k) => validKey(k)
    case Set(k, _) => validKey(k)
    case Delete(k) => validKey(k)
    case Exch(k1, k2) => validKey(k1) && validKey(k2)
    case Cas(k, _, _) => validKey(k)
  }

  /**
   * One round of the inner loop up to the command's encoding: wrap `optind`
   * to `first` at argc, then read the command there. The result is the next
   * step of `Run`; None is `usage(1)`.
   */
  method ReadCommand(argv: seq<String>, first: nat, validKey: String -> bool, optind0: nat, k: nat,
                     ghost cs: seq<Command>, pos: nat)
    returns (parsed: Option<(Command, nat)>, optind: nat)
    requires first < |argv| && first <= optind0 <= |argv|
    requires Run(argv, first, validKey, optind0, k) == Some((cs, pos))
    ensures optind == if pos == |argv| then first else pos
    ensures parsed.None? <==> Run(argv, first, validKey, optind0, k + 1).None?
    ensures parsed.Some? ==> Run(argv, first, validKey, optind0, k + 1) == Some((cs + [parsed.value.0], parsed.value.1))
  {
    optind := pos;
    if optind == |argv| {
      optind := first;
    }
    parsed := ParseArgs(argv, optind, validKey);
    RunNext(argv, first, validKey, optind0, k, cs, pos, optind);
  }

  /**
   * One batch of the main loop: 10000 commands then `error\r\n`. On
   * `usage(1)` (`ok` false) the output holds the `done` commands before it.
   * The words are C strings from argv, so none holds a NUL.
   */
  method Batch(argv: seq<String>, first: nat, validKey: String -> bool, optind0: nat, ncommands0: nat)
    returns (ok: bool, out: String, optind: nat, ncommands: nat, done: nat)
    requires first < |argv| && first <= optind0 <= |argv|
    requires forall j :: 0 <= j < |argv| ==> '\0' !in argv[j]
    ensures done <= BATCH && ncommands == ncommands0 + done
    ensures Run(argv, first, validKey, optind0, done).Some?
    ensures ok <==> done == BATCH
    ensures ok ==> out == WireAll(Run(argv, first, validKey, optind0, done).value.0) + ERROR_LINE
    ensures ok ==> optind == Run(argv, first, validKey, optind0, done).value.1
    ensures !ok ==> Run(argv, first, validKey, optind0, done + 1).None?
    ensures !ok ==> out == WireAll(Run(argv, first, validKey, optind0, done).value.0)
  {
    ghost var cmds: seq<Command> := [];
    out := [];
    optind := optind0;
    ncommands := ncommands0;
    var i := 0;
    while i != BATCH
      invariant 0 <= i <= BATCH && ncommands == ncommands0 + i
      invariant Run(argv, first, validKey, optind0, i) == Some((cmds, optind))
      invariant out == WireAll(cmds)
    {
      var parsed;
      parsed, optind := ReadCommand(argv, first, validKey, optind0, i, cmds, optind);
      if parsed.None? {
        return false, out, optind, ncommands, i;
      }
      var (c, next) := parsed.value;
      WireAllSnoc(cmds, c);
      out := out + Wire(c);
      cmds := cmds + [c];
      optind := next;
      i := i + 1;
      ncommands := ncommands + 1;
    }
    out := out + ERROR_LINE;
    return true, out, optind, ncommands, i;
  }

  /** With keys the wire can carry, the server reads a batch of n back command by command. */
  lemma {:induction false} BatchDecodes(argv: seq<String>, first: nat, validKey: String -> bool, start: nat, n: nat)
    requires first < |argv| && first <= start <= |argv|
    requires forall k :: validKey(k) ==> WireKey(k)
    requires Run(argv, first, validKey, start, n).Some?
    ensures
      var cs := Run(argv, first, validKey, start, n).value.0;
      DecodeAll(WireAll(cs) + ERROR_LINE, n) == Some((cs, ERROR_LINE))
  {
    var cs := Run(argv, first, validKey, start, n).value.0;
    forall j | 0 <= j < |cs|
      ensures WireKeys(cs[j])
    {
      KeysCarry(cs[j], validKey);
    }
    DecodeStream(cs, ERROR_LINE);
  }

  lemma {:induction false} KeysCarry(c: Command, validKey: String -> bool)
    requires forall k :: validKey(k) ==> WireKey(k)
    requires KeysValid(c, validKey)
    ensures WireKeys(c)
  {
  }
}
