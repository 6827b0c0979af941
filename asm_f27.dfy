// Recursive comma splitting with a three-way compare (asm6/src/f27.cc).
//
// `f(s)` works on a NUL-terminated C string in place: it overwrites the first
// comma with NUL, recurses on the rest, then prints the left segment, a
// relation character and the segment after it. The string is modelled as a
// position `i` in an `array<char>`; what `printf` writes is returned as the
// sequence of lines it would print, in order.
module F27Split {

  const NUL: char := 0 as char

  /** There is a NUL at or after position i, so a C string starts at i. */
  ghost predicate Terminated(m: seq<char>, i: nat)
  {
    exists k :: i <= k < |m| && m[k] == NUL
  }

  /** The C string at position i: the characters before the first NUL. */
  function CStr(m: seq<char>, i: nat): (str: seq<char>)
    requires Terminated(m, i)
    ensures NUL !in str
    decreases |m| - i
  {
    if m[i] == NUL then [] else [m[i]] + CStr(m, i + 1)
  }

  /** `strchr(s, ',')`: the first comma before the terminating NUL. */
  function StrChrComma(m: seq<char>, i: nat): (c: Option<nat>)
    requires Terminated(m, i)
    ensures c.Some? ==> i <= c.value < |m| && m[c.value] == ','
    ensures c.Some? ==> forall k :: i <= k < c.value ==> m[k] != NUL && m[k] != ','
    ensures c.None? <==> ',' !in CStr(m, i)
    decreases |m| - i
  {
    if m[i] == NUL then None
    else if m[i] == ',' then Some(i)
    else StrChrComma(m, i + 1)
  }

  datatype Option<T> = None | Some(value: T)

  /** The segments of a string between its commas. */
  function Split(str: seq<char>): (segs: seq<seq<char>>)
    ensures |segs| >= 1
    ensures forall k :: 0 <= k < |segs| ==> ',' !in segs[k]
  {
    if |str| == 0 then [[]]
    else if str[0] == ',' then [[]] + Split(str[1..])
    else
      var r := Split(str[1..]);
      [[str[0]] + r[0]] + r[1..]
  }

  /** Segments joined back with commas. */
  function Join(segs: seq<seq<char>>): seq<char>
    requires |segs| >= 1
  {
    if |segs| == 1 then segs[0] else segs[0] + [','] + Join(segs[1..])
  }

  function Count(str: seq<char>, ch: char): nat
  {
    if |str| == 0 then 0 else (if str[0] == ch then 1 else 0) + Count(str[1..], ch)
  }

  /** Joining the segments with commas gives the string back. */
  lemma {:induction false} JoinSplit(str: seq<char>)
    ensures Join(Split(str)) == str
    decreases |str|
  {
    if |str| > 0 {
      JoinSplit(str[1..]);
      if str[0] == ',' {
        JoinEmptyFirst(Split(str[1..]));
      } else {
        var r := Split(str[1..]);
        assert r == [r[0]] + r[1..];
        JoinPrepend(str[0], r[0], r[1..]);
      }
      assert str == [str[0]] + str[1..];
    }
  }

  /** An empty first segment joins to a leading comma. */
  lemma {:induction false} JoinEmptyFirst(r: seq<seq<char>>)
    requires |r| >= 1
    ensures Join([[]] + r) == [','] + Join(r)
  {
    assert ([[]] + r)[1..] == r;
  }

  /** A character put in front of the first segment comes first in the joined string. */
  lemma {:induction false} JoinPrepend(x: char, h: seq<char>, t: seq<seq<char>>)
    ensures Join([[x] + h] + t) == [x] + Join([h] + t)
  {
    if |t| == 0 {
      assert |[[x] + h] + t| == 1 && ([[x] + h] + t)[0] == [x] + h;
      assert |[h] + t| == 1 && ([h] + t)[0] == h;
    } else {
      JoinCons([x] + h, t);
      JoinCons(h, t);
      PrependAssoc(x, h + [','], Join(t));
    }
  }

  /** Joining a segment in front of others puts a comma between them. */
  lemma {:induction false} JoinCons(h: seq<char>, t: seq<seq<char>>)
    requires |t| >= 1
    ensures Join([h] + t) == h + [','] + Join(t)
  {
    assert ([h] + t)[1..] == t;
  }

  lemma {:induction false} PrependAssoc(x: char, a: seq<char>, b: seq<char>)
    ensures ([x] + a) + b == [x] + (a + b)
  {
  }

  /** A string with k commas has k + 1 segments. */
  lemma {:induction false} SplitCount(str: seq<char>)
    ensures |Split(str)| == Count(str, ',') + 1
    decreases |str|
  {
    if |str| > 0 {
      SplitCount(str[1..]);
    }
  }

  /** Cutting at a comma that has none before it. */
  lemma {:induction false} SplitAtComma(a: seq<char>, b: seq<char>)
    requires ',' !in a
    ensures Split(a + [','] + b) == [a] + Split(b)
    decreases |a|
  {
    if |a| == 0 {
      assert a + [','] + b == [','] + b;
      assert ([','] + b)[1..] == b;
    } else {
      var s := a + [','] + b;
      assert s[0] == a[0] && s[1..] == a[1..] + [','] + b;
      SplitAtComma(a[1..], b);
      assert [a[0]] + a[1..] == a;
    }
  }

  /** A string without commas is one segment. */
  lemma {:induction false} SplitNoComma(a: seq<char>)
    requires ',' !in a
    ensures Split(a) == [a]
    decreases |a|
  {
    if |a| > 0 {
      SplitNoComma(a[1..]);
      assert [a[0]] + a[1..] == a;
    }
  }

  /**
   * The sign of `strcmp`: bytes compared as unsigned values, and a string
   * that ends first (its NUL) compares below any character.
   */
  function StrCmp(a: seq<char>, b: seq<char>): int
  {
    if |a| == 0 && |b| == 0 then 0
    else if |a| == 0 then -1
    else if |b| == 0 then 1
    else if a[0] < b[0] then -1
    else if a[0] > b[0] then 1
    else StrCmp(a[1..], b[1..])
  }

  /** strcmp's sign is zero exactly for equal strings and flips with the operands. */
  lemma {:induction false} StrCmpMeaning(a: seq<char>, b: seq<char>)
    ensures StrCmp(a, b) == 0 <==> a == b
    ensures StrCmp(a, b) == -StrCmp(b, a)
    ensures -1 <= StrCmp(a, b) <= 1
    decreases |a|
  {
    if |a| > 0 && |b| > 0 && a[0] == b[0] {
      StrCmpMeaning(a[1..], b[1..]);
      assert a == [a[0]] + a[1..] && b == [b[0]] + b[1..];
    }
  }

  /** `'<' + (cmp >= 0) + (cmp > 0)`. */
  function RelChar(cmp: int): (c: char)
    ensures cmp < 0 ==> c == '<'
    ensures cmp == 0 ==> c == '='
    ensures cmp > 0 ==> c == '>'
  {
    (('<' as int) + (if cmp >= 0 then 1 else 0) + (if cmp > 0 then 1 else 0)) as char
  }

  /** One printed line: `"left" rel "right"`. */
  datatype Line = Line(left: seq<char>, rel: char, right: seq<char>)

  /** What the recursion prints for a list of segments: the later pairs first. */
  function Report(segs: seq<seq<char>>): seq<Line>
  {
    if |segs| < 2 then []
    else Report(segs[1..]) + [Line(segs[0], RelChar(StrCmp(segs[0], segs[1])), segs[1])]
  }

  /**
   * One line per adjacent pair, and line k is about the pair that ends k
   * segments before the last: the output runs from the last pair to the first.
   */
  lemma {:induction false} ReportOrder(segs: seq<seq<char>>)
    requires |segs| >= 1
    ensures |Report(segs)| == |segs| - 1
    ensures forall k :: 0 <= k < |segs| - 1 ==>
      var p := |segs| - 2 - k;
      Report(segs)[k] == Line(segs[p], RelChar(StrCmp(segs[p], segs[p + 1])), segs[p + 1])
    decreases |segs|
  {
    if |segs| >= 2 {
      ReportOrder(segs[1..]);
    }
  }

  /** Every comma of the C string at i replaced by NUL; nothing else changes. */
  function CutCommas(m: seq<char>, i: nat): (m': seq<char>)
    requires Terminated(m, i)
    ensures |m'| == |m|
    ensures forall k :: 0 <= k < i ==> m'[k] == m[k]
    decreases |m| - i
  {
    if m[i] == NUL then m
    else
      var m1 := if m[i] == ',' then m[i := NUL] else m;
      TerminatedStep(m, m1, i);
      CutCommas(m1, i + 1)
  }

  /** Changing the character at a non-NUL start leaves the rest terminated. */
  lemma {:induction false} TerminatedStep(m: seq<char>, m': seq<char>, i: nat)
    requires Terminated(m, i) && m[i] != NUL && |m'| == |m|
    requires forall k :: i < k < |m| ==> m'[k] == m[k]
    ensures Terminated(m', i + 1)
  {
    var k :| i <= k < |m| && m[k] == NUL;
    assert m'[k] == NUL;
  }

  lemma {:induction false} CStrPrefix(m: seq<char>, i: nat, c: nat)
    requires Terminated(m, i) && i <= c < |m|
    requires forall k :: i <= k < c ==> m[k] != NUL
    ensures Terminated(m, c)
    ensures CStr(m, i) == m[i..c] + CStr(m, c)
    decreases c - i
  {
    if i < c {
      CStrPrefix(m, i + 1, c);
      assert m[i..c] == [m[i]] + m[i + 1..c];
    }
  }

  /** A C string depends only on the characters from its start on. */
  lemma {:induction false} CStrSuffix(m: seq<char>, m': seq<char>, i: nat)
    requires Terminated(m, i) && |m'| == |m|
    requires forall k :: i <= k < |m| ==> m'[k] == m[k]
    ensures Terminated(m', i) && CStr(m', i) == CStr(m, i)
    decreases |m| - i
  {
    if m[i] != NUL {
      CStrSuffix(m, m', i + 1);
    }
  }

  /** Characters that are neither NUL nor comma are passed over unchanged. */
  lemma {:induction false} CutCommasSkip(m: seq<char>, i: nat, c: nat)
    requires Terminated(m, i) && i <= c < |m|
    requires forall k :: i <= k < c ==> m[k] != NUL && m[k] != ','
    ensures Terminated(m, c) && CutCommas(m, i) == CutCommas(m, c)
    decreases c - i
  {
    if i < c {
      CutCommasSkip(m, i + 1, c);
    }
  }

  /**
   * Cutting at the first comma c: the rest starts a C string at c + 1 that
   * is the same text before and after the NUL is written, and the segments
   * of the string at i are the left part followed by the segments of the rest.
   */
  lemma {:induction false} CutAtComma(m: seq<char>, i: nat, c: nat)
    requires Terminated(m, i) && StrChrComma(m, i) == Some(c)
    ensures Terminated(m[c := NUL], c + 1)
    ensures CutCommas(m, i) == CutCommas(m[c := NUL], c + 1)
    ensures CStr(m[c := NUL], c + 1) == CStr(m, c + 1)
    ensures Split(CStr(m, i)) == [m[i..c]] + Split(CStr(m, c + 1))
  {
    CutFirstComma(m, i, c);
    SplitAtFirstComma(m, i, c);
    CutKeepsRest(m, c);
  }

  /** Writing a NUL at c leaves the C string after it as it was. */
  lemma {:induction false} CutKeepsRest(m: seq<char>, c: nat)
    requires c < |m| && Terminated(m, c + 1)
    ensures Terminated(m[c := NUL], c + 1) && CStr(m[c := NUL], c + 1) == CStr(m, c + 1)
  {
    CStrSuffix(m, m[c := NUL], c + 1);
  }

  /** Cutting the commas from i goes through the first one, at c. */
  lemma {:induction false} CutFirstComma(m: seq<char>, i: nat, c: nat)
    requires Terminated(m, i) && StrChrComma(m, i) == Some(c)
    ensures Terminated(m[c := NUL], c + 1)
    ensures CutCommas(m, i) == CutCommas(m[c := NUL], c + 1)
  {
    var m1 := m[c := NUL];
    CutCommasSkip(m, i, c);
    TerminatedStep(m, m1, c);
    assert CutCommas(m, c) == CutCommas(m1, c + 1);
  }

  lemma {:induction false} SplitAtFirstComma(m: seq<char>, i: nat, c: nat)
    requires Terminated(m, i) && StrChrComma(m, i) == Some(c)
    ensures Terminated(m, c + 1)
    ensures Split(CStr(m, i)) == [m[i..c]] + Split(CStr(m, c + 1))
  {
    CStrPrefix(m, i, c);
    TerminatedStep(m, m, c);
    assert CStr(m, c) == [','] + CStr(m, c + 1);
    assert CStr(m, i) == m[i..c] + [','] + CStr(m, c + 1);
    SplitAtComma(m[i..c], CStr(m, c + 1));
  }

  /** Once a NUL follows the left part, the string at i reads as that part. */
  lemma {:induction false} LeftSegment(m: seq<char>, m': seq<char>, i: nat, c: nat)
    requires i <= c < |m| == |m'| && m'[c] == NUL
    requires forall k :: i <= k < c ==> m'[k] == m[k] && m[k] != NUL
    ensures Terminated(m', i) && CStr(m', i) == m[i..c]
  {
    CStrPrefix(m', i, c);
    assert m'[i..c] == m[i..c];
  }

  /**
   * `f(s)`, with `s` the C string at position i of the array. Its result is
   * i, which afterwards reads as the first segment; the array has every
   * comma of the string replaced by NUL; the printed lines are `Report` of
   * the segments.
   */
  method F(s: array<char>, i: nat) returns (r: nat, out: seq<Line>)
    requires Terminated(s[..], i)
    modifies s
    ensures r == i
    ensures s[..] == CutCommas(old(s[..]), i)
    ensures Terminated(s[..], i) && CStr(s[..], i) == Split(CStr(old(s[..]), i))[0]
    ensures out == Report(Split(CStr(old(s[..]), i)))
    decreases s.Length - i
  {
    ghost var m := s[..];
    var comma := StrChrComma(s[..], i);
    if comma.Some? {
      var c := comma.value;
      CutAtComma(m, i, c);
      s[c] := NUL;
      assert s[..] == m[c := NUL];
      var nexts, sub := F(s, c + 1);
      LeftSegment(m, s[..], i, c);
      var left := CStr(s[..], i);
      var right := CStr(s[..], nexts);
      out := sub + [Line(left, RelChar(StrCmp(left, right)), right)];
    } else {
      NoCommaNoChange(m, i);
      out := [];
    }
    r := i;
  }

  /** With no comma the string is left as it was and nothing is printed. */
  lemma {:induction false} NoCommaNoChange(m: seq<char>, i: nat)
    requires Terminated(m, i) && ',' !in CStr(m, i)
    ensures CutCommas(m, i) == m
    ensures Split(CStr(m, i)) == [CStr(m, i)]
    ensures Report(Split(CStr(m, i))) == []
  {
    NoCommaCut(m, i);
    SplitNoComma(CStr(m, i));
  }

  lemma {:induction false} NoCommaCut(m: seq<char>, i: nat)
    requires Terminated(m, i) && ',' !in CStr(m, i)
    ensures CutCommas(m, i) == m
    decreases |m| - i
  {
    if m[i] != NUL {
      assert CStr(m, i) == [m[i]] + CStr(m, i + 1);
      NoCommaCut(m, i + 1);
    }
  }

  /** `f` prints exactly as many lines as the string has commas. */
  lemma {:induction false} LinesPerComma(str: seq<char>)
    ensures |Report(Split(str))| == Count(str, ',')
  {
    SplitCount(str);
    ReportOrder(Split(str));
  }
}
