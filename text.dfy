/** The Python string operations the enrichers rely on, written out: `split`,
    `rsplit`, `replace`, slicing, string ordering, ASCII encoding with
    `errors='ignore'`, and the decimal text of an integer. */
module Text {

  /** Python's `s.split(c)` for a one-character separator: the pieces between
      consecutive occurrences of `c`. There is always at least one piece. */
  function Split(s: string, c: char): (r: seq<string>)
    ensures |r| >= 1
    decreases |s|
  {
    if s == [] then [""]
    else
      var rest := Split(s[1..], c);
      if s[0] == c then [""] + rest
      else [[s[0]] + rest[0]] + rest[1..]
  }

  /** Python's `sep.join(xs)`. */
  function Join(xs: seq<string>, sep: string): string
    decreases |xs|
  {
    if |xs| == 0 then "" else if |xs| == 1 then xs[0] else xs[0] + sep + Join(xs[1..], sep)
  }

  /** No piece of a split contains the separator. */
  lemma {:induction false} SplitPiecesAvoid(s: string, c: char)
    ensures forall i :: 0 <= i < |Split(s, c)| ==> c !in Split(s, c)[i]
    decreases |s|
  {
    if s != [] {
      SplitPiecesAvoid(s[1..], c);
    }
  }

  /** A split has more than one piece exactly when the separator occurs. */
  lemma {:induction false} SplitCount(s: string, c: char)
    ensures |Split(s, c)| > 1 <==> c in s
    decreases |s|
  {
    if s != [] {
      SplitCount(s[1..], c);
      assert s == [s[0]] + s[1..];
    }
  }

  /** Joining the pieces with the separator gives the string back. */
  lemma {:induction false} SplitJoin(s: string, c: char)
    ensures Join(Split(s, c), [c]) == s
    decreases |s|
  {
    if s != [] {
      var rest := Split(s[1..], c);
      SplitJoin(s[1..], c);
      if s[0] == c {
        assert Split(s, c) == [""] + rest;
        assert ([""] + rest)[1..] == rest;
      } else {
        var r := Split(s, c);
        assert r == [[s[0]] + rest[0]] + rest[1..];
        if |rest| == 1 {
          assert Join(rest, [c]) == rest[0];
        } else {
          assert r[1..] == rest[1..];
          assert Join(rest, [c]) == rest[0] + [c] + Join(rest[1..], [c]);
        }
      }
    }
  }

  /** A prefix free of the separator is glued to the first piece of the rest. */
  lemma {:induction false} SplitFreePrefix(x: string, t: string, c: char)
    requires c !in x
    ensures Split(x + t, c) == [x + Split(t, c)[0]] + Split(t, c)[1..]
    decreases |x|
  {
    if x == [] {
      assert x + t == t;
      assert x + Split(t, c)[0] == Split(t, c)[0];
    } else {
      assert (x + t)[1..] == x[1..] + t;
      SplitFreePrefix(x[1..], t, c);
      assert [x[0]] + (x[1..] + Split(t, c)[0]) == x + Split(t, c)[0];
    }
  }

  /** Splitting a join of separator-free pieces gives the pieces back. */
  lemma {:induction false} JoinSplit(xs: seq<string>, c: char)
    requires |xs| >= 1
    requires forall i :: 0 <= i < |xs| ==> c !in xs[i]
    ensures Split(Join(xs, [c]), c) == xs
    decreases |xs|
  {
    if |xs| == 1 {
      SplitFreePrefix(xs[0], "", c);
      assert xs[0] + "" == xs[0];
    } else {
      var j := Join(xs[1..], [c]);
      JoinSplit(xs[1..], c);
      assert Join(xs, [c]) == xs[0] + ([c] + j);
      SplitFreePrefix(xs[0], [c] + j, c);
      assert ([c] + j)[1..] == j;
      assert Split([c] + j, c) == [""] + xs[1..];
      assert xs[0] + "" == xs[0];
      assert [xs[0]] + xs[1..] == xs;
    }
  }

  /** Python's `s.split(c)[-1]`: the text after the last `c`, or all of `s`. */
  function LastPiece(s: string, c: char): (r: string)
  {
    var p := Split(s, c);
    p[|p| - 1]
  }

  /** The first piece of a split is the text before the first `c`, all of
      `s` when there is none. */
  lemma {:induction false} FirstPiecePrefix(s: string, c: char)
    ensures var p := Split(s, c)[0];
            |p| <= |s| && s[..|p|] == p && c !in p && (|p| < |s| ==> s[|p|] == c)
    decreases |s|
  {
    SplitPiecesAvoid(s, c);
    if s != [] && s[0] != c {
      FirstPiecePrefix(s[1..], c);
      var q := Split(s[1..], c)[0];
      assert Split(s, c)[0] == [s[0]] + q;
      assert s[..|q| + 1] == [s[0]] + s[1..][..|q|];
    }
  }

  /** The second piece of a split is the text after the first `c`, up to the
      next `c` or the end. */
  lemma SecondPiece(s: string, c: char)
    requires c in s
    ensures |Split(s, c)| >= 2
    ensures var i := FirstIndex(s, c); var p := Split(s, c)[1];
            && i + 1 + |p| <= |s| && s[i + 1..i + 1 + |p|] == p && c !in p
            && (i + 1 + |p| < |s| ==> s[i + 1 + |p|] == c)
  {
    var i := FirstIndex(s, c);
    var t := s[i + 1..];
    SplitAfterFirst(s, c);
    FirstPiecePrefix(t, c);
    var p := Split(t, c)[0];
    assert s[i + 1..i + 1 + |p|] == t[..|p|];
  }

  /** The pieces after the first are those of the text after the first `c`. */
  lemma SplitAfterFirst(s: string, c: char)
    requires c in s
    ensures |Split(s, c)| >= 2 && Split(s, c)[1] == Split(s[FirstIndex(s, c) + 1..], c)[0]
  {
    var i := FirstIndex(s, c);
    var t := s[i + 1..];
    var u := [c] + t;
    assert s == s[..i] + u;
    SplitFreePrefix(s[..i], u, c);
    assert u[1..] == t;
    assert Split(u, c) == [""] + Split(t, c);
  }

  /** The last piece of a split is the text after the last `c`, all of `s`
      when there is none. */
  lemma {:induction false} LastPieceSuffix(s: string, c: char)
    ensures var r := LastPiece(s, c);
            && |r| <= |s| && s[|s| - |r|..] == r && c !in r
            && (|r| < |s| ==> s[|s| - |r| - 1] == c)
    decreases |s|
  {
    SplitPiecesAvoid(s, c);
    if c !in s {
      SplitWithout(s, c);
    } else if c !in s[1..] {
      SplitWithout(s[1..], c);
      assert Split(s, c) == [""] + [s[1..]];
    } else {
      var t := s[1..];
      LastPieceSuffix(t, c);
      LastPieceOfTail(s, c);
      var q := LastPiece(t, c);
      assert q != t;
      assert s[|s| - |q|..] == t[|t| - |q|..];
    }
  }

  /** Without the separator, the split is the string alone. */
  lemma {:induction false} SplitWithout(s: string, c: char)
    requires c !in s
    ensures Split(s, c) == [s]
    decreases |s|
  {
    if s != [] {
      SplitWithout(s[1..], c);
      assert [s[0]] + s[1..] == s;
    }
  }

  /** When the separator occurs after the first character, the last piece is
      that of the tail. */
  lemma LastPieceOfTail(s: string, c: char)
    requires s != [] && c in s[1..]
    ensures LastPiece(s, c) == LastPiece(s[1..], c)
  {
    SplitCount(s[1..], c);
  }

  /** Python's `s.rsplit(c, 2)[0]`: the text before the second-to-last `c`
      (before the only `c` when there is one; all of `s` when there is none). */
  function RsplitTwoHead(s: string, c: char): (r: string)
  {
    var p := Split(s, c);
    if |p| <= 2 then p[0] else Join(p[..|p| - 2], [c])
  }

  /** The index of the first `c` in `s`. */
  function FirstIndex(s: string, c: char): (i: nat)
    requires c in s
    ensures i < |s| && s[i] == c && c !in s[..i]
    decreases |s|
  {
    if s[0] == c then 0
    else
      assert c in s[1..] by { assert s == [s[0]] + s[1..]; }
      var j := FirstIndex(s[1..], c);
      assert s[..j + 1] == [s[0]] + s[1..][..j];
      j + 1
  }

  /** In `x + t` with `x` free of `c` and `t` starting with `c`, the first
      `c` is the one just after `x`. */
  lemma FirstIndexAfterFree(x: string, t: string, c: char)
    requires c !in x && |t| > 0 && t[0] == c
    ensures FirstIndex(x + t, c) == |x|
  {
    var s := x + t;
    assert s[|x|] == c;
    var i := FirstIndex(s, c);
    assert forall j :: 0 <= j < |x| ==> s[j] == x[j];
    forall j | 0 <= j < i
      ensures s[j] != c
    {
      assert s[j] == s[..i][j];
    }
  }

  /** A text cut at its first `c` determines both parts. */
  lemma SeparatedPartsUnique(x1: string, t1: string, x2: string, t2: string, c: char)
    requires c !in x1 && |t1| > 0 && t1[0] == c
    requires c !in x2 && |t2| > 0 && t2[0] == c
    requires x1 + t1 == x2 + t2
    ensures x1 == x2 && t1 == t2
  {
    var s := x1 + t1;
    FirstIndexAfterFree(x1, t1, c);
    FirstIndexAfterFree(x2, t2, c);
    assert x1 == s[..|x1|] && t1 == s[|x1|..];
    assert x2 == s[..|x2|] && t2 == s[|x2|..];
  }

  /** Python's `s.split(c, 1)`: `[s]` when `c` does not occur, otherwise the
      text before the first `c` and everything after it. */
  function SplitOnce(s: string, c: char): (r: seq<string>)
    ensures |r| == 1 <==> c !in s
    ensures |r| == 1 || |r| == 2
    ensures c !in r[0]
    ensures |r| == 1 ==> r[0] == s
    ensures |r| == 2 ==> s == r[0] + [c] + r[1]
  {
    if c !in s then [s]
    else
      var i := FirstIndex(s, c);
      assert s == s[..i] + [c] + s[i + 1..];
      [s[..i], s[i + 1..]]
  }

  /** Whether `pat` occurs in `s` starting at index `i`. */
  predicate OccursAt(pat: string, s: string, i: int) {
    0 <= i && i + |pat| <= |s| && s[i..i + |pat|] == pat
  }

  /** Whether `pat` occurs somewhere in `s`. */
  ghost predicate Occurs(pat: string, s: string) {
    exists i :: OccursAt(pat, s, i)
  }

  /** Python's `s.replace(pat, '')`: every non-overlapping occurrence of `pat`,
      found from left to right, is removed. */
  function RemoveAll(s: string, pat: string): (r: string)
    requires |pat| > 0
    decreases |s|
  {
    if |s| < |pat| then s
    else if s[..|pat|] == pat then RemoveAll(s[|pat|..], pat)
    else [s[0]] + RemoveAll(s[1..], pat)
  }

  /** Removing a pattern that does not occur leaves the string as it is. */
  lemma {:induction false} RemoveAllAbsent(s: string, pat: string)
    requires |pat| > 0
    requires !Occurs(pat, s)
    ensures RemoveAll(s, pat) == s
    decreases |s|
  {
    if |s| >= |pat| {
      assert !OccursAt(pat, s, 0);
      assert s[0..|pat|] == s[..|pat|];
      forall i | 0 <= i && i + |pat| <= |s| - 1
        ensures !OccursAt(pat, s[1..], i)
      {
        assert !OccursAt(pat, s, i + 1);
        assert s[1..][i..i + |pat|] == s[i + 1..i + 1 + |pat|];
      }
      RemoveAllAbsent(s[1..], pat);
      assert s == [s[0]] + s[1..];
    }
  }

  /** A pattern holding a character that `s` lacks cannot occur in `s`. */
  lemma AbsentByChar(pat: string, s: string, k: nat)
    requires k < |pat| && pat[k] !in s
    ensures !Occurs(pat, s)
  {
    forall i | 0 <= i && i + |pat| <= |s|
      ensures !OccursAt(pat, s, i)
    {
      assert s[i..i + |pat|][k] == s[i + k];
      assert s[i + k] in s;
    }
  }

  /** Python's `s[:n]` for a non-negative `n`: the longest prefix of at most `n` characters. */
  function Truncate(s: string, n: nat): (r: string)
    ensures |r| <= n && |r| <= |s|
    ensures r == s[..|r|]
    ensures |s| <= n ==> r == s
    ensures |s| > n ==> |r| == n
  {
    if |s| <= n then s else s[..n]
  }

  /** Python's `str(s.encode('ascii', 'ignore'), 'ascii')`: every character
      that is not ASCII is dropped, the others are kept in order. */
  function AsciiOnly(s: string): (r: string)
    decreases |s|
  {
    if s == [] then ""
    else if (s[0] as int) < 128 then [s[0]] + AsciiOnly(s[1..])
    else AsciiOnly(s[1..])
  }

  predicate IsAscii(s: string) {
    forall i :: 0 <= i < |s| ==> (s[i] as int) < 128
  }

  /** The sanitised text is pure ASCII, and ASCII text is left as it is. */
  lemma {:induction false} AsciiOnlyProperties(s: string)
    ensures IsAscii(AsciiOnly(s))
    ensures |AsciiOnly(s)| <= |s|
    ensures IsAscii(s) ==> AsciiOnly(s) == s
    decreases |s|
  {
    if s != [] {
      AsciiOnlyProperties(s[1..]);
      assert IsAscii(s) ==> IsAscii(s[1..]);
      assert s == [s[0]] + s[1..];
    }
  }

  /** The decimal digit for `d`. */
  function DigitChar(d: nat): (ch: char)
    requires d < 10
  {
    (48 + d) as char
  }

  /** Python's `str(n)` for a natural number. */
  function NatText(n: nat): (r: string)
    decreases n
  {
    if n < 10 then [DigitChar(n)] else NatText(n / 10) + [DigitChar(n % 10)]
  }

  predicate IsDigit(ch: char) {
    '0' <= ch <= '9'
  }

  /** The text of a natural number is a non-empty run of digits, one long exactly below ten. */
  lemma {:induction false} NatTextShape(n: nat)
    ensures |NatText(n)| >= 1
    ensures forall i :: 0 <= i < |NatText(n)| ==> IsDigit(NatText(n)[i])
    ensures |NatText(n)| == 1 <==> n < 10
    decreases n
  {
    if n >= 10 {
      NatTextShape(n / 10);
    }
  }

  /** Distinct numbers have distinct texts. */
  lemma {:induction false} NatTextInjective(a: nat, b: nat)
    requires NatText(a) == NatText(b)
    ensures a == b
    decreases a
  {
    NatTextShape(a);
    NatTextShape(b);
    if a >= 10 {
      var ta, tb := NatText(a), NatText(b);
      assert ta[|ta| - 1] == DigitChar(a % 10) && tb[|tb| - 1] == DigitChar(b % 10);
      assert a % 10 == b % 10;
      assert ta[..|ta| - 1] == NatText(a / 10);
      assert tb[..|tb| - 1] == NatText(b / 10);
      NatTextInjective(a / 10, b / 10);
    } else {
      assert NatText(a)[0] == DigitChar(a) && NatText(b)[0] == DigitChar(b);
    }
  }

  /** Python's `str(i)` for any integer. */
  function IntText(i: int): (r: string)
  {
    if i < 0 then "-" + NatText(-i) else NatText(i)
  }

  /** The text of an integer starts with a minus sign exactly when it is negative. */
  lemma IntTextSign(i: int)
    ensures |IntText(i)| >= 1
    ensures IntText(i)[0] == '-' <==> i < 0
  {
    NatTextShape(if i < 0 then -i else i);
    if i >= 0 {
      assert IsDigit(NatText(i)[0]);
    }
  }

  /** Distinct integers have distinct texts. */
  lemma IntTextInjective(a: int, b: int)
    requires IntText(a) == IntText(b)
    ensures a == b
  {
    IntTextSign(a);
    IntTextSign(b);
    if a < 0 {
      assert NatText(-a) == IntText(a)[1..];
      assert NatText(-b) == IntText(b)[1..];
      NatTextInjective(-a, -b);
    } else {
      NatTextInjective(a, b);
    }
  }

  /** Python's `a < b` on strings: lexicographic order by character, where a
      proper prefix comes first. */
  predicate LexLess(a: string, b: string)
    decreases |a|
  {
    if |a| == 0 then |b| > 0
    else if |b| == 0 then false
    else if a[0] != b[0] then a[0] < b[0]
    else LexLess(a[1..], b[1..])
  }

  lemma {:induction false} LexIrreflexive(a: string)
    ensures !LexLess(a, a)
    decreases |a|
  {
    if |a| > 0 {
      LexIrreflexive(a[1..]);
    }
  }

  lemma {:induction false} LexTransitive(a: string, b: string, c: string)
    requires LexLess(a, b) && LexLess(b, c)
    ensures LexLess(a, c)
    decreases |a|
  {
    if |a| > 0 && a[0] == b[0] && b[0] == c[0] {
      LexTransitive(a[1..], b[1..], c[1..]);
    }
  }

  /** Of two different strings one is smaller than the other. */
  lemma {:induction false} LexTotal(a: string, b: string)
    requires a != b
    ensures LexLess(a, b) || LexLess(b, a)
    decreases |a|
  {
    if |a| > 0 && |b| > 0 && a[0] == b[0] {
      assert a == [a[0]] + a[1..] && b == [b[0]] + b[1..];
      LexTotal(a[1..], b[1..]);
    }
  }

  lemma {:induction false} LexAsymmetric(a: string, b: string)
    requires LexLess(a, b)
    ensures !LexLess(b, a)
    decreases |a|
  {
    if |a| > 0 && a[0] == b[0] {
      LexAsymmetric(a[1..], b[1..]);
    }
  }

  /** `x < y <= z` gives `x < z`. */
  lemma LexLessThenAtMost(x: string, y: string, z: string)
    requires LexLess(x, y) && !LexLess(z, y)
    ensures LexLess(x, z)
  {
    if z != y {
      LexTotal(z, y);
      LexTransitive(x, y, z);
    }
  }

  /** `x <= y < z` gives `x < z`. */
  lemma LexAtMostThenLess(x: string, y: string, z: string)
    requires !LexLess(y, x) && LexLess(y, z)
    ensures LexLess(x, z)
  {
    if x != y {
      LexTotal(x, y);
      LexTransitive(x, y, z);
    }
  }

  /** `x + sep` for every `x` of `xs`, concatenated: the string that a loop
      `s += x + sep` builds. */
  function Terminated(xs: seq<string>, sep: string): (r: string)
    decreases |xs|
  {
    if |xs| == 0 then "" else xs[0] + sep + Terminated(xs[1..], sep)
  }

  lemma {:induction false} TerminatedSnoc(xs: seq<string>, x: string, sep: string)
    ensures Terminated(xs + [x], sep) == Terminated(xs, sep) + x + sep
    decreases |xs|
  {
    if |xs| == 0 {
      assert xs + [x] == [x];
      assert Terminated([x], sep) == x + sep + Terminated([], sep);
    } else {
      assert (xs + [x])[1..] == xs[1..] + [x];
      TerminatedSnoc(xs[1..], x, sep);
    }
  }

  /** The loop-built string is the join followed by one trailing separator. */
  lemma {:induction false} TerminatedIsJoinPlusSep(xs: seq<string>, sep: string)
    requires |xs| > 0
    ensures Terminated(xs, sep) == Join(xs, sep) + sep
    decreases |xs|
  {
    if |xs| == 1 {
      assert Terminated(xs, sep) == xs[0] + sep + Terminated(xs[1..], sep);
    } else {
      TerminatedIsJoinPlusSep(xs[1..], sep);
    }
  }
}
