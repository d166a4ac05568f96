/** Newline-terminated text. A string here is a string of bytes: every char is one byte.

    A line ends with its newline; a trailing piece without a newline counts as one more line.
    The retained log window (internal/logstream) and both tail commands (cmd/localapp) cut text
    at line boundaries, so they share the notion of "the last n lines" defined here. */
module Lines {

  const NL: char := '\n'

  type Pos = n: nat | 1 <= n witness 1

  function Min(a: nat, b: nat): nat {
    if a <= b then a else b
  }

  /** bytes.Count(s, "\n") */
  function Count(s: string): nat {
    if s == [] then 0 else (if s[0] == NL then 1 else 0) + Count(s[1..])
  }

  /** bytes.IndexByte(s, '\n'): the first newline, or -1. */
  function IndexNL(s: string): (r: int)
    ensures -1 <= r < |s|
    ensures r >= 0 ==> s[r] == NL
    ensures forall k | 0 <= k < (if r < 0 then |s| else r) :: s[k] != NL
  {
    if s == [] then -1
    else if s[0] == NL then 0
    else
      var k := IndexNL(s[1..]);
      if k < 0 then -1 else k + 1
  }

  function LineCount(s: string): nat {
    Count(s) + if s != [] && s[|s| - 1] != NL then 1 else 0
  }

  /** c is the beginning of a line of s, or the end of a newline-terminated s. */
  predicate Boundary(s: string, c: int) {
    0 <= c <= |s| && (c == 0 || s[c - 1] == NL)
  }

  /** s[c..] consists of exactly the last n lines of s (of all of them if there are fewer). */
  predicate IsTail(s: string, n: nat, c: int) {
    Boundary(s, c) && LineCount(s[c..]) == Min(n, LineCount(s))
  }

  lemma {:induction false} CountConcat(a: string, b: string)
    ensures Count(a + b) == Count(a) + Count(b)
  {
    if a == [] {
      assert a + b == b;
    } else {
      assert (a + b)[1..] == a[1..] + b;
      CountConcat(a[1..], b);
    }
  }

  lemma {:induction false} CountZero(s: string)
    ensures Count(s) == 0 <==> forall k | 0 <= k < |s| :: s[k] != NL
  {
    if s != [] {
      CountZero(s[1..]);
      assert forall k | 1 <= k < |s| :: s[k] == s[1..][k - 1];
    }
  }

  lemma CountSplit(s: string, c: nat)
    requires c <= |s|
    ensures Count(s) == Count(s[..c]) + Count(s[c..])
  {
    CountConcat(s[..c], s[c..]);
    assert s == s[..c] + s[c..];
  }

  lemma LineCountSplit(s: string, c: nat)
    requires Boundary(s, c)
    ensures LineCount(s) == Count(s[..c]) + LineCount(s[c..])
  {
    CountSplit(s, c);
  }

  lemma LineCountMonotone(a: string, b: string)
    ensures LineCount(a + b) >= LineCount(a)
    ensures LineCount(a + b) >= LineCount(b)
  {
    CountConcat(a, b);
    if b == [] {
      assert a + b == a;
    } else {
      assert LineCount(b) >= 1 by {
        if b[|b| - 1] == NL { CountZero(b); }
      }
    }
  }

  /** Later line boundaries leave strictly fewer lines. */
  lemma LaterBoundaryFewerLines(s: string, c: nat, d: nat)
    requires Boundary(s, c) && Boundary(s, d) && c < d
    ensures LineCount(s[c..]) > LineCount(s[d..])
  {
    LineCountSplit(s, c);
    LineCountSplit(s, d);
    CountSplit(s[..d], c);
    assert s[..d][..c] == s[..c];
    assert s[..d][c..][d - c - 1] == NL;
    CountZero(s[..d][c..]);
  }

  /** "The last n lines" names at most one suffix. */
  lemma TailUnique(s: string, n: nat, c: int, d: int)
    requires IsTail(s, n, c) && IsTail(s, n, d)
    ensures c == d
  {
    if c < d {
      LaterBoundaryFewerLines(s, c, d);
    } else if d < c {
      LaterBoundaryFewerLines(s, d, c);
    }
  }

  lemma {:induction false} CountFirstLine(s: string, k: nat)
    requires k < |s| && s[k] == NL && forall j | 0 <= j < k :: s[j] != NL
    ensures Count(s) == 1 + Count(s[k + 1..])
  {
    if k > 0 {
      CountFirstLine(s[1..], k - 1);
      assert s[1..][k..] == s[k + 1..];
    }
  }

  /** With two lines or more the newline search of the trimming loop succeeds, and dropping the
      first line lowers the line count by exactly one. */
  lemma DropFirstLine(s: string)
    requires LineCount(s) >= 2
    ensures IndexNL(s) >= 0
    ensures LineCount(s[IndexNL(s) + 1..]) == LineCount(s) - 1
  {
    CountZero(s);
    CountZero(s[IndexNL(s) + 1..]);
    hide Count, IndexNL;
    CountFirstLine(s, IndexNL(s));
  }

  /** The same, seen from a line boundary inside a longer text. */
  lemma DropNextLine(s: string, c: nat)
    requires Boundary(s, c) && LineCount(s[c..]) >= 2
    ensures IndexNL(s[c..]) >= 0
    ensures var d := c + IndexNL(s[c..]) + 1;
            Boundary(s, d) && LineCount(s[d..]) == LineCount(s[c..]) - 1
  {
    DropFirstLine(s[c..]);
    var k := IndexNL(s[c..]);
    assert s[c..][k + 1..] == s[c + k + 1..];
    assert s[c..][k] == s[c + k];
  }

  lemma {:induction false} LineCountAtMostLength(s: string)
    ensures LineCount(s) <= |s|
  {
    if s != [] {
      LineCountAtMostLength(s[1..]);
      assert |s| == 1 ==> s[1..] == [];
    }
  }

  /** A tail of a long enough suffix is a tail of the whole. */
  lemma TailShift(s: string, n: nat, k: nat, c: nat)
    requires k <= |s| && Boundary(s, k) && IsTail(s[k..], n, c)
    requires k > 0 ==> LineCount(s[k..]) >= n && LineCount(s) >= n
    ensures IsTail(s, n, k + c)
  {
    assert s[k..][c..] == s[k + c..];
    if c > 0 {
      assert s[k..][c - 1] == s[k + c - 1];
    }
    if k == 0 {
      assert s[0..] == s;
    }
  }

  lemma {:induction false} TailExists(s: string, n: Pos)
    ensures exists c: nat :: IsTail(s, n, c)
    decreases |s|
  {
    if LineCount(s) <= n {
      assert s[0..] == s;
      assert IsTail(s, n, 0);
    } else {
      DropFirstLine(s);
      var k := IndexNL(s) + 1;
      TailExists(s[k..], n);
      var d: nat :| IsTail(s[k..], n, d);
      TailShift(s, n, k, d);
      assert IsTail(s, n, k + d);
    }
  }

  /** Where the last n lines begin. */
  ghost function TailStart(s: string, n: Pos): (c: nat)
    ensures IsTail(s, n, c)
  {
    TailExists(s, n);
    var c: nat :| IsTail(s, n, c);
    c
  }

  ghost function Tail(s: string, n: Pos): string {
    s[TailStart(s, n)..]
  }

  /** Whatever follows, a tail of n lines still holds the last n lines of the longer text. */
  lemma TailCovers(a: string, b: string, n: nat, c: nat)
    requires c <= |a| && LineCount(a[c..]) >= n
    ensures LineCount(a[c..] + b) >= n
    ensures LineCount(a + b) >= n
  {
    LineCountMonotone(a[c..], b);
    LineCountMonotone(a[..c], a[c..] + b);
    assert a + b == a[..c] + (a[c..] + b);
  }

  lemma TailsCombine(a: string, b: string, n: nat, c: nat, d: nat)
    requires IsTail(a, n, c)
    requires IsTail(a[c..] + b, n, d)
    ensures IsTail(a + b, n, c + d)
  {
    assert a[c..] + b == (a + b)[c..];
    if c > 0 {
      LaterBoundaryFewerLines(a, 0, c);
      assert a[0..] == a;
      TailCovers(a, b, n, c);
    }
    TailShift(a + b, n, c, d);
  }

  /** Keeping the last n lines, appending, and keeping the last n lines again is the same as
      keeping the last n lines of everything. */
  lemma TailOfTail(a: string, b: string, n: Pos)
    ensures TailStart(a + b, n) == TailStart(a, n) + TailStart(Tail(a, n) + b, n)
    ensures Tail(Tail(a, n) + b, n) == Tail(a + b, n)
  {
    var c := TailStart(a, n);
    var d := TailStart(a[c..] + b, n);
    TailsCombine(a, b, n, c, d);
    TailUnique(a + b, n, c + d, TailStart(a + b, n));
    assert (a[c..] + b)[d..] == (a + b)[c + d..];
  }

  /** The last n lines of a suffix are those of the whole text, as far as the suffix reaches. */
  lemma TailOfSuffix(s: string, n: Pos, c: nat)
    requires c <= |s|
    ensures TailStart(s[c..], n) + c == if TailStart(s, n) >= c then TailStart(s, n) else c
  {
    hide LineCount;
    var t := TailStart(s, n);
    LineCountMonotone(s[..c], s[c..]);
    assert s[..c] + s[c..] == s;
    if t >= c {
      LineCountMonotone(s[c..t], s[t..]);
      assert s[c..t] + s[t..] == s[c..] && s[c..][t - c..] == s[t..];
      TailUnique(s[c..], n, t - c, TailStart(s[c..], n));
    } else {
      LineCountMonotone(s[t..c], s[c..]);
      assert s[t..c] + s[c..] == s[t..] && s[c..][0..] == s[c..];
      TailUnique(s[c..], n, 0, TailStart(s[c..], n));
    }
  }
}
