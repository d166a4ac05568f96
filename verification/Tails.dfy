/** The two commands that show the end of a log: logcat (cmd/localapp/logcat.go, tailLines) searches
    backwards for newlines, logs (cmd/localapp/logs.go, lastLines) counts them. */
module Tails {
  import opened Lines

  /** strings.LastIndexByte(s, '\n'): the last newline, or -1. */
  function LastIndexNL(s: string): (r: int)
    ensures -1 <= r < |s|
    ensures r >= 0 ==> s[r] == NL
    ensures forall k | r < k < |s| :: s[k] != NL
  {
    if s == [] then -1
    else if s[|s| - 1] == NL then |s| - 1
    else LastIndexNL(s[..|s| - 1])
  }

  /** Where the final newline is, or would be. */
  function LastEnd(s: string): nat
    requires s != []
  {
    if s[|s| - 1] == NL then |s| - 1 else |s|
  }

  /** Lines after a position, counted by the newlines that separate them. */
  lemma LinesFrom(s: string, c: nat)
    requires c < |s| && c <= LastEnd(s)
    ensures LineCount(s[c..]) == Count(s[c..LastEnd(s)]) + 1
  {
    var e := LastEnd(s);
    CountSplit(s[c..], e - c);
    assert s[c..][..e - c] == s[c..e];
    assert s[c..][e - c..] == s[e..];
    if e < |s| {
      assert s[e..] == [NL];
      assert Count([NL]) == 1 + Count([NL][1..]);
    }
  }

  /** One line more: from behind a newline at j to behind the next one at i, or to the end. */
  lemma PrecedingLine(s: string, j: int, i: nat)
    requires s != [] && -1 <= j < i <= LastEnd(s)
    requires i < LastEnd(s) ==> s[i] == NL
    requires forall k | j < k < i :: s[k] != NL
    requires i == LastEnd(s) ==> j + 1 < |s|
    ensures LineCount(s[j + 1..]) == 1 + if i == LastEnd(s) then 0 else LineCount(s[i + 1..])
  {
    var e := LastEnd(s);
    LinesFrom(s, j + 1);
    CountSplit(s[j + 1..e], i - j - 1);
    assert s[j + 1..e][..i - j - 1] == s[j + 1..i];
    assert s[j + 1..e][i - j - 1..] == s[i..e];
    CountZero(s[j + 1..i]);
    if i < e {
      assert s[i..e][1..] == s[i + 1..e];
      LinesFrom(s, i + 1);
    }
  }

  /** What logs -n shows: everything for n <= 0, the last n lines otherwise. */
  ghost function LastLinesOf(data: string, n: int): string {
    if n <= 0 then data else Tail(data, n)
  }

  /** What logcat -n shows. Asked for all the lines of a text that begins with an empty line, it
      drops that line. */
  ghost function TailLinesOf(text: string, n: nat): string {
    if n == 0 then text
    else if text != "" && text[0] == NL && LineCount(text) <= n then text[1..]
    else Tail(text, n)
  }

  lemma TailIsAll(s: string, n: Pos)
    requires LineCount(s) <= n
    ensures Tail(s, n) == s
  {
    assert s[0..] == s;
    TailUnique(s, n, 0, TailStart(s, n));
  }

  lemma TailIs(s: string, n: Pos, c: nat)
    requires 0 < c <= |s| && s[c - 1] == NL && LineCount(s[c..]) == n
    ensures Tail(s, n) == s[c..]
    ensures LineCount(s) > n
  {
    LaterBoundaryFewerLines(s, 0, c);
    assert s[0..] == s;
    TailUnique(s, n, c, TailStart(s, n));
  }

  method LastLines(data: string, n: int) returns (r: string)
    ensures r == LastLinesOf(data, n)
  {
    hide LastLinesOf, LineCount, Count, IsTail;
    if n <= 0 || |data| == 0 {
      AllLines(data, n);
      return data;
    }
    var end := |data|;
    if data[end - 1] == NL {
      end := end - 1;
    }
    var count := 0;
    var i := end - 1;
    CountZero(data[end..end]);
    while i >= 0
      invariant -1 <= i < end == LastEnd(data)
      invariant Count(data[i + 1..end]) == count < n
    {
      CountAt(data, i, end);
      if data[i] == NL {
        count := count + 1;
        if count == n {
          CountedBack(data, n, i);
          return data[i + 1..];
        }
      }
      i := i - 1;
    }
    FewLines(data, n);
    return data;
  }

  lemma AllLines(data: string, n: int)
    requires n <= 0 || data == ""
    ensures LastLinesOf(data, n) == data
  {
    if n > 0 { EmptyTail(n); }
  }

  /** n newlines before the final one: behind the first of them are the last n lines. */
  lemma CountedBack(data: string, n: Pos, i: nat)
    requires data != "" && i < LastEnd(data) && data[i] == NL && Count(data[i..LastEnd(data)]) == n
    ensures LastLinesOf(data, n) == data[i + 1..]
  {
    hide LineCount, IsTail;
    EndsLater(data);
    CountAt(data, i, LastEnd(data));
    if i + 1 < |data| {
      LinesFrom(data, i + 1);
      TailIs(data, n, i + 1);
    }
  }

  lemma FewLines(data: string, n: Pos)
    requires data != "" && Count(data[0..LastEnd(data)]) < n
    ensures LastLinesOf(data, n) == data
  {
    hide LineCount, IsTail;
    LinesFrom(data, 0);
    assert data[0..] == data;
    TailIsAll(data, n);
  }

  lemma EmptyTail(n: Pos)
    ensures Tail("", n) == ""
  {
  }

  lemma CountAt(s: string, i: nat, e: nat)
    requires i < e <= |s|
    ensures Count(s[i..e]) == (if s[i] == NL then 1 else 0) + Count(s[i + 1..e])
  {
    assert s[i..e][1..] == s[i + 1..e];
  }

  /** The backward search has come to i, with left newlines to go. */
  predicate Searched(text: string, n: nat, i: nat, left: nat)
    requires text != ""
  {
    && i <= LastEnd(text) && left <= n
    && if i == LastEnd(text) then left == n else text[i] == NL && LineCount(text[i + 1..]) == n - left
  }

  lemma SearchStep(text: string, n: nat, i: nat, left: nat, j: int)
    requires text != "" && Searched(text, n, i, left) && left > 0 && -1 <= j < i
    requires j >= 0 ==> text[j] == NL
    requires forall k | j < k < i :: text[k] != NL
    ensures if j >= 0 then Searched(text, n, j, left - 1) else LineCount(text) <= n
  {
    hide LineCount, LastEnd;
    EndsLater(text);
    PrecedingLine(text, j, i);
    assert j < 0 ==> text[j + 1..] == text;
  }

  lemma EndsLater(text: string)
    requires text != ""
    ensures |text| - 1 <= LastEnd(text) <= |text|
    ensures LastEnd(text) == |text| ==> text[|text| - 1] != NL
  {
  }

  lemma NothingFound(text: string, n: Pos)
    requires text != "" && LineCount(text) <= n && text[0] != NL
    ensures TailLinesOf(text, n) == text
  {
    hide LineCount, IsTail;
    TailIsAll(text, n);
  }

  lemma SearchEnds(text: string, n: Pos, i: nat, left: nat)
    requires text != "" && Searched(text, n, i, left) && (left == 0 || i == 0)
    ensures i < |text| && TailLinesOf(text, n) == text[i + 1..]
  {
    hide IsTail;
    if left == 0 {
      TailIs(text, n, i + 1);
    } else {
      // The text begins with a newline and has no more lines than asked for.
      PrecedingLine(text, -1, 0);
      assert text[0..] == text;
      hide LineCount;
    }
  }

  method TailLines(text: string, n: nat) returns (r: string)
    ensures r == TailLinesOf(text, n)
  {
    hide TailLinesOf, Searched, LineCount, IsTail;
    if n == 0 || text == "" {
      NothingToShow(text, n);
      return text;
    }
    var end := |text|;
    if text[end - 1] == NL {
      end := end - 1;
    }
    var i, left := end, n;
    SearchBegins(text, n);
    while left > 0 && i > 0
      invariant 0 <= i <= end == LastEnd(text) && 0 <= left <= n
      invariant Searched(text, n, i, left)
    {
      var j := LastIndexNL(text[..i]);
      assert forall k | j < k < i :: text[k] == text[..i][k];
      SearchStep(text, n, i, left, j);
      if j < 0 {
        NothingFound(text, n);
        return text;
      }
      i := j;
      left := left - 1;
    }
    SearchEnds(text, n, i, left);
    return text[i + 1..];
  }

  lemma SearchBegins(text: string, n: nat)
    requires text != ""
    ensures Searched(text, n, LastEnd(text), n)
  {
  }

  lemma NothingToShow(text: string, n: nat)
    requires n == 0 || text == ""
    ensures TailLinesOf(text, n) == text
  {
    if n > 0 { EmptyTail(n); }
  }

  /** The two agree except on a text that begins with an empty line, asked for as many lines as it
      has or more. */
  lemma TailsAgree(text: string, n: nat)
    ensures TailLinesOf(text, n) == LastLinesOf(text, n)
            <==> n == 0 || text == "" || text[0] != NL || n < LineCount(text)
  {
    hide IsTail;
    if n > 0 && LineCount(text) <= n {
      TailIsAll(text, n);
    }
  }

  /** logs shows everything for n <= 0, and otherwise exactly min(n, lines) lines, cut at a line
      boundary. */
  lemma LastLinesAreLines(text: string, n: int)
    ensures n <= 0 ==> LastLinesOf(text, n) == text
    ensures n > 0 ==>
              var r := LastLinesOf(text, n);
              && LineCount(r) == Min(n, LineCount(text))
              && |r| <= |text| && r == text[|text| - |r|..]
              && (|r| < |text| ==> text[|text| - |r| - 1] == '\n')
  {
    if n > 0 {
      assert |Tail(text, n)| == |text| - TailStart(text, n);
    }
  }

  /** logcat shows the same, without the first line when that is empty and all lines are asked for. */
  lemma TailLinesAreLines(text: string, n: nat)
    ensures TailLinesOf(text, n) ==
            if n > 0 && "\n" <= text && LineCount(text) <= n then text[1..] else LastLinesOf(text, n)
  {
    hide IsTail;
    assert text != "" ==> ("\n" <= text <==> text[0] == '\n');
  }
}
