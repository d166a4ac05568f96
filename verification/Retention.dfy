/** The retained output of one service (internal/logstream/store.go, entry).

    H is everything appended to the entry during its lifetime. The entry keeps a suffix of H and
    the absolute offset at which the suffix starts. */
module Retention {
  import opened Lines

  /** MaxLines, MaxBytes and MaxServices; the source fixes 1000, 256 KiB and 64. */
  datatype Limits = Limits(maxLines: Pos, maxBytes: Pos, maxServices: Pos)

  // ----- trim, as a function of the buffer ------------------------------------------------

  /** The byte cap: cut down to maxBytes, then move on to the next line boundary if there is one
      before the end. */
  function ByteCut(s: string, cut: nat, maxBytes: Pos): (c: nat)
    requires cut <= |s|
    ensures cut <= c <= |s|
  {
    if |s| - cut > maxBytes then
      var c := |s| - maxBytes;
      var i := IndexNL(s[c..]);
      if i >= 0 && c + i + 1 < |s| then c + i + 1 else c
    else
      cut
  }

  /** How many leading bytes trim drops. */
  ghost function TrimCut(s: string, L: Limits): (c: nat)
    ensures c <= |s|
  {
    ByteCut(s, TailStart(s, L.maxLines), L.maxBytes)
  }

  ghost function Trimmed(s: string, L: Limits): string {
    s[TrimCut(s, L)..]
  }

  // ----- what trimming keeps --------------------------------------------------------------

  /** Exactly maxBytes of text whose only newline, if any, is its last byte: the one shape of a
      window that need not start on a line boundary. */
  predicate OneLongLine(w: string, maxBytes: Pos) {
    |w| == maxBytes && forall k | 0 <= k < maxBytes - 1 :: w[k] != NL
  }

  /** w, starting at absolute offset start, is an admissible retained window of the history H. */
  predicate WindowOf(H: string, start: nat, w: string, L: Limits) {
    && start <= |H| && w == H[start..]
    && LineCount(w) <= L.maxLines
    && |w| <= L.maxBytes
    && (Boundary(H, start) || OneLongLine(w, L.maxBytes))
  }

  lemma SuffixFewerLines(s: string, c: nat)
    requires c <= |s|
    ensures LineCount(s[c..]) <= LineCount(s)
  {
    LineCountMonotone(s[..c], s[c..]);
    assert s == s[..c] + s[c..];
  }

  /** When the byte cap fires, the cut is the least line boundary strictly after |s| - maxBytes
      and before the end; failing that, the text is cut to exactly maxBytes. */
  lemma ByteCutIsLeast(s: string, cut: nat, maxBytes: Pos)
    requires cut <= |s| && |s| - cut > maxBytes
    ensures var c := ByteCut(s, cut, maxBytes);
            if exists d :: |s| - maxBytes < d < |s| && Boundary(s, d)
            then && |s| - maxBytes < c < |s| && Boundary(s, c)
                 && forall d :: |s| - maxBytes < d < |s| && Boundary(s, d) ==> c <= d
            else c == |s| - maxBytes && OneLongLine(s[c..], maxBytes)
  {
    var b := |s| - maxBytes;
    var t := s[b..];
    var i := IndexNL(t);
    assert forall k | 0 <= k < |t| :: t[k] == s[b + k];
    if i >= 0 && b + i + 1 < |s| {
      assert Boundary(s, b + i + 1);
    }
  }

  /** A trimmed text is bounded, and starts on a line boundary or is one long line. The cut never
      moves back behind the line cut. */
  lemma TrimBounds(s: string, L: Limits)
    ensures var c := TrimCut(s, L);
            && TailStart(s, L.maxLines) <= c
            && LineCount(s[c..]) <= L.maxLines && |s[c..]| <= L.maxBytes
            && (Boundary(s, c) || OneLongLine(s[c..], L.maxBytes))
  {
    hide LineCount;
    var t := TailStart(s, L.maxLines);
    var c := TrimCut(s, L);
    SuffixFewerLines(s[t..], c - t);
    assert s[t..][c - t..] == s[c..];
    if |s| - t > L.maxBytes {
      ByteCutIsLeast(s, t, L.maxBytes);
    }
  }

  lemma NoTrimNeeded(s: string, L: Limits)
    requires LineCount(s) <= L.maxLines && |s| <= L.maxBytes
    ensures TrimCut(s, L) == 0
  {
    assert s[0..] == s;
    TailUnique(s, L.maxLines, 0, TailStart(s, L.maxLines));
  }

  /** A second trim changes nothing. */
  lemma TrimIdempotent(s: string, L: Limits)
    ensures TrimCut(Trimmed(s, L), L) == 0
  {
    TrimBounds(s, L);
    NoTrimNeeded(Trimmed(s, L), L);
  }

  /** Appending and trimming keeps the window admissible and never moves its start back. */
  lemma AppendKeepsWindow(H: string, start: nat, w: string, text: string, L: Limits)
    requires WindowOf(H, start, w, L)
    ensures var c := TrimCut(w + text, L);
            WindowOf(H + text, start + c, (w + text)[c..], L)
  {
    hide TrimCut, LineCount;
    var s := w + text;
    var c := TrimCut(s, L);
    TrimBounds(s, L);
    assert s == (H + text)[start..];
    assert s[c..] == (H + text)[start + c..];
    if c == 0 && !Boundary(H, start) {
      // The window was one long line of maxBytes, so any appended byte would have been cut.
      assert text == [];
      assert s == w && s[0..] == w;
    } else if c > 0 && Boundary(s, c) {
      assert s[c - 1] == (H + text)[start + c - 1];
    }
  }

  // ----- chunking -------------------------------------------------------------------------

  function Concat(chunks: seq<string>): string {
    if chunks == [] then "" else Concat(chunks[..|chunks| - 1]) + chunks[|chunks| - 1]
  }

  lemma ConcatSnoc(chunks: seq<string>, text: string)
    ensures Concat(chunks + [text]) == Concat(chunks) + text && Concat([]) == ""
  {
    assert (chunks + [text])[..|chunks|] == chunks;
  }

  /** The window of an entry after the chunks were appended one by one. */
  ghost function WindowAfter(chunks: seq<string>, L: Limits): string {
    if chunks == [] then ""
    else Trimmed(WindowAfter(chunks[..|chunks| - 1], L) + chunks[|chunks| - 1], L)
  }

  /** The byte cap stays out of the way: at no point do the last maxLines lines exceed it. */
  ghost predicate CapNeverFires(chunks: seq<string>, L: Limits) {
    forall k | 0 <= k <= |chunks| :: |Tail(Concat(chunks[..k]), L.maxLines)| <= L.maxBytes
  }

  lemma TrimWithoutCap(s: string, L: Limits)
    requires |Tail(s, L.maxLines)| <= L.maxBytes
    ensures Trimmed(s, L) == Tail(s, L.maxLines)
  {
  }

  /** While the cap never fires, the window depends only on the whole output, not on how it was
      split into appends: it is the last maxLines lines of everything. */
  lemma {:induction false} ChunkingIndependence(chunks: seq<string>, L: Limits)
    requires CapNeverFires(chunks, L)
    ensures WindowAfter(chunks, L) == Tail(Concat(chunks), L.maxLines)
  {
    if chunks == [] {
      TailUnique("", L.maxLines, 0, TailStart("", L.maxLines));
    } else {
      var init, last := chunks[..|chunks| - 1], chunks[|chunks| - 1];
      forall k | 0 <= k <= |init|
        ensures |Tail(Concat(init[..k]), L.maxLines)| <= L.maxBytes
      {
        assert init[..k] == chunks[..k];
      }
      ChunkingIndependence(init, L);
      TailOfTail(Concat(init), last, L.maxLines);
      assert chunks[..|chunks|] == chunks;
      TrimWithoutCap(WindowAfter(init, L) + last, L);
    }
  }

  /** A text of few lines is only ever cut by the byte cap, here at its newline k. */
  lemma CutAtNewline(s: string, L: Limits, k: nat)
    requires L.maxBytes < |s| && LineCount(s) <= L.maxLines
    requires |s| - L.maxBytes <= k < |s| - 1 && s[k] == NL
    requires forall j | |s| - L.maxBytes <= j < k :: s[j] != NL
    ensures Trimmed(s, L) == s[k + 1..]
  {
    hide LineCount;
    assert s[0..] == s;
    TailUnique(s, L.maxLines, 0, TailStart(s, L.maxLines));
    var b := |s| - L.maxBytes;
    assert s[b..][k - b] == NL;
  }

  lemma OneAppend(a: string, L: Limits)
    ensures Concat([a]) == a
    ensures WindowAfter([a], L) == Trimmed(a, L)
  {
    assert "" + a == a;
    assert WindowAfter([a][..0], L) == "";
  }

  lemma TwoAppends(a: string, b: string, L: Limits)
    ensures Concat([a, b]) == a + b
    ensures WindowAfter([a, b], L) == Trimmed(Trimmed(a, L) + b, L)
  {
    OneAppend(a, L);
    assert [a, b][..1] == [a];
  }

  /** Once the cap fires the split does matter. Let the first append be cut behind its newline k,
      and let the second one fill the window to exactly maxBytes: it then stays, first line
      included. The same bytes in one append are cut behind their next newline j instead. */
  lemma ChunkingMattersUnderCap(a: string, b: string, k: nat, j: nat, L: Limits)
    requires L.maxBytes < |a| && LineCount(a + b) <= L.maxLines
    requires |a| - L.maxBytes <= k < |a| - 1 && a[k] == NL
    requires forall i | |a| - L.maxBytes <= i < k :: a[i] != NL
    requires |a| - (k + 1) + |b| == L.maxBytes
    requires k < j < |a + b| - 1 && (a + b)[j] == NL
    requires forall i | k < i < j :: (a + b)[i] != NL
    ensures WindowAfter([a, b], L) == (a + b)[k + 1..]
    ensures WindowAfter([a + b], L) == (a + b)[j + 1..]
    ensures WindowAfter([a, b], L) != WindowAfter([a + b], L)
  {
    hide WindowAfter, Concat, Trimmed, TrimCut, LineCount;
    LineCountMonotone(a, b);
    CutAtNewline(a, L, k);
    TwoAppends(a, b, L);
    var w := (a + b)[k + 1..];
    assert a[k + 1..] + b == w;
    SuffixFewerLines(a + b, k + 1);
    NoTrimNeeded(w, L);
    TrimmedAtZero(w, L);
    CutAtNewline(a + b, L, j);
    OneAppend(a + b, L);
  }

  lemma TrimmedAtZero(s: string, L: Limits)
    requires TrimCut(s, L) == 0
    ensures Trimmed(s, L) == s
  {
  }

  /** n times the byte c. */
  function Fill(c: char, n: nat): string {
    seq(n, _ => c)
  }

  /** Such outputs exist for all but the smallest sizes, the program's 1000 lines and 262144 bytes
      among them. With maxBytes = 4 these are "xxx\n\n" and "eee": in two appends they leave
      "\neee", in one append "eee". */
  lemma ChunkingMattersAtSize(L: Limits)
    requires L.maxLines >= 3 && L.maxBytes >= 2
    ensures var a, b := Fill('x', L.maxBytes - 1) + "\n\n", Fill('e', L.maxBytes - 1);
            && WindowAfter([a, b], L) == "\n" + b
            && WindowAfter([a + b], L) == b
  {
    hide WindowAfter, Concat, LineCount;
    var x, b := Fill('x', L.maxBytes - 1), Fill('e', L.maxBytes - 1);
    var a := x + "\n\n";
    WitnessLines(x, b);
    assert a[L.maxBytes - 1] == NL && a[L.maxBytes] == NL;
    ChunkingMattersUnderCap(a, b, L.maxBytes - 1, L.maxBytes, L);
    assert (a + b)[L.maxBytes..] == "\n" + b && (a + b)[L.maxBytes + 1..] == b;
  }

  lemma WitnessLines(x: string, b: string)
    requires (forall i | 0 <= i < |x| :: x[i] != NL) && (forall i | 0 <= i < |b| :: b[i] != NL)
    ensures LineCount(x + "\n\n" + b) <= 3
  {
    CountZero(x);
    CountZero(b);
    CountConcat(x + "\n\n", b);
    CountConcat(x, "\n\n");
    assert "\n\n"[1..] == "\n" && Count("\n") == 1;
  }

  /** Where the last line begins, and where the last n lines do. */
  lemma LastLineStart(s: string, n: Pos)
    requires s != ""
    ensures TailStart(s, n) <= TailStart(s, 1) < |s|
    ensures LineCount(s[TailStart(s, 1)..]) == 1
  {
    hide LineCount;
    var p, q := TailStart(s, 1), TailStart(s, n);
    NonEmptyHasLine(s);
    NoLineInNothing();
    assert s[|s|..] == "";
    if p < q { LaterBoundaryFewerLines(s, p, q); }
  }

  /** The only line boundary behind the last two lines' start and before the end is the last line's
      start. */
  lemma OneInnerBoundary(s: string, n: Pos, d: nat)
    requires n <= 2 && s != "" && TailStart(s, n) < d < |s| && Boundary(s, d)
    ensures d == TailStart(s, 1)
  {
    hide LineCount;
    var p, q := TailStart(s, 1), TailStart(s, n);
    LastLineStart(s, n);
    if p < d {
      LaterBoundaryFewerLines(s, p, d);
      NonEmptyHasLine(s[d..]);
    } else if d < p {
      ThreeLines(s, q, d, p);
    }
  }

  /** With at most two lines trimming depends on where the last line begins, and on where the last
      maxLines lines do. */
  lemma FewLinesCut(s: string, L: Limits)
    requires L.maxLines <= 2 && s != ""
    ensures var p, q := TailStart(s, 1), TailStart(s, L.maxLines);
            TrimCut(s, L) == if |s| - q <= L.maxBytes then q
                             else if p > |s| - L.maxBytes then p else |s| - L.maxBytes
  {
    var p, q := TailStart(s, 1), TailStart(s, L.maxLines);
    LastLineStart(s, L.maxLines);
    if |s| - q > L.maxBytes {
      ByteCutIsLeast(s, q, L.maxBytes);
      forall d | |s| - L.maxBytes < d < |s| && Boundary(s, d)
        ensures d == p
      {
        OneInnerBoundary(s, L.maxLines, d);
      }
      hide ByteCut, LineCount;
    }
  }

  lemma ThreeLines(s: string, c: nat, d: nat, e: nat)
    requires Boundary(s, c) && Boundary(s, d) && Boundary(s, e) && c < d < e < |s|
    ensures LineCount(s[c..]) >= 3
  {
    hide LineCount;
    LaterBoundaryFewerLines(s, c, d);
    LaterBoundaryFewerLines(s, d, e);
    NonEmptyHasLine(s[e..]);
  }

  lemma NonEmptyHasLine(s: string)
    requires s != ""
    ensures LineCount(s) >= 1
  {
    CountZero(s);
  }

  lemma NoLineInNothing()
    ensures LineCount("") == 0
  {
  }

  /** Trimming, appending and trimming again cuts where trimming everything does. */
  lemma FewLinesTwoCuts(a: string, b: string, L: Limits)
    requires L.maxLines <= 2 && a != "" && b != ""
    ensures var c := TrimCut(a, L);
            c + TrimCut(a[c..] + b, L) == TrimCut(a + b, L)
  {
    hide LineCount, TrimCut, IsTail;
    var s, c, n := a + b, TrimCut(a, L), L.maxLines;
    FewLinesCut(a, L);
    FewLinesCut(s, L);
    FewLinesCut(a[c..] + b, L);
    assert s[c..] == a[c..] + b;
    TailOfSuffix(s, 1, c);
    TailOfSuffix(s, n, c);
    TailOfTail(a, b, n);
    if TailStart(s, n) < TailStart(a, 1) { LastLineStays(a, b, n); }
  }

  /** If the last n <= 2 lines of a + b begin before a's last line, that line has not ended. */
  lemma LastLineStays(a: string, b: string, n: Pos)
    requires n <= 2 && a != "" && b != "" && TailStart(a + b, n) < TailStart(a, 1)
    ensures TailStart(a + b, 1) == TailStart(a, 1) && TailStart(a + b, n) == TailStart(a, n)
  {
    hide LineCount, IsTail;
    var s, p, q := a + b, TailStart(a, 1), TailStart(a + b, n);
    LastLineStart(a, n);
    TailsAreBoundaries(a, n);
    TailsAreBoundaries(s, n);
    OneInnerBoundary(s, n, p);
    TailOfTail(a, b, n);
    if TailStart(a, n) < q {
      OneInnerBoundary(a, n, q);
    }
  }

  lemma TailsAreBoundaries(s: string, n: Pos)
    ensures Boundary(s, TailStart(s, 1)) && Boundary(s, TailStart(s, n))
  {
  }

  /** With a cap of one byte the window is the last byte. */
  lemma OneByteCut(s: string, L: Limits)
    requires L.maxBytes == 1 && s != ""
    ensures TrimCut(s, L) == |s| - 1
  {
    hide LineCount;
    LastLineStart(s, L.maxLines);
    if |s| - TailStart(s, L.maxLines) > 1 { ByteCutIsLeast(s, TailStart(s, L.maxLines), 1); }
  }

  lemma TwoCuts(a: string, b: string, L: Limits)
    requires L.maxLines <= 2 || L.maxBytes == 1
    ensures Trimmed(Trimmed(a, L) + b, L) == Trimmed(a + b, L)
  {
    hide TrimCut;
    var c, s := TrimCut(a, L), a + b;
    assert a[c..] + b == s[c..];
    if a == "" || b == "" {
      assert a == "" ==> a[c..] + b == b && s == b;
      assert b == "" ==> a[c..] + b == a[c..] && s == a;
      TrimIdempotent(a, L);
    } else {
      if L.maxBytes == 1 {
        OneByteCut(a, L);
        OneByteCut(s, L);
        OneByteCut(s[c..], L);
      } else {
        FewLinesTwoCuts(a, b, L);
      }
      assert s[c..][TrimCut(s[c..], L)..] == s[TrimCut(s, L)..];
    }
  }

  lemma {:induction false} SmallSizesIndependent(chunks: seq<string>, L: Limits)
    requires L.maxLines <= 2 || L.maxBytes == 1
    ensures WindowAfter(chunks, L) == Trimmed(Concat(chunks), L)
  {
    hide Trimmed;
    if chunks == [] {
      NothingTrimmed(L);
    } else {
      var init, last := chunks[..|chunks| - 1], chunks[|chunks| - 1];
      SmallSizesIndependent(init, L);
      TwoCuts(Concat(init), last, L);
    }
  }

  lemma NothingTrimmed(L: Limits)
    ensures Trimmed("", L) == ""
  {
  }

  /** The split into appends never matters, capped or not, if and only if at most two lines or one
      byte are kept. */
  lemma ChunkingIndependentSizes(L: Limits)
    ensures (forall chunks :: WindowAfter(chunks, L) == Trimmed(Concat(chunks), L))
              <==> L.maxLines <= 2 || L.maxBytes == 1
  {
    hide WindowAfter, Concat, Trimmed;
    if L.maxLines <= 2 || L.maxBytes == 1 {
      forall chunks: seq<string> {
        SmallSizesIndependent(chunks, L);
      }
    } else {
      ChunkingMattersAtSize(L);
      var a, b := Fill('x', L.maxBytes - 1) + "\n\n", Fill('e', L.maxBytes - 1);
      OneAppend(a + b, L);
      TwoAppends(a, b, L);
      assert |WindowAfter([a, b], L)| != |WindowAfter([a + b], L)|;
    }
  }

  // ----- the entry ------------------------------------------------------------------------

  /** start is the absolute offset of buf[0]; used is the stamp of the last Append. */
  datatype Entry = Entry(buf: string, start: nat, used: nat) {
    function End(): nat { start + |buf| }
  }

  const NO_OUTPUT := Entry("", 0, 0)

  /** The first half of trim: the offset of the last n lines of s. */
  method LineCut(s: string, n: Pos) returns (cut: nat)
    ensures cut == TailStart(s, n)
  {
    cut := 0;
    var lines := Count(s);
    if |s| > 0 && s[|s| - 1] != NL {
      lines := lines + 1; // trailing partial line
    }
    assert s[0..] == s;
    var i := 0;
    while i < lines - n
      invariant 0 <= i && (i == 0 || i <= lines - n)
      invariant Boundary(s, cut) && LineCount(s[cut..]) == lines - i
    {
      DropNextLine(s, cut);
      cut := cut + IndexNL(s[cut..]) + 1;
      i := i + 1;
    }
    TailUnique(s, n, cut, TailStart(s, n));
  }

  method Trim(e: Entry, L: Limits) returns (t: Entry)
    ensures t == Entry(Trimmed(e.buf, L), e.start + TrimCut(e.buf, L), e.used)
  {
    hide LineCount;
    var cut := LineCut(e.buf, L.maxLines);
    if |e.buf| - cut > L.maxBytes {
      cut := |e.buf| - L.maxBytes;
      var i := IndexNL(e.buf[cut..]);
      if i >= 0 && cut + i + 1 < |e.buf| {
        cut := cut + i + 1;
      }
    }
    if cut == 0 {
      return e;
    }
    t := e.(buf := e.buf[cut..], start := e.start + cut);
  }
}
