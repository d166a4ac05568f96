/** The bounded queue between an application's output and the daemon
    (cmd/localapp/log_forward.go).

    Write never waits. One goroutine takes whatever is queued, sends it, and marks the stream when
    something was lost. The program cannot tell why a request failed: it may never have arrived,
    it may have arrived although the reply was lost, or it may still arrive after the client gave
    up, even behind later requests. */
module Forwarder {
  import opened Lines
  import opened Retention
  import opened Wrappers

  const MARKER := "\n" + "[localapp: output omitted while log forwarding was behind]" + "\n"

  /** One request: the bytes lo..hi of everything written, after a marker if marked. */
  datatype Batch = Batch(marked: bool, lo: nat, hi: nat, text: string)

  /** The one-line messages given to the warn callback. */
  datatype Warning = Failing | Resumed

  /** pending, dropped and failing are the program's; inflight is the batch whose request is under
      way, arrived whether it has reached the daemon.

      The rest is what an observer would record: written is everything ever passed to Write,
      received the batches that arrived while their request was under way, limbo those whose
      request failed before they arrived, log every batch in the order of arrival. */
  datatype State = State(pending: string, dropped: bool, failing: bool,
                         inflight: Option<Batch>, arrived: bool,
                         written: string, received: seq<Batch>, limbo: seq<Batch>, log: seq<Batch>,
                         warnings: seq<Warning>)

  datatype Action =
    | Write(p: string)
    | Take
    | Arrive
    | Succeed
    | Fail
    | ArriveLate(k: nat)

  // ----- steps ------------------------------------------------------------------------------

  /** The queue and the dropped flag after Write(p). */
  function Queued(pending: string, dropped: bool, p: string, max: Pos): (string, bool)
    requires |pending| <= max
  {
    if |p| >= max then (p[|p| - max..], true)
    else if |pending| + |p| > max then (pending[|pending| + |p| - max..] + p, true)
    else (pending + p, dropped)
  }

  function Render(marked: bool, bytes: string): string {
    if marked then MARKER + bytes else bytes
  }

  /** The batch that send takes off the queue. */
  function NextBatch(s: State): Batch
    requires |s.pending| <= |s.written|
  {
    Batch(s.dropped, |s.written| - |s.pending|, |s.written|, Render(s.dropped, s.pending))
  }

  function Without<T>(s: seq<T>, k: nat): seq<T>
    requires k < |s|
  {
    s[..k] + s[k + 1..]
  }

  function Step(s: State, a: Action, max: Pos): (s': State)
    requires |s.pending| <= max && |s.pending| <= |s.written|
    ensures |s'.pending| <= max && |s'.pending| <= |s'.written|
  {
    match a
    case Write(p) =>
      var q := Queued(s.pending, s.dropped, p, max);
      s.(pending := q.0, dropped := q.1, written := s.written + p)
    case Take =>
      if s.inflight.None? && (s.pending != "" || s.dropped) then
        s.(pending := "", dropped := false, inflight := Some(NextBatch(s)), arrived := false)
      else s
    case Arrive =>
      if s.inflight.Some? && !s.arrived then
        s.(arrived := true, received := s.received + [s.inflight.value], log := s.log + [s.inflight.value])
      else s
    case Succeed =>
      if s.inflight.Some? && s.arrived then
        s.(inflight := None, failing := false,
           warnings := if s.failing then s.warnings + [Resumed] else s.warnings)
      else s
    case Fail =>
      if s.inflight.Some? then
        s.(inflight := None, dropped := true, failing := true,
           limbo := if s.arrived then s.limbo else s.limbo + [s.inflight.value],
           warnings := if s.failing then s.warnings else s.warnings + [Failing])
      else s
    case ArriveLate(k) =>
      if k < |s.limbo| then s.(log := s.log + [s.limbo[k]], limbo := Without(s.limbo, k)) else s
  }

  function Init(failing: bool): State {
    State("", false, failing, None, false, "", [], [], [], [])
  }

  // ----- the queue --------------------------------------------------------------------------

  function Head(s: State): int {
    |s.written| - |s.pending|
  }

  /** A batch has been taken and has not arrived. */
  predicate Underway(s: State) {
    s.inflight.Some? && !s.arrived
  }

  predicate BatchOk(b: Batch, written: string) {
    b.lo <= b.hi <= |written| && b.text == Render(b.marked, written[b.lo..b.hi])
  }

  /** The end of the last segment in the sequence. */
  function Reached(batches: seq<Batch>): nat {
    if batches == [] then 0 else batches[|batches| - 1].hi
  }

  /** The received batches are segments of the output in increasing order, and every one that does
      not begin where the previous one ended is marked. */
  predicate Conserved(received: seq<Batch>, written: string) {
    && (forall b | b in received :: BatchOk(b, written))
    && (forall i | 0 <= i < |received| ::
          && Reached(received[..i]) <= received[i].lo
          && (Reached(received[..i]) < received[i].lo ==> received[i].marked))
  }

  /** The queue is the unsent tail of the output, and whatever is missing between it and what went
      before is flagged. */
  predicate QueueOk(s: State, max: Pos) {
    && |s.pending| <= max && |s.pending| <= |s.written|
    && s.pending == s.written[Head(s)..]
    && if Underway(s) then
         var b := s.inflight.value;
         && BatchOk(b, s.written) && b.hi <= Head(s) && (b.hi < Head(s) ==> s.dropped)
         && Reached(s.received) <= b.lo && (Reached(s.received) < b.lo ==> b.marked)
       else
         Reached(s.received) <= Head(s) && (Reached(s.received) < Head(s) ==> s.dropped)
  }

  // ----- every byte at most once ------------------------------------------------------------

  predicate Disjoint(a: Batch, b: Batch) {
    a.hi <= b.lo || b.hi <= a.lo
  }

  predicate PairwiseDisjoint(batches: seq<Batch>) {
    forall i, j | 0 <= i < j < |batches| :: Disjoint(batches[i], batches[j])
  }

  predicate Apart(a: seq<Batch>, b: seq<Batch>) {
    forall i, j | 0 <= i < |a| && 0 <= j < |b| :: Disjoint(a[i], b[j])
  }

  predicate Behind(batches: seq<Batch>, written: string, first: int) {
    forall b | b in batches :: BatchOk(b, written) && b.hi <= first
  }

  /** No two batches that arrived, or may still arrive, share a byte, and nothing behind the queue's
      head is among them. */
  predicate AtMostOnce(s: State) {
    && PairwiseDisjoint(s.log) && PairwiseDisjoint(s.limbo) && Apart(s.log, s.limbo)
    && var first := if Underway(s) then s.inflight.value.lo else Head(s);
       Behind(s.log, s.written, first) && Behind(s.limbo, s.written, first)
  }

  // ----- no marker, no loss -----------------------------------------------------------------

  predicate Unmarked(batches: seq<Batch>) {
    forall b | b in batches :: !b.marked
  }

  predicate AllMarked(batches: seq<Batch>) {
    forall b | b in batches :: b.marked
  }

  /** Each batch begins where the previous one ended. */
  predicate Consecutive(batches: seq<Batch>) {
    forall i | 0 <= i < |batches| :: batches[i].lo == Reached(batches[..i])
  }

  /** As long as no marker has arrived, the arrived batches are a gapless beginning of the output,
      at most one more unmarked batch can still arrive, and it comes next. */
  predicate GaplessSoFar(s: State) {
    Unmarked(s.log) ==>
      && Consecutive(s.log)
      && (forall i | 0 <= i < |s.limbo| :: s.limbo[i].marked || s.limbo[i].lo == Reached(s.log))
      && (forall i, j | 0 <= i < j < |s.limbo| :: s.limbo[i].marked || s.limbo[j].marked)
      && if Underway(s) then
           s.inflight.value.marked || (s.inflight.value.lo == Reached(s.log) && AllMarked(s.limbo))
         else
           s.dropped || (Head(s) == Reached(s.log) && AllMarked(s.limbo))
  }

  /** Warnings alternate, beginning with Failing unless the caller had already reported a failure,
      and the last one tells the present state. */
  predicate WarningsOk(warnings: seq<Warning>, before: bool, now: bool) {
    && (forall i | 0 <= i < |warnings| ::
          warnings[i] == if before == (i % 2 == 0) then Resumed else Failing)
    && now == if |warnings| % 2 == 0 then before else !before
  }

  ghost predicate Invariant(s: State, failing: bool, max: Pos) {
    && QueueOk(s, max)
    && Conserved(s.received, s.written)
    && AtMostOnce(s)
    && GaplessSoFar(s)
    && WarningsOk(s.warnings, failing, s.failing)
  }

  // ----- Write ------------------------------------------------------------------------------

  /** Write keeps the queue the last bytes of the output, as many as fit, and flags what it drops. */
  lemma QueuedIsTail(pending: string, dropped: bool, p: string, written: string, max: Pos)
    requires |pending| <= max && |pending| <= |written|
    requires pending == written[|written| - |pending|..]
    ensures var (q, d) := Queued(pending, dropped, p, max);
            && |q| == Min(max, |pending| + |p|)
            && q == (written + p)[|written + p| - |q|..]
            && (d <==> dropped || |q| < |pending| + |p| || |p| == max)
  {
    var w := written + p;
    assert pending + p == w[|written| - |pending|..];
    if |p| >= max {
      assert p[|p| - max..] == w[|w| - max..];
    } else if |pending| + |p| > max {
      assert pending[|pending| + |p| - max..] + p == w[|w| - max..];
    }
  }

  /** A Write raises the flag without dropping anything in one case only: exactly max bytes into an
      empty queue. */
  lemma FlagWithoutLoss(pending: string, p: string, max: Pos)
    requires |pending| <= max
    ensures var (q, d) := Queued(pending, false, p, max);
            d && q == pending + p <==> |p| == max && pending == ""
  {
    if |p| >= max && pending == "" {
      assert p[|p| - max..] == pending + p <==> |p| == max;
    }
  }

  lemma BatchStaysOk(b: Batch, written: string, p: string)
    requires BatchOk(b, written)
    ensures BatchOk(b, written + p)
  {
    assert (written + p)[b.lo..b.hi] == written[b.lo..b.hi];
  }

  lemma WriteKeepsBatches(batches: seq<Batch>, written: string, p: string)
    requires forall b | b in batches :: BatchOk(b, written)
    ensures forall b | b in batches :: BatchOk(b, written + p)
  {
    hide BatchOk;
    forall b | b in batches {
      BatchStaysOk(b, written, p);
    }
  }

  /** The queue's head only moves forward, and without raising the flag not at all. */
  lemma WriteMovesHead(s: State, p: string, max: Pos)
    requires QueueOk(s, max)
    ensures var s' := Step(s, Write(p), max);
            && |s'.pending| <= max && |s'.pending| <= |s'.written|
            && s'.pending == s'.written[Head(s')..]
            && Head(s) <= Head(s') && (!s'.dropped ==> !s.dropped && Head(s') == Head(s))
  {
    hide BatchOk, Reached, Queued;
    QueuedIsTail(s.pending, s.dropped, p, s.written, max);
  }

  lemma WriteKeepsQueue(s: State, p: string, max: Pos)
    requires QueueOk(s, max)
    ensures QueueOk(Step(s, Write(p), max), max)
  {
    hide BatchOk, Reached, Queued, Head;
    WriteMovesHead(s, p, max);
    if Underway(s) {
      BatchStaysOk(s.inflight.value, s.written, p);
    }
  }

  lemma WriteKeepsAtMostOnce(s: State, p: string, max: Pos)
    requires QueueOk(s, max) && AtMostOnce(s)
    ensures AtMostOnce(Step(s, Write(p), max))
  {
    WriteMovesHead(s, p, max);
    WriteKeepsBatches(s.log, s.written, p);
    WriteKeepsBatches(s.limbo, s.written, p);
    hide BatchOk, Queued, Head, QueueOk, Disjoint;
  }

  lemma WriteKeepsGapless(s: State, p: string, max: Pos)
    requires QueueOk(s, max) && GaplessSoFar(s)
    ensures GaplessSoFar(Step(s, Write(p), max))
  {
    WriteMovesHead(s, p, max);
    hide Reached, Queued, Head, QueueOk, AllMarked, Unmarked, Consecutive;
  }

  lemma WriteKeepsInvariant(s: State, p: string, failing: bool, max: Pos)
    requires Invariant(s, failing, max)
    ensures Invariant(Step(s, Write(p), max), failing, max)
  {
    WriteKeepsQueue(s, p, max);
    WriteKeepsBatches(s.received, s.written, p);
    WriteKeepsAtMostOnce(s, p, max);
    WriteKeepsGapless(s, p, max);
    hide QueueOk, AtMostOnce, GaplessSoFar, BatchOk, Reached, Queued, WarningsOk;
  }

  // ----- Take -------------------------------------------------------------------------------

  lemma NextBatchOk(s: State, max: Pos)
    requires QueueOk(s, max)
    ensures BatchOk(NextBatch(s), s.written)
  {
    assert s.written[Head(s)..|s.written|] == s.pending;
  }

  lemma TakeKeepsInvariant(s: State, failing: bool, max: Pos)
    requires Invariant(s, failing, max)
    ensures Invariant(Step(s, Take, max), failing, max)
  {
    hide BatchOk, Reached, Disjoint, AllMarked, Unmarked, Consecutive, WarningsOk;
    NextBatchOk(s, max);
  }

  // ----- arrivals ---------------------------------------------------------------------------

  lemma ReceiveKeepsConserved(received: seq<Batch>, b: Batch, written: string)
    requires Conserved(received, written) && BatchOk(b, written)
    requires Reached(received) <= b.lo && (Reached(received) < b.lo ==> b.marked)
    ensures Conserved(received + [b], written)
  {
    hide BatchOk;
    var all := received + [b];
    forall i | 0 <= i < |all|
      ensures Reached(all[..i]) <= all[i].lo && (Reached(all[..i]) < all[i].lo ==> all[i].marked)
    {
      if i < |received| {
        assert all[..i] == received[..i];
      } else {
        assert all[..i] == received;
      }
    }
  }

  lemma ReachedSnoc(batches: seq<Batch>, b: Batch)
    ensures Reached(batches + [b]) == b.hi
    ensures Unmarked(batches + [b]) <==> Unmarked(batches) && !b.marked
    ensures AllMarked(batches + [b]) <==> AllMarked(batches) && b.marked
    ensures Consecutive(batches) && b.lo == Reached(batches) ==> Consecutive(batches + [b])
  {
    var all := batches + [b];
    forall i | 0 <= i < |all|
      ensures all[..i] == if i < |batches| then batches[..i] else batches
    {
    }
    assert b in all && forall x | x in batches :: x in all;
  }

  lemma ArriveKeepsAtMostOnce(s: State, max: Pos)
    requires QueueOk(s, max) && AtMostOnce(s)
    ensures AtMostOnce(Step(s, Arrive, max))
  {
    hide Render, Conserved;
  }

  lemma ArriveKeepsInvariant(s: State, failing: bool, max: Pos)
    requires Invariant(s, failing, max)
    ensures Invariant(Step(s, Arrive, max), failing, max)
  {
    hide AtMostOnce, Conserved, BatchOk, Reached, Unmarked, Consecutive, WarningsOk;
    ArriveKeepsAtMostOnce(s, max);
    if Underway(s) {
      var b := s.inflight.value;
      ReceiveKeepsConserved(s.received, b, s.written);
      ReachedSnoc(s.received, b);
      ReachedSnoc(s.log, b);
    }
  }

  /** Moving a batch from limbo to the log keeps everything apart. */
  lemma MovedBatch(log: seq<Batch>, limbo: seq<Batch>, k: nat)
    requires k < |limbo| && PairwiseDisjoint(log) && PairwiseDisjoint(limbo) && Apart(log, limbo)
    ensures var log', limbo' := log + [limbo[k]], Without(limbo, k);
            PairwiseDisjoint(log') && PairwiseDisjoint(limbo') && Apart(log', limbo')
  {
    var limbo' := Without(limbo, k);
    forall i | 0 <= i < |limbo'|
      ensures limbo'[i] == limbo[if i < k then i else i + 1]
    {
    }
  }

  lemma LateKeepsAtMostOnce(s: State, k: nat, max: Pos)
    requires QueueOk(s, max) && AtMostOnce(s)
    ensures AtMostOnce(Step(s, ArriveLate(k), max))
  {
    if k < |s.limbo| {
      MovedBatch(s.log, s.limbo, k);
      var first := if Underway(s) then s.inflight.value.lo else Head(s);
      MovedBehind(s.log, s.limbo, k, s.written, first);
      hide BatchOk, Disjoint, Without, Reached, Render;
    }
  }

  lemma MovedBehind(log: seq<Batch>, limbo: seq<Batch>, k: nat, written: string, first: int)
    requires k < |limbo| && Behind(log, written, first) && Behind(limbo, written, first)
    ensures Behind(log + [limbo[k]], written, first) && Behind(Without(limbo, k), written, first)
  {
    hide BatchOk;
  }

  lemma LateKeepsGapless(s: State, k: nat, max: Pos)
    requires QueueOk(s, max) && GaplessSoFar(s)
    ensures GaplessSoFar(Step(s, ArriveLate(k), max))
  {
    hide BatchOk, Conserved, Reached, Consecutive;
    if k < |s.limbo| {
      ReachedSnoc(s.log, s.limbo[k]);
    }
  }

  // ----- outcomes ---------------------------------------------------------------------------

  lemma FailKeepsAtMostOnce(s: State, max: Pos)
    requires QueueOk(s, max) && AtMostOnce(s)
    ensures AtMostOnce(Step(s, Fail, max))
  {
    hide Render, Conserved;
  }

  lemma FailKeepsGapless(s: State, max: Pos)
    requires QueueOk(s, max) && GaplessSoFar(s)
    ensures GaplessSoFar(Step(s, Fail, max))
  {
    hide BatchOk, Conserved, Reached, Consecutive, Unmarked;
  }

  /** One message at each change between failing and working. */
  lemma WarningsAlternate(warnings: seq<Warning>, before: bool, now: bool)
    requires WarningsOk(warnings, before, now)
    ensures WarningsOk(warnings + [if now then Resumed else Failing], before, !now)
  {
  }

  lemma SucceedKeepsInvariant(s: State, failing: bool, max: Pos)
    requires Invariant(s, failing, max)
    ensures Invariant(Step(s, Succeed, max), failing, max)
  {
    WarningsAlternate(s.warnings, failing, s.failing);
    SucceedKeepsBatches(s, max);
    hide QueueOk, Conserved, AtMostOnce, GaplessSoFar, WarningsOk;
  }

  lemma SucceedKeepsBatches(s: State, max: Pos)
    requires QueueOk(s, max) && AtMostOnce(s) && GaplessSoFar(s)
    ensures var s' := Step(s, Succeed, max);
            QueueOk(s', max) && AtMostOnce(s') && GaplessSoFar(s')
  {
    hide BatchOk, Reached, Behind, PairwiseDisjoint, Apart, Unmarked, AllMarked, Consecutive;
  }

  lemma FailKeepsQueue(s: State, max: Pos)
    requires QueueOk(s, max)
    ensures QueueOk(Step(s, Fail, max), max)
  {
    hide Render, Reached;
  }

  lemma FailKeepsInvariant(s: State, failing: bool, max: Pos)
    requires Invariant(s, failing, max)
    ensures Invariant(Step(s, Fail, max), failing, max)
  {
    FailKeepsQueue(s, max);
    FailKeepsAtMostOnce(s, max);
    FailKeepsGapless(s, max);
    WarningsAlternate(s.warnings, failing, s.failing);
    hide QueueOk, AtMostOnce, GaplessSoFar, Conserved, WarningsOk;
  }

  lemma LateKeepsQueue(s: State, k: nat, max: Pos)
    requires QueueOk(s, max)
    ensures QueueOk(Step(s, ArriveLate(k), max), max)
  {
    hide BatchOk, Reached;
  }

  lemma LateKeepsInvariant(s: State, k: nat, failing: bool, max: Pos)
    requires Invariant(s, failing, max)
    ensures Invariant(Step(s, ArriveLate(k), max), failing, max)
  {
    LateKeepsQueue(s, k, max);
    LateKeepsAtMostOnce(s, k, max);
    LateKeepsGapless(s, k, max);
    hide QueueOk, AtMostOnce, GaplessSoFar, Conserved, WarningsOk;
  }

  lemma StepKeepsInvariant(s: State, a: Action, failing: bool, max: Pos)
    requires Invariant(s, failing, max)
    ensures Invariant(Step(s, a, max), failing, max)
  {
    hide QueueOk, Conserved, AtMostOnce, GaplessSoFar, WarningsOk, Step;
    match a
    case Write(p) => WriteKeepsInvariant(s, p, failing, max);
    case Take => TakeKeepsInvariant(s, failing, max);
    case Arrive => ArriveKeepsInvariant(s, failing, max);
    case Succeed => SucceedKeepsInvariant(s, failing, max);
    case Fail => FailKeepsInvariant(s, failing, max);
    case ArriveLate(k) => LateKeepsInvariant(s, k, failing, max);
  }

  ghost function Run(actions: seq<Action>, failing: bool, max: Pos): (s: State)
    ensures Invariant(s, failing, max)
  {
    if actions == [] then
      Init(failing)
    else
      var s := Run(actions[..|actions| - 1], failing, max);
      StepKeepsInvariant(s, actions[|actions| - 1], failing, max);
      Step(s, actions[|actions| - 1], max)
  }

  // ----- what the daemon receives -----------------------------------------------------------

  lemma {:induction false} SegmentsIncrease(received: seq<Batch>, written: string, i: nat, j: nat)
    requires Conserved(received, written) && i < j < |received|
    ensures received[i].hi <= received[j].lo
    decreases j
  {
    assert received[j - 1] in received && received[..j][j - 1] == received[j - 1];
    if i < j - 1 {
      SegmentsIncrease(received, written, i, j - 1);
    }
  }

  lemma GapsAreMarked(received: seq<Batch>, written: string, i: nat)
    requires Conserved(received, written) && i < |received|
    ensures i == 0 ==> received[0].lo == 0 || received[0].marked
    ensures i > 0 ==> received[i].lo == received[i - 1].hi || received[i].marked
  {
    hide BatchOk;
    if i > 0 {
      assert received[..i][i - 1] == received[i - 1];
    } else {
      assert received[..0] == [];
    }
  }

  /** Segments of the output in order, each byte at most once; wherever a segment does not follow
      directly on the previous one, or on the beginning of the output, its batch begins with the
      marker. */
  predicate Delivered(received: seq<Batch>, written: string) {
    && (forall i | 0 <= i < |received| ::
          var b := received[i];
          b.lo <= b.hi <= |written| && b.text == Render(b.marked, written[b.lo..b.hi]))
    && (forall i, j | 0 <= i < j < |received| :: received[i].hi <= received[j].lo)
    && (forall i | 1 <= i < |received| :: received[i].lo == received[i - 1].hi || received[i].marked)
    && (received != [] ==> received[0].lo == 0 || received[0].marked)
  }

  lemma ConservedIsDelivered(received: seq<Batch>, written: string)
    requires Conserved(received, written)
    ensures Delivered(received, written)
  {
    forall i, j | 0 <= i < j < |received|
      ensures received[i].hi <= received[j].lo
    {
      SegmentsIncrease(received, written, i, j);
    }
    forall i | 0 <= i < |received|
      ensures BatchOk(received[i], written)
      ensures if i == 0 then received[0].lo == 0 || received[0].marked
              else received[i].lo == received[i - 1].hi || received[i].marked
    {
      hide BatchOk, Reached;
      assert received[i] in received;
      GapsAreMarked(received, written, i);
    }
  }

  /** In every run of writes and sends with whatever outcome, what arrives while its request is
      under way is delivered in the above sense, and the queue is the last part of the output,
      behind everything that arrived. */
  lemma ForwarderConservation(actions: seq<Action>, failing: bool, max: Pos)
    ensures var s := Run(actions, failing, max);
            && Delivered(s.received, s.written)
            && s.pending == s.written[|s.written| - |s.pending|..]
            && Reached(s.received) <= |s.written| - |s.pending|
            && |s.pending| <= max
  {
    var s := Run(actions, failing, max);
    hide Run, Render, WarningsOk, Conserved, AtMostOnce, GaplessSoFar;
    ConservedIsDelivered(s.received, s.written);
  }

  /** Batches of segments of the output, no two of which share a byte. */
  predicate Segments(batches: seq<Batch>, written: string) {
    && (forall i | 0 <= i < |batches| ::
          var b := batches[i];
          b.lo <= b.hi <= |written| && b.text == Render(b.marked, written[b.lo..b.hi]))
    && forall i, j | 0 <= i < j < |batches| :: batches[i].hi <= batches[j].lo || batches[j].hi <= batches[i].lo
  }

  /** Nothing is ever delivered twice, not even when failed requests arrive late. */
  lemma EveryByteAtMostOnce(actions: seq<Action>, failing: bool, max: Pos)
    ensures Segments(Run(actions, failing, max).log, Run(actions, failing, max).written)
  {
    var s := Run(actions, failing, max);
    hide Run, Render, WarningsOk, Conserved, QueueOk, GaplessSoFar;
    forall i | 0 <= i < |s.log|
      ensures BatchOk(s.log[i], s.written)
    {
      assert s.log[i] in s.log;
    }
  }

  /** Without late arrivals the daemon sees the received batches and nothing else. */
  lemma {:induction false} NoLateArrivals(actions: seq<Action>, failing: bool, max: Pos)
    requires forall a | a in actions :: !a.ArriveLate?
    ensures Run(actions, failing, max).log == Run(actions, failing, max).received
  {
    hide Invariant;
    if actions != [] {
      var init, last := actions[..|actions| - 1], actions[|actions| - 1];
      assert last in actions && forall a | a in init :: a in actions;
      NoLateArrivals(init, failing, max);
    }
  }

  // ----- runs -------------------------------------------------------------------------------

  lemma RunSnoc(actions: seq<Action>, a: Action, failing: bool, max: Pos)
    ensures Run(actions + [a], failing, max) == Step(Run(actions, failing, max), a, max)
  {
    hide Invariant, Step;
    assert (actions + [a])[..|actions|] == actions;
  }

  lemma RunOfNothing(failing: bool, max: Pos)
    ensures Run([], failing, max) == Init(failing)
  {
  }

  lemma RunQueueOk(actions: seq<Action>, failing: bool, max: Pos)
    ensures QueueOk(Run(actions, failing, max), max) && AtMostOnce(Run(actions, failing, max))
  {
    hide QueueOk, Conserved, AtMostOnce, GaplessSoFar, WarningsOk;
  }

  function TextsOf(batches: seq<Batch>): seq<string> {
    seq(|batches|, i requires 0 <= i < |batches| => batches[i].text)
  }

  lemma ConsecutiveInit(log: seq<Batch>, written: string)
    requires log != [] && Consecutive(log) && Unmarked(log) && forall b | b in log :: BatchOk(b, written)
    ensures var init, b := log[..|log| - 1], log[|log| - 1];
            && Consecutive(init) && Unmarked(init) && (forall x | x in init :: BatchOk(x, written))
            && b.lo == Reached(init) && b.lo <= b.hi <= |written| && b.text == written[b.lo..b.hi]
            && Reached(log) == b.hi
  {
    var n := |log| - 1;
    var init := log[..n];
    forall i | 0 <= i < n
      ensures init[i].lo == Reached(init[..i])
    {
      assert init[..i] == log[..i];
    }
    assert log[n] in log;
    hide Reached;
  }

  lemma {:induction false} ConsecutiveTexts(log: seq<Batch>, written: string)
    requires Consecutive(log) && Unmarked(log) && forall b | b in log :: BatchOk(b, written)
    ensures Reached(log) <= |written|
    ensures Concat(TextsOf(log)) == written[..Reached(log)]
  {
    if log != [] {
      var n := |log| - 1;
      var init, b := log[..n], log[n];
      ConsecutiveInit(log, written);
      hide Consecutive, Unmarked, BatchOk, Reached;
      ConsecutiveTexts(init, written);
      assert TextsOf(log)[..n] == TextsOf(init);
      assert written[..b.lo] + written[b.lo..b.hi] == written[..b.hi];
    }
  }

  /** A stream in which no marker has arrived is complete and in order: it is the output up to where
      the last batch ended. */
  lemma NoMarkerNoLoss(actions: seq<Action>, failing: bool, max: Pos)
    requires Unmarked(Run(actions, failing, max).log)
    ensures var s := Run(actions, failing, max);
            && Reached(s.log) <= |s.written|
            && Concat(TextsOf(s.log)) == s.written[..Reached(s.log)]
  {
    var s := Run(actions, failing, max);
    hide Run, WarningsOk, Conserved, QueueOk, BatchOk, Disjoint;
    ConsecutiveTexts(s.log, s.written);
  }

  // ----- warnings ---------------------------------------------------------------------------

  /** How the requests of a run ended, in order: true for a failure. */
  ghost function Failures(actions: seq<Action>, failing: bool, max: Pos): seq<bool> {
    if actions == [] then []
    else
      var init, last := actions[..|actions| - 1], actions[|actions| - 1];
      Failures(init, failing, max) + Ended(Run(init, failing, max), last)
  }

  /** Whether the request that the step ends, if it ends one, failed. */
  function Ended(s: State, a: Action): seq<bool> {
    if a.Fail? && s.inflight.Some? then [true]
    else if a.Succeed? && s.inflight.Some? && s.arrived then [false]
    else []
  }

  /** The n-th outcome, the 0-th being what was known before the run. */
  function Outcome(before: bool, failures: seq<bool>, n: nat): bool
    requires n <= |failures|
  {
    if n == 0 then before else failures[n - 1]
  }

  /** The indices, in order, of the outcomes unlike the one before. */
  function Changes(before: bool, failures: seq<bool>): (r: seq<nat>)
    ensures forall i | 0 <= i < |r| :: r[i] < |failures|
    ensures forall i, j | 0 <= i < j < |r| :: r[i] < r[j]
  {
    if failures == [] then []
    else
      var n := |failures| - 1;
      var r := Changes(before, failures[..n]);
      if failures[n] != Outcome(before, failures, n) then r + [n] else r
  }

  lemma {:induction false} ChangesMean(before: bool, failures: seq<bool>, k: nat)
    ensures k in Changes(before, failures) <==>
            k < |failures| && failures[k] != Outcome(before, failures, k)
  {
    if failures != [] {
      ChangesMean(before, failures[..|failures| - 1], k);
    }
  }

  function WarningsFor(before: bool, failures: seq<bool>): seq<Warning> {
    var r := Changes(before, failures);
    seq(|r|, i requires 0 <= i < |r| => if failures[r[i]] then Failing else Resumed)
  }

  lemma WarningsForNext(before: bool, failures: seq<bool>, failed: bool)
    ensures WarningsFor(before, failures + [failed]) ==
              if failed == Outcome(before, failures, |failures|) then WarningsFor(before, failures)
              else WarningsFor(before, failures) + [if failed then Failing else Resumed]
  {
    assert (failures + [failed])[..|failures|] == failures;
  }

  lemma WarningsStep(s: State, a: Action, before: bool, failures: seq<bool>, max: Pos)
    requires |s.pending| <= max && |s.pending| <= |s.written|
    requires s.warnings == WarningsFor(before, failures)
    requires s.failing == Outcome(before, failures, |failures|)
    ensures var s', failures' := Step(s, a, max), failures + Ended(s, a);
            && s'.warnings == WarningsFor(before, failures')
            && s'.failing == Outcome(before, failures', |failures'|)
  {
    hide WarningsFor, Queued;
    WarningsForNext(before, failures, true);
    WarningsForNext(before, failures, false);
    assert failures + [] == failures;
  }

  lemma {:induction false} WarningsOfRun(actions: seq<Action>, failing: bool, max: Pos)
    ensures var s, failures := Run(actions, failing, max), Failures(actions, failing, max);
            && s.warnings == WarningsFor(failing, failures)
            && s.failing == Outcome(failing, failures, |failures|)
  {
    hide WarningsFor, Invariant, Ended, Step, Outcome;
    if actions == [] {
      NoWarnings(failing);
    } else {
      var init, last := actions[..|actions| - 1], actions[|actions| - 1];
      WarningsOfRun(init, failing, max);
      RunQueueOk(init, failing, max);
      PendingIsTail(Run(init, failing, max), max);
      WarningsStep(Run(init, failing, max), last, failing, Failures(init, failing, max), max);
    }
  }

  lemma NoWarnings(before: bool)
    ensures WarningsFor(before, []) == [] && Outcome(before, [], 0) == before
  {
  }

  /** There is one warning for each request that ends unlike the one before it, in that order and of
      that kind. */
  ghost predicate TellChanges(warnings: seq<Warning>, before: bool, failures: seq<bool>) {
    var at := Changes(before, failures);
    && |warnings| == |at|
    && (forall i | 0 <= i < |at| :: warnings[i] == if failures[at[i]] then Failing else Resumed)
    && (forall i, j | 0 <= i < j < |at| :: at[i] < at[j])
    && forall k: nat | k < |failures| :: k in at <==> failures[k] != Outcome(before, failures, k)
  }

  /** In every run the warnings tell the changes between failing and working, and so alternate. */
  lemma WarningsTellChanges(actions: seq<Action>, failing: bool, max: Pos)
    ensures TellChanges(Run(actions, failing, max).warnings, failing, Failures(actions, failing, max))
    ensures WarningsOk(Run(actions, failing, max).warnings, failing, Run(actions, failing, max).failing)
  {
    hide Run, Failures, WarningsOk;
    var failures := Failures(actions, failing, max);
    WarningsOfRun(actions, failing, max);
    RunWarningsOk(actions, failing, max);
    forall k: nat | k < |failures| {
      ChangesMean(failing, failures, k);
    }
    hide Outcome;
  }

  lemma RunWarningsOk(actions: seq<Action>, failing: bool, max: Pos)
    ensures WarningsOk(Run(actions, failing, max).warnings, failing, Run(actions, failing, max).failing)
  {
    hide QueueOk, Conserved, AtMostOnce, GaplessSoFar, WarningsOk;
  }

  // ----- the last send ----------------------------------------------------------------------

  /** The state after some Writes. */
  function WriteAll(s: State, texts: seq<string>, max: Pos): (s': State)
    requires |s.pending| <= max && |s.pending| <= |s.written|
    ensures |s'.pending| <= max && |s'.pending| <= |s'.written|
  {
    if texts == [] then s
    else Step(WriteAll(s, texts[..|texts| - 1], max), Write(texts[|texts| - 1]), max)
  }

  /** s' is s after late has been written to it. */
  predicate Later(s: State, s': State, late: string, max: Pos) {
    && s' == s.(pending := s'.pending, dropped := s'.dropped, written := s.written + late)
    && |s'.pending| == Min(max, |s.pending| + |late|)
    && (s'.dropped ==> s.dropped || |s.pending| + |late| >= max)
  }

  lemma WriteIsLater(s: State, s1: State, late: string, p: string, max: Pos)
    requires QueueOk(s1, max) && Later(s, s1, late, max)
    ensures Later(s, Step(s1, Write(p), max), late + p, max)
  {
    PendingIsTail(s1, max);
    QueuedIsTail(s1.pending, s1.dropped, p, s1.written, max);
    AddedInTurn(s.written, late, p);
    hide QueueOk, Queued;
  }

  lemma AddedInTurn(a: string, b: string, c: string)
    ensures a + b + c == a + (b + c) && |b + c| == |b| + |c|
  {
  }

  lemma {:induction false} WriteAllQueues(s: State, texts: seq<string>, max: Pos)
    requires QueueOk(s, max)
    ensures QueueOk(WriteAll(s, texts, max), max)
    ensures Later(s, WriteAll(s, texts, max), Concat(texts), max)
  {
    PendingIsTail(s, max);
    hide QueueOk, Step;
    if texts == [] {
      assert s.written + "" == s.written;
    } else {
      hide Later;
      var init, last := texts[..|texts| - 1], texts[|texts| - 1];
      WriteAllQueues(s, init, max);
      WriteKeepsQueue(WriteAll(s, init, max), last, max);
      WriteIsLater(s, WriteAll(s, init, max), Concat(init), last, max);
    }
  }

  lemma PendingIsTail(s: State, max: Pos)
    requires QueueOk(s, max)
    ensures |s.pending| <= max && |s.pending| <= |s.written|
    ensures s.pending == s.written[|s.written| - |s.pending|..]
  {
  }

  /** The last act of Close: with no request under way, a successful send leaves only what is written
      while it lasts, and all of that unless it fills the queue. */
  lemma FinalSendDrains(s: State, before: seq<string>, after: seq<string>, max: Pos)
    requires QueueOk(s, max) && s.inflight.None?
    requires s.pending != "" || s.dropped
    ensures Drained(s, LastSend(s, before, after, max), Concat(before) + Concat(after), max)
  {
    PendingIsTail(s, max);
    hide QueueOk, Concat, WriteAll, Reached, Later, Step, Drained;
    var s0 := Step(s, Take, max);
    TakeKeepsQueue(s, max);
    WriteAllQueues(s0, before, max);
    var s1 := WriteAll(s0, before, max);
    ArriveKeepsQueue(s1, max);
    var s1' := Step(s1, Arrive, max);
    WriteAllQueues(s1', after, max);
    SendEnds(s, s1, Concat(before), WriteAll(s1', after, max), Concat(after), max);
  }

  /** A successful send, with writes before and after the request arrives. */
  function LastSend(s: State, before: seq<string>, after: seq<string>, max: Pos): State
    requires |s.pending| <= max && |s.pending| <= |s.written|
  {
    var s1 := WriteAll(Step(s, Take, max), before, max);
    Step(WriteAll(Step(s1, Arrive, max), after, max), Succeed, max)
  }

  /** Everything written up to s has arrived, and what was written since is queued, unless it fills
      the queue. */
  predicate Drained(s: State, s': State, late: string, max: Pos) {
    && s'.inflight.None?
    && s'.written == s.written + late && Reached(s'.received) == |s.written|
    && |s'.pending| == Min(max, |late|) && (s'.dropped ==> |late| >= max)
  }

  lemma TakenAndArrived(s: State, s1: State, late: string, max: Pos)
    requires QueueOk(s, max) && s.inflight.None? && (s.pending != "" || s.dropped)
    requires Later(Step(s, Take, max), s1, late, max)
    requires |s1.pending| <= |s1.written|
    ensures var s1' := Step(s1, Arrive, max);
            && s1'.inflight.Some? && s1'.arrived && Reached(s1'.received) == |s.written|
            && s1'.written == s.written + late
            && |s1'.pending| == Min(max, |late|) && (s1'.dropped ==> |late| >= max)
  {
    hide BatchOk, Reached, Render;
    ReachedSnoc(s1.received, NextBatch(s));
  }

  lemma SendEnds(s: State, s1: State, b: string, s2: State, c: string, max: Pos)
    requires QueueOk(s, max) && s.inflight.None? && (s.pending != "" || s.dropped)
    requires |s1.pending| <= max && |s1.pending| <= |s1.written| && |s2.pending| <= |s2.written|
    requires Later(Step(s, Take, max), s1, b, max) && Later(Step(s1, Arrive, max), s2, c, max)
    ensures |s2.pending| <= max && Drained(s, Step(s2, Succeed, max), b + c, max)
  {
    TakenAndArrived(s, s1, b, max);
    AddedInTurn(s.written, b, c);
    hide QueueOk, Reached;
  }

  lemma TakeKeepsQueue(s: State, max: Pos)
    requires QueueOk(s, max)
    ensures QueueOk(Step(s, Take, max), max)
  {
    hide BatchOk, Reached;
    NextBatchOk(s, max);
  }

  lemma ArriveKeepsQueue(s: State, max: Pos)
    requires QueueOk(s, max)
    ensures QueueOk(Step(s, Arrive, max), max)
  {
    hide BatchOk;
  }

  /** Order can fail: a request that timed out may be carried out behind its successor. */
  lemma LateArrivalReorders(s: State, b: string, max: Pos)
    requires QueueOk(s, max) && s.inflight.None? && s.limbo == []
    requires 0 < |s.pending| && 0 < |b| < max
    ensures var s1 := Step(Step(Step(s, Take, max), Fail, max), Write(b), max);
            var s2 := Step(Step(Step(s1, Take, max), Arrive, max), ArriveLate(0), max);
            var first, second := NextBatch(s), NextBatch(s1);
            && first.lo < first.hi <= second.lo < second.hi
            && s2.log == s.log + [second] + [first]
  {
    var s1 := Step(Step(Step(s, Take, max), Fail, max), Write(b), max);
    assert s1.pending == b && s1.limbo == [NextBatch(s)];
  }

  // ----- the forwarder ----------------------------------------------------------------------

  class LogForwarder {
    const max: Pos
    var pending: string
    var dropped: bool
    var failing: bool

    /** The fields are those of s. */
    ghost predicate Shows(s: State)
      reads this
    {
      && pending == s.pending && dropped == s.dropped && failing == s.failing
      && |pending| <= max && |pending| <= |s.written|
    }

    constructor (max: Pos, failing: bool)
      ensures this.max == max && Shows(Init(failing))
    {
      this.max := max;
      this.failing := failing;
      pending, dropped := "", false;
    }

    method Write(p: string, ghost s: State) returns (n: nat)
      requires Shows(s)
      modifies this`pending, this`dropped
      ensures Shows(Step(s, Action.Write(p), max)) && n == |p|
    {
      n := |p|;
      if |p| >= max {
        pending := p[|p| - max..];
        dropped := true;
      } else {
        if |pending| + |p| > max {
          pending := pending[|pending| + |p| - max..];
          dropped := true;
        }
        pending := pending + p;
      }
    }

    /** The first critical section of send: the text of the request, if there is anything to send. */
    method TakeBatch(ghost s: State) returns (text: Option<string>)
      requires Shows(s) && s.inflight.None?
      modifies this`pending, this`dropped
      ensures Shows(Step(s, Take, max))
      ensures match Step(s, Take, max).inflight
              case None => text == None
              case Some(b) => text == Some(b.text)
      ensures old(dropped) ==>
                text == Some("\n" + "[localapp: output omitted while log forwarding was behind]" + "\n" + old(pending))
      ensures !old(dropped) ==> text == if old(pending) == "" then None else Some(old(pending))
    {
      if |pending| == 0 && !dropped {
        return None;
      }
      var t := pending;
      if dropped {
        t := MARKER + t;
      }
      pending := "";
      dropped := false;
      return Some(t);
    }

    /** What send does when the request returns. */
    method Returned(ok: bool, ghost s: State) returns (warning: Option<Warning>)
      requires Shows(s) && s.inflight.Some? && (ok ==> s.arrived)
      modifies this`dropped, this`failing
      ensures var s' := Step(s, if ok then Succeed else Fail, max);
              && Shows(s')
              && s'.warnings == s.warnings + if warning.Some? then [warning.value] else []
    {
      warning := None;
      if !ok {
        dropped := true;
        if !failing {
          warning := Some(Failing);
        }
        failing := true;
        return;
      }
      if failing {
        warning := Some(Resumed);
      }
      failing := false;
    }
  }
}
