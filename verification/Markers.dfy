/** What the omitted-output marker of the forwarder (cmd/localapp/log_forward.go) tells: whether
    something the marker or the dropped flag stands for is really missing at the daemon, requests
    that are carried out late included. */
module Markers {
  import opened Lines
  import opened Retention
  import opened Forwarder
  import opened Wrappers

  predicate In(x: int, b: Batch) {
    b.lo <= x < b.hi
  }

  predicate Absent(batches: seq<Batch>, x: int) {
    forall b | b in batches :: !In(x, b)
  }

  /** A byte of the output before n is in none of the batches; if near, the very byte before n. */
  ghost predicate Lost(batches: seq<Batch>, n: int, near: bool) {
    exists x :: 0 <= x < n && (near ==> x == n - 1) && Absent(batches, x)
  }

  /** What the daemon has or is being sent. */
  function Known(s: State): seq<Batch> {
    s.log + if Underway(s) then [s.inflight.value] else []
  }

  /** The places of which a marked batch under way, or one that may still arrive late, says that output
      before them is missing. */
  function SendClaims(s: State): set<int> {
    (if Underway(s) && s.inflight.value.marked then {s.inflight.value.lo} else {}) + LateClaims(s.limbo)
  }

  function LateClaims(limbo: seq<Batch>): set<int> {
    set b | b in limbo && b.marked :: b.lo
  }

  /** And of the queue, if the flag is up. */
  function Claims(s: State): set<int> {
    (if s.dropped then {Head(s)} else {}) + SendClaims(s)
  }

  /** Every marker that has arrived told the truth when it did. */
  ghost predicate TrueMarkers(log: seq<Batch>, near: bool) {
    forall i | 0 <= i < |log| :: log[i].marked ==> Lost(log[..i], log[i].lo, near)
  }

  /** Flag and markers tell of a loss. */
  ghost predicate Honest(s: State, near: bool) {
    (s.dropped ==> Lost(Known(s), Head(s), near)) && HonestMarkers(s, near)
  }

  ghost predicate HonestMarkers(s: State, near: bool) {
    && (forall n | n in SendClaims(s) :: Lost(Known(s), n, near))
    && TrueMarkers(s.log, near)
    && (Underway(s) ==> s.inflight.value.marked || s.inflight.value.lo < s.inflight.value.hi)
  }

  /** The three ways to tell of a loss that is none: a Write of exactly the queue's size into an empty
      queue, or a request that failed after it had arrived, when nothing is missing before the queue;
      and a late arrival of all that was missing before something that says so. */
  ghost predicate NeedlessFlag(s: State, a: Action, max: Pos, near: bool) {
    match a
    case Write(p) => |p| == max && s.pending == "" && !Lost(Known(s), Head(s), near)
    case Fail => s.inflight.Some? && s.arrived && !Lost(Known(s), Head(s), near)
    case ArriveLate(k) =>
      k < |s.limbo| && exists n | n in Claims(s) :: !Lost(Known(s) + [s.limbo[k]], n, near)
    case _ => false
  }

  // ----- what is known of a loss ------------------------------------------------------------

  /** Fewer batches, as far as the bytes before n are concerned. */
  lemma LostIn(batches: seq<Batch>, fewer: seq<Batch>, n: int, near: bool)
    requires Lost(batches, n, near)
    requires forall b | b in fewer && b.lo < n :: b in batches
    ensures Lost(fewer, n, near)
  {
    var x :| 0 <= x < n && (near ==> x == n - 1) && Absent(batches, x);
    assert Absent(fewer, x);
  }

  lemma LostJustBefore(batches: seq<Batch>, n: int, near: bool)
    requires n > 0 && Absent(batches, n - 1)
    ensures Lost(batches, n, near)
  {
  }

  lemma TrueMarkersSnoc(log: seq<Batch>, b: Batch, near: bool)
    requires TrueMarkers(log, near) && (b.marked ==> Lost(log, b.lo, near))
    ensures TrueMarkers(log + [b], near)
  {
    hide Lost;
    forall i | 0 <= i <= |log|
      ensures (log + [b])[..i] == log[..i]
    {
    }
  }

  // ----- steps ------------------------------------------------------------------------------

  /** What the steps need of the forwarder's invariant. */
  predicate Orderly(s: State, max: Pos) {
    QueueOk(s, max) && AtMostOnce(s)
  }

  /** Everything that arrived, or may arrive late, lies before the batch under way and the queue. */
  lemma KnownBefore(s: State, max: Pos)
    requires Orderly(s, max)
    ensures 0 <= Head(s) <= |s.written|
    ensures forall b | b in Known(s) + s.limbo :: b.lo <= b.hi <= Head(s)
    ensures Underway(s) ==> forall b | b in s.log + s.limbo :: b.hi <= s.inflight.value.lo
    ensures Underway(s) && !s.dropped ==> s.inflight.value.hi == Head(s)
  {
    hide Reached, Render, Disjoint;
  }

  lemma OrderlyBounds(s: State, max: Pos)
    requires Orderly(s, max)
    ensures |s.pending| <= max && |s.pending| <= |s.written|
  {
    hide AtMostOnce;
  }

  /** What a Write does to the queue's head and the flag; it does nothing else. */
  lemma WriteShape(s: State, p: string, max: Pos)
    requires Orderly(s, max)
    ensures var s' := Step(s, Write(p), max);
            && s'.log == s.log && s'.limbo == s.limbo && s'.inflight == s.inflight && s'.arrived == s.arrived
            && Head(s) <= Head(s')
            && (s'.dropped <==> s.dropped || Head(s) < Head(s') || (|p| == max && s.pending == ""))
  {
    OrderlyBounds(s, max);
    WriteMovesHead(s, p, max);
    QueuedIsTail(s.pending, s.dropped, p, s.written, max);
    hide QueueOk, AtMostOnce, Queued;
  }

  lemma SameMarkers(s: State, s': State, near: bool)
    requires s'.log == s.log && s'.limbo == s.limbo && (Underway(s') <==> Underway(s))
    requires Underway(s) ==> s'.inflight == s.inflight
    ensures Known(s') == Known(s) && (HonestMarkers(s', near) <==> HonestMarkers(s, near))
  {
    hide Lost, LateClaims;
    assert Known(s') == Known(s);
  }

  lemma WriteHonest(s: State, p: string, max: Pos, near: bool)
    requires Orderly(s, max) && Honest(s, near)
    ensures Honest(Step(s, Write(p), max), near) <==> !NeedlessFlag(s, Write(p), max, near)
  {
    OrderlyBounds(s, max);
    WriteShape(s, p, max);
    var s' := Step(s, Write(p), max);
    hide Orderly, HonestMarkers, Lost, Known, Step, Head;
    SameMarkers(s, s', near);
    if Head(s') > Head(s) { DroppedIsLost(s, Head(s'), max, near); }
  }

  lemma DroppedIsLost(s: State, n: int, max: Pos, near: bool)
    requires Orderly(s, max) && Head(s) < n
    ensures Lost(Known(s), n, near)
  {
    KnownBefore(s, max);
    hide Orderly, Known, Lost;
    assert Absent(Known(s), n - 1);
    LostJustBefore(Known(s), n, near);
  }

  lemma TakeHonest(s: State, max: Pos, near: bool)
    requires Orderly(s, max) && Honest(s, near)
    ensures Honest(Step(s, Take, max), near)
  {
    KnownBefore(s, max);
    var s' := Step(s, Take, max);
    hide Orderly, QueueOk, AtMostOnce, Lost, Render;
    if s.inflight.None? && (s.pending != "" || s.dropped) {
      forall n | n in SendClaims(s')
        ensures Lost(Known(s'), n, near)
      {
        assert n in Claims(s) && n <= Head(s);
        LostIn(Known(s), Known(s'), n, near);
      }
    }
  }

  lemma ArriveHonest(s: State, max: Pos, near: bool)
    requires Orderly(s, max) && Honest(s, near)
    ensures Honest(Step(s, Arrive, max), near)
  {
    var s' := Step(s, Arrive, max);
    hide Orderly, QueueOk, AtMostOnce, Lost, LateClaims;
    if Underway(s) {
      var b := s.inflight.value;
      assert Known(s') == Known(s);
      if b.marked { LostIn(Known(s), s.log, b.lo, near); }
      TrueMarkersSnoc(s.log, b, near);
    }
  }

  lemma SucceedHonest(s: State, max: Pos, near: bool)
    requires Orderly(s, max) && Honest(s, near)
    ensures Honest(Step(s, Succeed, max), near)
  {
    hide Orderly, QueueOk, AtMostOnce, Lost, LateClaims;
  }

  lemma FailUnderwayHonest(s: State, max: Pos, near: bool)
    requires Orderly(s, max) && Honest(s, near) && Underway(s)
    ensures Honest(Step(s, Fail, max), near)
  {
    KnownBefore(s, max);
    var s', b := Step(s, Fail, max), s.inflight.value;
    hide Orderly, QueueOk, AtMostOnce, Lost;
    forall n | n in Claims(s')
      ensures Lost(Known(s'), n, near)
    {
      if n in Claims(s) {
        LostIn(Known(s), Known(s'), n, near);
      } else {
        assert n == Head(s) == b.hi && b.lo < b.hi;
        LostJustBefore(Known(s'), n, near);
      }
    }
  }

  lemma FailArrivedHonest(s: State, max: Pos, near: bool)
    requires Orderly(s, max) && Honest(s, near) && s.inflight.Some? && s.arrived
    ensures Honest(Step(s, Fail, max), near) <==> !NeedlessFlag(s, Fail, max, near)
  {
    OrderlyBounds(s, max);
    hide Orderly, HonestMarkers, Lost, Known;
    SameMarkers(s, Step(s, Fail, max), near);
  }

  lemma FailHonest(s: State, max: Pos, near: bool)
    requires Orderly(s, max) && Honest(s, near)
    ensures Honest(Step(s, Fail, max), near) <==> !NeedlessFlag(s, Fail, max, near)
  {
    hide Orderly, Honest, Lost;
    if Underway(s) {
      FailUnderwayHonest(s, max, near);
    } else if s.inflight.Some? {
      FailArrivedHonest(s, max, near);
    }
  }

  lemma WithoutMembers(s: seq<Batch>, k: nat)
    requires k < |s|
    ensures forall x | x in Without(s, k) :: x in s
    ensures forall x | x in s && x != s[k] :: x in Without(s, k)
  {
    forall x | x in s && x != s[k]
      ensures x in Without(s, k)
    {
      var i :| 0 <= i < |s| && s[i] == x;
      assert Without(s, k)[if i < k then i else i - 1] == x;
    }
  }

  /** A late arrival adds to the log and takes from limbo; it does nothing else. */
  lemma LateShape(s: State, k: nat, max: Pos)
    requires Orderly(s, max) && k < |s.limbo|
    ensures var s', b := Step(s, ArriveLate(k), max), s.limbo[k];
            && s' == s.(log := s.log + [b], limbo := Without(s.limbo, k))
            && Head(s') == Head(s)
            && forall x :: x in Known(s') <==> x in Known(s) + [b]
  {
    hide AtMostOnce, BatchOk;
  }

  /** The pending claims after a late arrival are those from before, except its own. */
  lemma LateChangesClaims(s: State, k: nat, max: Pos)
    requires Orderly(s, max) && k < |s.limbo|
    ensures var s', b := Step(s, ArriveLate(k), max), s.limbo[k];
            && Claims(s') <= Claims(s) <= Claims(s') + {b.lo}
            && (b.marked ==> b.lo in Claims(s))
            && (!b.marked ==> Claims(s) == Claims(s'))
            && (forall n :: n in Claims(s') <==> n in SendClaims(s') || (s.dropped && n == Head(s)))
  {
    OrderlyBounds(s, max);
    LateShape(s, k, max);
    WithoutMembers(s.limbo, k);
    hide Orderly, Known, Head, Step, Without;
  }

  lemma LateHonest(s: State, k: nat, max: Pos, near: bool)
    requires Orderly(s, max) && Honest(s, near)
    ensures Honest(Step(s, ArriveLate(k), max), near) <==> !NeedlessFlag(s, ArriveLate(k), max, near)
  {
    OrderlyBounds(s, max);
    var s' := Step(s, ArriveLate(k), max);
    hide Orderly, Lost;
    if k < |s.limbo| {
      var b := s.limbo[k];
      var more := Known(s) + [b];
      LateShape(s, k, max);
      LateChangesClaims(s, k, max);
      hide Claims, Known, Step;
      if b.marked {
        LostIn(Known(s), s.log, b.lo, near) by { LogIsKnown(s); }
        LostIn(Known(s), more, b.lo, near);
      }
      TrueMarkersSnoc(s.log, b, near);
      forall n
        ensures Lost(Known(s'), n, near) <==> Lost(more, n, near)
      {
        if Lost(Known(s'), n, near) { LostIn(Known(s'), more, n, near); }
        if Lost(more, n, near) { LostIn(more, Known(s'), n, near); }
      }
    }
  }

  lemma LogIsKnown(s: State)
    ensures forall b | b in s.log :: b in Known(s)
  {
  }

  /** A step makes flag and markers tell of a loss that is none exactly if it is one of the three. */
  lemma HonestUnlessNeedless(s: State, a: Action, max: Pos, near: bool)
    requires Orderly(s, max) && Honest(s, near)
    ensures Honest(Step(s, a, max), near) <==> !NeedlessFlag(s, a, max, near)
  {
    hide Orderly, Honest, Step;
    match a
    case Write(p) => WriteHonest(s, p, max, near);
    case Take => TakeHonest(s, max, near);
    case Arrive => ArriveHonest(s, max, near);
    case Succeed => SucceedHonest(s, max, near);
    case Fail => FailHonest(s, max, near);
    case ArriveLate(k) => LateHonest(s, k, max, near);
  }

  // ----- runs -------------------------------------------------------------------------------

  /** No step of the run makes flag or markers tell of a loss that is none. */
  ghost predicate NeverNeedless(actions: seq<Action>, failing: bool, max: Pos, near: bool) {
    forall k | 0 <= k < |actions| :: !NeedlessFlag(Run(actions[..k], failing, max), actions[k], max, near)
  }

  ghost predicate HonestThroughout(actions: seq<Action>, failing: bool, max: Pos, near: bool) {
    forall k | 0 <= k <= |actions| :: Honest(Run(actions[..k], failing, max), near)
  }

  lemma RunOrderly(actions: seq<Action>, failing: bool, max: Pos)
    ensures Orderly(Run(actions, failing, max), max)
  {
    hide QueueOk, AtMostOnce;
    RunQueueOk(actions, failing, max);
  }

  lemma InitHonest(failing: bool, near: bool)
    ensures Honest(Init(failing), near)
  {
  }

  lemma NeverNeedlessPrefix(actions: seq<Action>, failing: bool, max: Pos, near: bool, k: nat)
    requires NeverNeedless(actions, failing, max, near) && k <= |actions|
    ensures NeverNeedless(actions[..k], failing, max, near)
  {
    hide NeedlessFlag, Run;
    forall i | 0 <= i < k
      ensures actions[..k][..i] == actions[..i] && actions[..k][i] == actions[i]
    {
    }
  }

  lemma {:induction false} HonestRun(actions: seq<Action>, failing: bool, max: Pos, near: bool)
    requires NeverNeedless(actions, failing, max, near)
    ensures Honest(Run(actions, failing, max), near)
  {
    hide Honest, NeedlessFlag, Invariant, Step, Orderly;
    if actions == [] {
      InitHonest(failing, near);
    } else {
      var n := |actions| - 1;
      NeverNeedlessPrefix(actions, failing, max, near, n);
      HonestRun(actions[..n], failing, max, near);
      RunOrderly(actions[..n], failing, max);
      HonestUnlessNeedless(Run(actions[..n], failing, max), actions[n], max, near);
    }
  }

  lemma NeedlessStep(actions: seq<Action>, failing: bool, max: Pos, near: bool, k: nat)
    requires k < |actions| && Honest(Run(actions[..k], failing, max), near)
    requires NeedlessFlag(Run(actions[..k], failing, max), actions[k], max, near)
    ensures !Honest(Run(actions[..k + 1], failing, max), near)
  {
    hide Honest, NeedlessFlag, Run, Step, Invariant, Orderly;
    RunSnoc(actions[..k], actions[k], failing, max);
    assert actions[..k] + [actions[k]] == actions[..k + 1];
    RunOrderly(actions[..k], failing, max);
    HonestUnlessNeedless(Run(actions[..k], failing, max), actions[k], max, near);
  }

  lemma ANeedlessStep(actions: seq<Action>, failing: bool, max: Pos, near: bool) returns (k: nat)
    requires !NeverNeedless(actions, failing, max, near)
    ensures k < |actions| && NeedlessFlag(Run(actions[..k], failing, max), actions[k], max, near)
  {
    hide NeedlessFlag, Run;
    k :| k < |actions| && NeedlessFlag(Run(actions[..k], failing, max), actions[k], max, near);
  }

  /** Flag and markers tell the truth throughout a run if and only if it has none of the three steps. */
  lemma MarkersTellTheTruth(actions: seq<Action>, failing: bool, max: Pos, near: bool)
    ensures HonestThroughout(actions, failing, max, near) <==> NeverNeedless(actions, failing, max, near)
  {
    hide Honest, NeedlessFlag, Run, Step, Invariant, NeverNeedless;
    if NeverNeedless(actions, failing, max, near) {
      forall k | 0 <= k <= |actions|
        ensures Honest(Run(actions[..k], failing, max), near)
      {
        NeverNeedlessPrefix(actions, failing, max, near, k);
        HonestRun(actions[..k], failing, max, near);
      }
    } else if HonestThroughout(actions, failing, max, near) {
      var k := ANeedlessStep(actions, failing, max, near);
      NeedlessStep(actions, failing, max, near, k);
    }
  }

  // ----- no gap without a marker ------------------------------------------------------------

  /** n is the beginning of the output or the end of one of the batches. */
  predicate Follows(batches: seq<Batch>, n: int) {
    n == 0 || exists b :: b in batches && b.hi == n
  }

  /** Whatever carries no marker, and will carry none, follows on something the daemon has. */
  predicate Continuous(s: State) {
    (s.dropped || Follows(Known(s), Head(s))) && ContinuousBatches(s)
  }

  predicate ContinuousBatches(s: State) {
    && (Underway(s) ==> s.inflight.value.marked || Follows(s.log, s.inflight.value.lo))
    && (forall b | b in s.limbo :: b.marked || Follows(s.log, b.lo))
    && ContinuousLog(s.log)
  }

  predicate ContinuousLog(log: seq<Batch>) {
    forall i | 0 <= i < |log| :: log[i].marked || Follows(log[..i], log[i].lo)
  }

  lemma FollowsMore(batches: seq<Batch>, more: seq<Batch>, n: int)
    requires Follows(batches, n) && forall b | b in batches :: b in more
    ensures Follows(more, n)
  {
  }

  lemma ContinuousSnoc(log: seq<Batch>, b: Batch)
    requires ContinuousLog(log) && (b.marked || Follows(log, b.lo))
    ensures ContinuousLog(log + [b])
  {
    hide Follows;
    forall i | 0 <= i <= |log|
      ensures (log + [b])[..i] == log[..i]
    {
    }
  }

  lemma LimboFollows(limbo: seq<Batch>, log: seq<Batch>, b: Batch)
    requires forall x | x in limbo :: x.marked || Follows(log, x.lo)
    ensures forall x | x in limbo :: x.marked || Follows(log + [b], x.lo)
  {
    hide Follows;
    forall x | x in limbo
      ensures x.marked || Follows(log + [b], x.lo)
    {
      if !x.marked { FollowsMore(log, log + [b], x.lo); }
    }
  }

  lemma WriteContinuous(s: State, p: string, max: Pos)
    requires Orderly(s, max) && Continuous(s)
    ensures Continuous(Step(s, Write(p), max))
  {
    OrderlyBounds(s, max);
    WriteShape(s, p, max);
    SameMarkers(s, Step(s, Write(p), max), false);
    hide Follows, ContinuousLog, Orderly, Step, Head, Known;
  }

  lemma TakeContinuous(s: State, max: Pos)
    requires Orderly(s, max) && Continuous(s)
    ensures Continuous(Step(s, Take, max))
  {
    KnownBefore(s, max);
    hide QueueOk, AtMostOnce, Render;
  }

  lemma ArriveContinuous(s: State, max: Pos)
    requires Orderly(s, max) && Continuous(s)
    ensures Continuous(Step(s, Arrive, max))
  {
    OrderlyBounds(s, max);
    hide Follows, ContinuousLog, Orderly;
    if Underway(s) {
      ContinuousSnoc(s.log, s.inflight.value);
      LimboFollows(s.limbo, s.log, s.inflight.value);
      assert Known(Step(s, Arrive, max)) == Known(s);
    }
  }

  lemma LateContinuous(s: State, k: nat, max: Pos)
    requires Orderly(s, max) && Continuous(s)
    ensures Continuous(Step(s, ArriveLate(k), max))
  {
    OrderlyBounds(s, max);
    hide Follows, ContinuousLog, Orderly, Known, Head, Step, Without;
    if k < |s.limbo| {
      var s', b := Step(s, ArriveLate(k), max), s.limbo[k];
      LateShape(s, k, max);
      WithoutMembers(s.limbo, k);
      ContinuousSnoc(s.log, b);
      LimboFollows(s.limbo, s.log, b);
      if !s.dropped { FollowsMore(Known(s), Known(s'), Head(s)); }
      if Underway(s) && !s.inflight.value.marked {
        FollowsMore(s.log, s.log + [b], s.inflight.value.lo);
      }
    } else {
      NotLate(s, k, max);
    }
  }

  lemma NotLate(s: State, k: nat, max: Pos)
    requires Orderly(s, max) && k >= |s.limbo|
    ensures Step(s, ArriveLate(k), max) == s
  {
  }

  lemma StepContinuous(s: State, a: Action, max: Pos)
    requires Orderly(s, max) && Continuous(s)
    ensures Continuous(Step(s, a, max))
  {
    match a
    case Write(p) => WriteContinuous(s, p, max);
    case Take => TakeContinuous(s, max);
    case Arrive => ArriveContinuous(s, max);
    case Succeed => hide Follows, ContinuousLog, QueueOk, AtMostOnce;
    case Fail => hide Follows, ContinuousLog, QueueOk, AtMostOnce;
    case ArriveLate(k) => LateContinuous(s, k, max);
  }

  lemma {:induction false} ContinuousRun(actions: seq<Action>, failing: bool, max: Pos)
    ensures Continuous(Run(actions, failing, max))
  {
    hide Continuous, Invariant, Step, Orderly;
    if actions == [] {
      InitContinuous(failing);
    } else {
      var init := actions[..|actions| - 1];
      ContinuousRun(init, failing, max);
      RunOrderly(init, failing, max);
      StepContinuous(Run(init, failing, max), actions[|actions| - 1], max);
    }
  }

  lemma InitContinuous(failing: bool)
    ensures Continuous(Init(failing))
  {
  }

  /** In every run, late arrivals included, a batch that arrives without a marker begins where one that
      arrived before it ended, or at the beginning of the output. In a run with none of the three
      steps, a batch that arrives with one stands behind output that is missing; if near, directly. */
  lemma MarkerMeansGap(actions: seq<Action>, failing: bool, max: Pos, near: bool, i: nat)
    requires i < |Run(actions, failing, max).log|
    ensures var log := Run(actions, failing, max).log;
            && (!log[i].marked ==> Follows(log[..i], log[i].lo))
            && (log[i].marked && NeverNeedless(actions, failing, max, near) ==> Lost(log[..i], log[i].lo, near))
  {
    hide Run, Follows, Lost, Known, Claims, NeverNeedless;
    ContinuousRun(actions, failing, max);
    if NeverNeedless(actions, failing, max, near) {
      HonestRun(actions, failing, max, near);
    }
  }

  // ----- the marker in the text -------------------------------------------------------------

  const NOTICE := "[localapp: output omitted while log forwarding was behind]"

  /** The notice stands in text as a line of its own, behind the first n bytes: at a line boundary
      whatever comes before it, and ended by a newline. */
  predicate NoticeBehind(text: string, n: nat) {
    n + 1 + |NOTICE| < |text|
    && Boundary(text, n + 1) && text[n + 1..n + 1 + |NOTICE|] == NOTICE && text[n + 1 + |NOTICE|] == '\n'
  }

  lemma RenderMarked(bytes: string)
    ensures Render(true, bytes) == "\n" + NOTICE + "\n" + bytes
  {
  }

  lemma NoticeText(before: string, bytes: string, after: string)
    ensures NoticeBehind(before + Render(true, bytes) + after, |before|)
  {
    hide Render;
    var text := before + Render(true, bytes) + after;
    RenderMarked(bytes);
    NoticeInPlace(before, NOTICE, bytes + after);
    Regroup(before, NOTICE, bytes, after);
  }

  lemma Regroup(before: string, notice: string, bytes: string, after: string)
    ensures before + ("\n" + notice + "\n" + bytes) + after == before + "\n" + notice + "\n" + (bytes + after)
  {
  }

  lemma NoticeInPlace(before: string, notice: string, rest: string)
    ensures var text, n := before + "\n" + notice + "\n" + rest, |before|;
            && |text| > n + 1 + |notice|
            && text[n] == '\n' && text[n + 1..n + 1 + |notice|] == notice && text[n + 1 + |notice|] == '\n'
  {
  }

  lemma {:induction false} ConcatSplit(chunks: seq<string>, i: nat)
    requires i < |chunks|
    ensures Concat(chunks) == Concat(chunks[..i]) + chunks[i] + Concat(chunks[i + 1..])
  {
    var n := |chunks| - 1;
    if i == n {
      assert chunks[i + 1..] == [];
      assert Concat([]) == "";
    } else {
      ConcatSplit(chunks[..n], i);
      assert chunks[..n][..i] == chunks[..i] && chunks[..n][i + 1..] == chunks[i + 1..][..n - i - 1];
      assert chunks[i + 1..][n - i - 1] == chunks[n];
    }
  }

  /** Where a batch stands in the text of all of them. */
  lemma BatchInText(batches: seq<Batch>, i: nat)
    requires i < |batches|
    ensures Concat(TextsOf(batches)) ==
            Concat(TextsOf(batches[..i])) + batches[i].text + Concat(TextsOf(batches[i + 1..]))
  {
    ConcatSplit(TextsOf(batches), i);
    assert TextsOf(batches)[..i] == TextsOf(batches[..i]);
    assert TextsOf(batches)[i + 1..] == TextsOf(batches[i + 1..]);
  }

  /** In every run, late arrivals included: in the text that has arrived, a batch that does not begin
      where one that arrived before ended (nor at the beginning of the output) has the notice in
      front of its bytes, on a line of its own. */
  lemma GapShowsNotice(actions: seq<Action>, failing: bool, max: Pos, i: nat)
    requires i < |Run(actions, failing, max).log|
    ensures var s := Run(actions, failing, max);
            var before := Concat(TextsOf(s.log[..i]));
            !Follows(s.log[..i], s.log[i].lo) ==> NoticeBehind(Concat(TextsOf(s.log)), |before|)
  {
    hide Run, Follows, Render, NoticeBehind, Concat;
    var s := Run(actions, failing, max);
    MarkerMeansGap(actions, failing, max, false, i);
    EveryByteAtMostOnce(actions, failing, max);
    BatchInText(s.log, i);
    if s.log[i].marked {
      NoticeText(Concat(TextsOf(s.log[..i])), s.written[s.log[i].lo..s.log[i].hi], Concat(TextsOf(s.log[i + 1..])));
    }
  }

  /** So it is for two successive segments that leave a gap. */
  lemma SuccessiveGapShowsNotice(actions: seq<Action>, failing: bool, max: Pos, i: nat)
    requires 0 < i < |Run(actions, failing, max).received|
    requires Run(actions, failing, max).received[i - 1].hi < Run(actions, failing, max).received[i].lo
    ensures var received := Run(actions, failing, max).received;
            NoticeBehind(Concat(TextsOf(received)), |Concat(TextsOf(received[..i]))|)
  {
    hide Run, Render, NoticeBehind, Concat;
    var s := Run(actions, failing, max);
    ForwarderConservation(actions, failing, max);
    BatchInText(s.received, i);
    var b := s.received[i];
    NoticeText(Concat(TextsOf(s.received[..i])), s.written[b.lo..b.hi], Concat(TextsOf(s.received[i + 1..])));
  }

  // ----- markers without loss ---------------------------------------------------------------

  lemma RenderedEmpty(b: string)
    ensures Render(false, b) == b && Render(true, "") == MARKER
  {
    assert MARKER + "" == MARKER;
  }

  /** The reply to a request is lost. */
  lemma LostReplyGivesMarker(b: string, failing: bool, max: Pos)
    requires 0 < |b| < max
    ensures var s := Run([Write(b), Take, Arrive, Fail, Take, Arrive], failing, max);
            && s.written == b
            && s.log == [Batch(false, 0, |b|, b), Batch(true, |b|, |b|, MARKER)]
  {
    hide Run, Invariant;
    RunOfNothing(failing, max);
    var r1 := [Write(b)];
    var r2 := r1 + [Take];
    var r3 := r2 + [Arrive];
    var r4 := r3 + [Fail];
    var r5 := r4 + [Take];
    assert [] + [Write(b)] == r1;
    RunSnoc([], Write(b), failing, max);
    RunSnoc(r1, Take, failing, max);
    RunSnoc(r2, Arrive, failing, max);
    RunSnoc(r3, Fail, failing, max);
    RunSnoc(r4, Take, failing, max);
    RunSnoc(r5, Arrive, failing, max);
    assert r5 + [Arrive] == [Write(b), Take, Arrive, Fail, Take, Arrive];
    assert "" + b == b;
    RenderedEmpty(b);
    hide Render;
  }

  /** A request is carried out after the program gave it up. */
  lemma LateArrivalGivesMarker(b: string, failing: bool, max: Pos)
    requires 0 < |b| < max
    ensures var s := Run([Write(b), Take, Fail, ArriveLate(0), Take, Arrive], failing, max);
            && s.written == b
            && s.log == [Batch(false, 0, |b|, b), Batch(true, |b|, |b|, MARKER)]
  {
    hide Run, Invariant;
    RunOfNothing(failing, max);
    var r1 := [Write(b)];
    var r2 := r1 + [Take];
    var r3 := r2 + [Fail];
    var r4 := r3 + [ArriveLate(0)];
    var r5 := r4 + [Take];
    assert [] + [Write(b)] == r1;
    RunSnoc([], Write(b), failing, max);
    RunSnoc(r1, Take, failing, max);
    RunSnoc(r2, Fail, failing, max);
    RunSnoc(r3, ArriveLate(0), failing, max);
    RunSnoc(r4, Take, failing, max);
    RunSnoc(r5, Arrive, failing, max);
    assert r5 + [Arrive] == [Write(b), Take, Fail, ArriveLate(0), Take, Arrive];
    assert "" + b == b;
    RenderedEmpty(b);
    hide Render;
    var first := Batch(false, 0, |b|, b);
    assert Run(r3, failing, max).limbo == [first] && Without([first], 0) == [];
    assert Run(r4, failing, max).log == [first];
  }

  /** A write fills the empty queue exactly. */
  lemma FullWriteGivesMarker(b: string, failing: bool, max: Pos)
    requires |b| == max
    ensures var s := Run([Write(b), Take, Arrive], failing, max);
            s.written == b && s.log == [Batch(true, 0, |b|, MARKER + b)]
  {
    hide Run, Invariant;
    RunOfNothing(failing, max);
    var r1 := [Write(b)];
    var r2 := r1 + [Take];
    assert [] + [Write(b)] == r1;
    RunSnoc([], Write(b), failing, max);
    RunSnoc(r1, Take, failing, max);
    RunSnoc(r2, Arrive, failing, max);
    assert r2 + [Arrive] == [Write(b), Take, Arrive];
    assert "" + b == b && b[0..] == b;
  }
}
