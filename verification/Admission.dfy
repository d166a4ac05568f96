/** Admission of log streams (internal/dashboard/logs.go, streamLogs): an atomic counter is
    incremented, its new value tested, and decremented again at the end or on refusal. Any number
    of handlers do this concurrently; each operation on the counter is one step. */
module Admission {
  import opened Lines

  type Handler = nat

  /** Where a running handler stands: it has incremented the counter and holds the value the
      increment returned, or it has tested it. */
  datatype Phase = Counted(value: int) | Admitted | Refused

  /** The counter, and the handlers that have incremented and not yet decremented it. */
  datatype State = State(streams: int, handlers: map<Handler, Phase>)

  datatype Action = Enter(h: Handler) | Test(h: Handler) | Leave(h: Handler)

  const INIT := State(0, map[])

  function Step(s: State, a: Action, max: Pos): State {
    match a
    case Enter(h) =>
      if h in s.handlers then s
      else State(s.streams + 1, s.handlers[h := Counted(s.streams + 1)])
    case Test(h) =>
      if h in s.handlers && s.handlers[h].Counted? then
        s.(handlers := s.handlers[h := if s.handlers[h].value > max then Refused else Admitted])
      else s
    case Leave(h) =>
      if h in s.handlers && !s.handlers[h].Counted? then State(s.streams - 1, s.handlers - {h}) else s
  }

  ghost function Run(actions: seq<Action>, max: Pos): State {
    if actions == [] then INIT
    else Step(Run(actions[..|actions| - 1], max), actions[|actions| - 1], max)
  }

  /** Admitted, or bound to be. */
  predicate Passes(p: Phase, max: Pos) {
    p.Admitted? || (p.Counted? && p.value <= max)
  }

  function Passing(s: State, max: Pos): set<Handler> {
    set h | h in s.handlers && Passes(s.handlers[h], max)
  }

  function AdmittedOnes(s: State): set<Handler> {
    set h | h in s.handlers && s.handlers[h].Admitted?
  }

  predicate Invariant(s: State, max: Pos) {
    s.streams == |s.handlers| && |Passing(s, max)| <= max
  }

  lemma SubsetSize(a: set<Handler>, b: set<Handler>)
    requires a <= b
    ensures |a| <= |b|
  {
    assert b == a + (b - a);
  }

  lemma EnterKeepsInvariant(s: State, h: Handler, max: Pos)
    requires Invariant(s, max) && h !in s.handlers
    ensures Invariant(Step(s, Enter(h), max), max)
  {
    var s' := Step(s, Enter(h), max);
    assert s'.handlers.Keys == s.handlers.Keys + {h};
    if s.streams + 1 <= max {
      // Everyone who passes is among the streams + 1 counted handlers.
      SubsetSize(Passing(s', max), s'.handlers.Keys);
    } else {
      assert Passing(s', max) == Passing(s, max);
    }
  }

  lemma TestKeepsInvariant(s: State, h: Handler, max: Pos)
    requires Invariant(s, max) && h in s.handlers && s.handlers[h].Counted?
    ensures Invariant(Step(s, Test(h), max), max)
  {
    var s' := Step(s, Test(h), max);
    assert Passing(s', max) == Passing(s, max);
    assert s'.handlers.Keys == s.handlers.Keys;
  }

  lemma LeaveKeepsInvariant(s: State, h: Handler, max: Pos)
    requires Invariant(s, max) && h in s.handlers && !s.handlers[h].Counted?
    ensures Invariant(Step(s, Leave(h), max), max)
  {
    var s' := Step(s, Leave(h), max);
    assert s.handlers.Keys == s'.handlers.Keys + {h};
    SubsetSize(Passing(s', max), Passing(s, max));
  }

  lemma StepKeepsInvariant(s: State, a: Action, max: Pos)
    requires Invariant(s, max)
    ensures Invariant(Step(s, a, max), max)
  {
    hide Invariant;
    if a.Enter? && a.h !in s.handlers {
      EnterKeepsInvariant(s, a.h, max);
    } else if a.Test? && a.h in s.handlers && s.handlers[a.h].Counted? {
      TestKeepsInvariant(s, a.h, max);
    } else if a.Leave? && a.h in s.handlers && !s.handlers[a.h].Counted? {
      LeaveKeepsInvariant(s, a.h, max);
    }
  }

  lemma {:induction false} RunKeepsInvariant(actions: seq<Action>, max: Pos)
    ensures Invariant(Run(actions, max), max)
  {
    hide Invariant, Step;
    if actions == [] {
      InitOk(max);
    } else {
      RunKeepsInvariant(actions[..|actions| - 1], max);
      StepKeepsInvariant(Run(actions[..|actions| - 1], max), actions[|actions| - 1], max);
    }
  }

  lemma InitOk(max: Pos)
    ensures Invariant(INIT, max)
  {
    assert Passing(INIT, max) == {};
  }

  /** In every interleaving at most max streams are admitted at once, and the counter is the number
      of handlers between their increment and their decrement; so it is zero again when all are
      done. */
  lemma AtMostMaxAdmitted(actions: seq<Action>, max: Pos)
    ensures var s := Run(actions, max);
            && |AdmittedOnes(s)| <= max
            && s.streams == |s.handlers|
            && (s.handlers == map[] ==> s.streams == 0)
  {
    RunKeepsInvariant(actions, max);
    SubsetSize(AdmittedOnes(Run(actions, max)), Passing(Run(actions, max), max));
  }

  /** Steps of others leave a handler between its increment and its test as it is. */
  lemma {:induction false} StaysCounted(pre: seq<Action>, mid: seq<Action>, max: Pos, h: Handler, value: int)
    requires h in Run(pre, max).handlers && Run(pre, max).handlers[h] == Counted(value)
    requires forall a | a in mid :: a.h != h
    ensures h in Run(pre + mid, max).handlers && Run(pre + mid, max).handlers[h] == Counted(value)
  {
    hide Run;
    if mid == [] {
      assert pre + mid == pre;
    } else {
      var init, last := mid[..|mid| - 1], mid[|mid| - 1];
      assert mid == init + [last] && pre + mid == pre + init + [last];
      StaysCounted(pre, init, max, h, value);
      RunSnoc(pre + init, last, max);
    }
  }

  /** Whatever other handlers do between its increment and its test, a handler is admitted exactly if
      fewer than max were counted when it incremented, and refused otherwise. */
  lemma AdmittedIfRoom(pre: seq<Action>, mid: seq<Action>, max: Pos, h: Handler)
    requires h !in Run(pre, max).handlers
    requires forall a | a in mid :: a.h != h
    ensures var counted, s := |Run(pre, max).handlers|, Run(pre + [Enter(h)] + mid + [Test(h)], max);
            h in s.handlers && s.handlers[h] == if counted < max then Admitted else Refused
  {
    hide Run;
    RunKeepsInvariant(pre, max);
    RunSnoc(pre, Enter(h), max);
    StaysCounted(pre + [Enter(h)], mid, max, h, |Run(pre, max).handlers| + 1);
    RunSnoc(pre + [Enter(h)] + mid, Test(h), max);
  }

  /** Steps of others leave a handler that has been tested as it is. */
  lemma {:induction false} StaysTested(pre: seq<Action>, mid: seq<Action>, max: Pos, h: Handler)
    requires h in Run(pre, max).handlers && !Run(pre, max).handlers[h].Counted?
    requires forall a | a in mid :: a.h != h
    ensures h in Run(pre + mid, max).handlers && !Run(pre + mid, max).handlers[h].Counted?
  {
    hide Run;
    if mid == [] {
      assert pre + mid == pre;
    } else {
      var init, last := mid[..|mid| - 1], mid[|mid| - 1];
      assert mid == init + [last] && pre + mid == pre + init + [last];
      StaysTested(pre, init, max, h);
      RunSnoc(pre + init, last, max);
    }
  }

  /** Admitted or refused, a handler that leaves is no longer counted, whatever others did meanwhile. */
  lemma WhoLeavesIsNotCounted(pre: seq<Action>, mid: seq<Action>, mid2: seq<Action>, max: Pos, h: Handler)
    requires h !in Run(pre, max).handlers
    requires forall a | a in mid + mid2 :: a.h != h
    ensures var before := Run(pre + [Enter(h)] + mid + [Test(h)] + mid2, max);
            var after := Run(pre + [Enter(h)] + mid + [Test(h)] + mid2 + [Leave(h)], max);
            h in before.handlers && h !in after.handlers && after.streams == before.streams - 1
  {
    hide Run;
    assert forall a | a in mid :: a in mid + mid2;
    assert forall a | a in mid2 :: a in mid + mid2;
    AdmittedIfRoom(pre, mid, max, h);
    StaysTested(pre + [Enter(h)] + mid + [Test(h)], mid2, max, h);
    RunSnoc(pre + [Enter(h)] + mid + [Test(h)] + mid2, Leave(h), max);
  }

  /** The first n handlers come and are tested. */
  function Fill(n: nat): seq<Action> {
    if n == 0 then [] else Fill(n - 1) + [Enter(n - 1)] + [Test(n - 1)]
  }

  function Taken(n: nat): (handlers: map<Handler, Phase>)
    ensures forall h: Handler :: h in handlers <==> h < n
    ensures forall h | h in handlers :: handlers[h] == Admitted
    ensures |handlers.Keys| == n
  {
    if n == 0 then map[]
    else
      var before := Taken(n - 1);
      assert before[n - 1 := Admitted].Keys == before.Keys + {n - 1};
      before[n - 1 := Admitted]
  }

  lemma {:induction false} Filled(n: nat, max: Pos)
    requires n <= max
    ensures Run(Fill(n), max) == State(n, Taken(n))
  {
    hide Run;
    if n == 0 {
      RunOfNothing(max);
    } else {
      Filled(n - 1, max);
      RunSnoc(Fill(n - 1), Enter(n - 1), max);
      RunSnoc(Fill(n - 1) + [Enter(n - 1)], Test(n - 1), max);
    }
  }

  /** All places are taken, one more handler has incremented and not yet been refused, and one stream
      has ended. */
  function Crowd(max: Pos): seq<Action> {
    Fill(max) + [Enter(max)] + [Leave(0)]
  }

  lemma Crowded(max: Pos)
    ensures var s := Run(Crowd(max), max);
            s.streams == max && s.handlers == Taken(max)[max := Counted(max + 1)] - {0}
  {
    hide Run;
    Filled(max, max);
    RunSnoc(Fill(max), Enter(max), max);
    RunSnoc(Fill(max) + [Enter(max)], Leave(0), max);
  }

  /** Others that are about to be refused count as well: whatever the maximum, a handler can be
      refused while one stream less than the maximum is open. */
  lemma RefusedWithFreePlace(max: Pos)
    ensures var s := Run(Crowd(max) + [Enter(max + 1)] + [Test(max + 1)], max);
            && max + 1 in s.handlers && s.handlers[max + 1].Refused?
            && |AdmittedOnes(s)| == max - 1
  {
    hide Run, Crowd;
    Crowded(max);
    RunSnoc(Crowd(max), Enter(max + 1), max);
    RunSnoc(Crowd(max) + [Enter(max + 1)], Test(max + 1), max);
    AdmittedIfRoom(Crowd(max), [], max, max + 1);
    assert Crowd(max) + [Enter(max + 1)] + [] == Crowd(max) + [Enter(max + 1)];
    RunKeepsInvariant(Crowd(max), max);
    var s := Run(Crowd(max) + [Enter(max + 1)] + [Test(max + 1)], max);
    assert s.handlers == (Taken(max)[max := Counted(max + 1)] - {0})[max + 1 := Refused];
    TakenButOne(max, s);
    hide Step, AdmittedOnes;
  }

  /** Whoever else is counted or refused, the admitted handlers of the crowd are 1 to max - 1. */
  lemma TakenButOne(max: Pos, s: State)
    requires s.handlers == (Taken(max)[max := Counted(max + 1)] - {0})[max + 1 := Refused]
    ensures |AdmittedOnes(s)| == max - 1
  {
    assert AdmittedOnes(s) == Taken(max).Keys - {0};
  }

  lemma RunOfNothing(max: Pos)
    ensures Run([], max) == INIT
  {
  }

  lemma RunSnoc(actions: seq<Action>, a: Action, max: Pos)
    ensures Run(actions + [a], max) == Step(Run(actions, max), a, max)
  {
    assert (actions + [a])[..|actions|] == actions;
  }
}
