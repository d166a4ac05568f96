/** The whole log path of one service: an application writes to the forwarder, requests arrive at
    the daemon and are appended to the service's entry, clients follow the entry. One writer, and
    no eviction of the service. */
module Pipeline {
  import opened Lines
  import opened Retention
  import opened LogStore
  import Forwarder
  import Follow

  datatype System = System(writer: Forwarder.State, log: Follow.State)

  /** A step of the writer's side (including arrivals at the daemon) or of a reader's. */
  datatype Action = Produce(w: Forwarder.Action) | Consume(r: Follow.Action)

  predicate Allowed(a: Action) {
    a.Consume? ==> !a.r.Append? && !a.r.Evict?
  }

  ghost function Step(s: System, a: Action, L: Limits): System
    requires |s.writer.pending| <= L.maxBytes && |s.writer.pending| <= |s.writer.written|
    requires s.log.lives != []
  {
    match a
    case Produce(w) =>
      var writer := Forwarder.Step(s.writer, w, L.maxBytes);
      // A request that arrives is appended to the service's entry.
      if |writer.log| > |s.writer.log| then
        System(writer, Follow.Step(s.log, Follow.Append(writer.log[|s.writer.log|].text), L))
      else System(writer, s.log)
    case Consume(r) => System(s.writer, Follow.Step(s.log, r, L))
  }

  ghost predicate Invariant(s: System, failing: bool, L: Limits) {
    && Forwarder.Invariant(s.writer, failing, L.maxBytes)
    && Follow.Invariant(s.log, L)
    && Follow.OneLife(s.log)
    && s.log.lives == [Concat(Forwarder.TextsOf(s.writer.log))]
  }

  lemma WriterLogGrows(s: Forwarder.State, a: Forwarder.Action, max: Pos)
    requires |s.pending| <= max && |s.pending| <= |s.written|
    ensures var s' := Forwarder.Step(s, a, max);
            s'.log == s.log || (|s'.log| == |s.log| + 1 && s'.log[..|s.log|] == s.log)
  {
  }

  lemma ConcatTextsSnoc(log: seq<Forwarder.Batch>, log': seq<Forwarder.Batch>)
    requires |log'| == |log| + 1 && log'[..|log|] == log
    ensures Concat(Forwarder.TextsOf(log')) == Concat(Forwarder.TextsOf(log)) + log'[|log|].text
  {
    assert Forwarder.TextsOf(log')[..|log|] == Forwarder.TextsOf(log);
  }

  lemma ProduceKeepsInvariant(s: System, w: Forwarder.Action, failing: bool, L: Limits)
    requires Invariant(s, failing, L)
    ensures Invariant(Step(s, Produce(w), L), failing, L)
  {
    hide Follow.Invariant, Follow.OneLife, Follow.Step, Forwarder.Step, Forwarder.QueueOk,
         Forwarder.GaplessSoFar, Forwarder.AtMostOnce, Concat, Forwarder.TextsOf;
    WriterBounds(s, failing, L);
    var writer := Forwarder.Step(s.writer, w, L.maxBytes);
    Forwarder.StepKeepsInvariant(s.writer, w, failing, L.maxBytes);
    WriterLogGrows(s.writer, w, L.maxBytes);
    if writer.log != s.writer.log {
      var text := writer.log[|s.writer.log|].text;
      ConcatTextsSnoc(s.writer.log, writer.log);
      Follow.StepKeepsInvariant(s.log, Follow.Append(text), L);
      Follow.OneLifeStep(s.log, Follow.Append(text), L);
      AppendedLives(s.log, text, L);
    }
  }

  lemma WriterBounds(s: System, failing: bool, L: Limits)
    requires Invariant(s, failing, L)
    ensures |s.writer.pending| <= L.maxBytes && |s.writer.pending| <= |s.writer.written| && s.log.lives != []
  {
    hide Follow.Invariant, Follow.OneLife, Forwarder.GaplessSoFar, Forwarder.AtMostOnce;
  }

  lemma AppendedLives(s: Follow.State, text: string, L: Limits)
    requires |s.lives| == 1
    ensures Follow.Step(s, Follow.Append(text), L).lives == [s.lives[0] + text]
  {
    hide Extended;
  }

  lemma StepKeepsInvariant(s: System, a: Action, failing: bool, L: Limits)
    requires Invariant(s, failing, L) && Allowed(a)
    ensures Invariant(Step(s, a, L), failing, L)
  {
    match a
    case Produce(w) => ProduceKeepsInvariant(s, w, failing, L);
    case Consume(r) =>
      hide Follow.Invariant, Follow.OneLife, Forwarder.Invariant;
      Follow.StepKeepsInvariant(s.log, r, L);
      Follow.OneLifeStep(s.log, r, L);
  }

  lemma InitOk(failing: bool, L: Limits)
    ensures Invariant(System(Forwarder.Init(failing), Follow.INIT), failing, L)
  {
    Follow.InitOk(L);
    Follow.OneLifeInit();
    assert Forwarder.Run([], failing, L.maxBytes) == Forwarder.Init(failing);
  }

  ghost function Run(actions: seq<Action>, failing: bool, L: Limits): (s: System)
    requires forall a | a in actions :: Allowed(a)
    ensures Invariant(s, failing, L)
  {
    if actions == [] then
      InitOk(failing, L);
      System(Forwarder.Init(failing), Follow.INIT)
    else
      var s := Run(actions[..|actions| - 1], failing, L);
      StepKeepsInvariant(s, actions[|actions| - 1], failing, L);
      Step(s, actions[|actions| - 1], L)
  }

  lemma HoldsArrivals(s: System, failing: bool, L: Limits, r: Follow.ReaderId)
    requires Invariant(s, failing, L) && r in s.log.readers
    ensures Follow.HoldsFrom(s.log.readers[r].client, Concat(Forwarder.TextsOf(s.writer.log)),
                             Follow.EntryOrNone(s.log).start)
  {
    hide Forwarder.Invariant, Follow.Invariant, Follow.OfLife;
    Follow.OfLifeHolds(s.log, r, L);
  }

  lemma UnmarkedArrivals(s: System, failing: bool, L: Limits)
    requires Invariant(s, failing, L) && Forwarder.Unmarked(s.writer.log)
    ensures Concat(Forwarder.TextsOf(s.writer.log)) <= s.writer.written
  {
    hide Follow.Invariant, Follow.OneLife, Forwarder.BatchOk;
    Forwarder.ConsecutiveTexts(s.writer.log, s.writer.written);
  }

  lemma HoldsLonger(c: Follow.Client, text: string, longer: string, limit: nat)
    requires Follow.HoldsFrom(c, text, limit) && text <= longer
    ensures Follow.HoldsFrom(c, longer, limit)
  {
    var from: nat :| from <= limit && Follow.Between(c.view, text, from, c.lastId);
    assert longer[from..c.lastId] == text[from..c.lastId];
    assert Follow.Between(c.view, longer, from, c.lastId);
  }

  /** In every run, a client holds exactly the bytes that arrived at the daemon, from a point within
      what the window has dropped up to its last event id. */
  lemma ClientHoldsArrivals(actions: seq<Action>, failing: bool, L: Limits, r: Follow.ReaderId)
    requires forall a | a in actions :: Allowed(a)
    requires r in Run(actions, failing, L).log.readers
    ensures var s := Run(actions, failing, L);
            Follow.HoldsFrom(s.log.readers[r].client, Concat(Forwarder.TextsOf(s.writer.log)),
                             Follow.EntryOrNone(s.log).start)
  {
    hide Invariant, Follow.HoldsFrom, Follow.EntryOrNone;
    HoldsArrivals(Run(actions, failing, L), failing, L, r);
  }

  /** End to end: unless a marker has arrived at the daemon, what a client shows are consecutive
      bytes of the application's own output, whatever failed or was late in between. */
  lemma ClientShowsOutput(actions: seq<Action>, failing: bool, L: Limits, r: Follow.ReaderId)
    requires forall a | a in actions :: Allowed(a)
    requires r in Run(actions, failing, L).log.readers
    requires Forwarder.Unmarked(Run(actions, failing, L).writer.log)
    ensures var s := Run(actions, failing, L);
            Follow.HoldsFrom(s.log.readers[r].client, s.writer.written, Follow.EntryOrNone(s.log).start)
  {
    hide Invariant, Follow.HoldsFrom, Follow.EntryOrNone, Forwarder.Unmarked;
    var s := Run(actions, failing, L);
    HoldsArrivals(s, failing, L, r);
    UnmarkedArrivals(s, failing, L);
    HoldsLonger(s.log.readers[r].client, Concat(Forwarder.TextsOf(s.writer.log)), s.writer.written,
                Follow.EntryOrNone(s.log).start);
  }

  // ----- the writer's side ------------------------------------------------------------------

  /** The writer's part of a run. */
  function WriterActions(actions: seq<Action>): seq<Forwarder.Action> {
    if actions == [] then []
    else
      var init, last := actions[..|actions| - 1], actions[|actions| - 1];
      if last.Produce? then WriterActions(init) + [last.w] else WriterActions(init)
  }

  /** Readers do not affect the writer: what is proved of every run of the forwarder holds here. */
  lemma {:induction false} WriterProjection(actions: seq<Action>, failing: bool, L: Limits)
    requires forall a | a in actions :: Allowed(a)
    ensures Run(actions, failing, L).writer == Forwarder.Run(WriterActions(actions), failing, L.maxBytes)
    ensures forall w | w in WriterActions(actions) :: Produce(w) in actions
  {
    hide Invariant, Forwarder.Invariant, Forwarder.Step, Follow.Step;
    if actions != [] {
      var init, last := actions[..|actions| - 1], actions[|actions| - 1];
      WriterProjection(init, failing, L);
      if last.Produce? {
        Forwarder.RunSnoc(WriterActions(init), last.w, failing, L.maxBytes);
      }
    }
  }

  /** End to end with markers: as long as no failed request is carried out late, a client shows a
      piece of a text made of batches which, markers removed, are increasing segments of the
      application's output, every gap between them marked. With late arrivals they are still
      segments of the output that share no byte. */
  lemma ClientShowsMarkedOutput(actions: seq<Action>, failing: bool, L: Limits, r: Follow.ReaderId)
    requires forall a | a in actions :: Allowed(a)
    requires r in Run(actions, failing, L).log.readers
    ensures var s := Run(actions, failing, L);
            && Follow.HoldsFrom(s.log.readers[r].client, Concat(Forwarder.TextsOf(s.writer.log)),
                                Follow.EntryOrNone(s.log).start)
            && Forwarder.Segments(s.writer.log, s.writer.written)
            && ((forall a | a in actions :: a.Produce? ==> !a.w.ArriveLate?) ==>
                  Forwarder.Delivered(s.writer.log, s.writer.written))
  {
    hide Invariant, Follow.HoldsFrom, Follow.EntryOrNone, Run, Forwarder.Run, Forwarder.Invariant,
         Forwarder.Delivered, Forwarder.Segments;
    HoldsArrivals(Run(actions, failing, L), failing, L, r);
    WriterProjection(actions, failing, L);
    var writes := WriterActions(actions);
    Forwarder.EveryByteAtMostOnce(writes, failing, L.maxBytes);
    if forall a | a in actions :: a.Produce? ==> !a.w.ArriveLate? {
      Forwarder.NoLateArrivals(writes, failing, L.maxBytes);
      Forwarder.ForwarderConservation(writes, failing, L.maxBytes);
    }
  }
}
