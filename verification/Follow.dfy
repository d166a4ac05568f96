/** Readers following one service's log (internal/logstream/sse.go, ServeSSE, on top of Append,
    Subscribe and ReadFrom of internal/logstream/store.go).

    Every action below is one atomic step of the running program: the store's methods run under
    its lock, a receive from the wake channel and a write to the connection are single steps of
    the handler's goroutine, and the network delivers, loses and closes as it likes. A run is any
    sequence of actions; an action that is not enabled changes nothing.

    An eviction ends the entry's lifetime and offsets start again at 0 (store.go:81-84). lives
    records what was appended in each lifetime, the last element being the current one. Reader
    fields named life record the lifetime an offset belongs to; the program has no such field. */
module Follow {
  import opened Lines
  import opened Retention
  import opened LogStore
  import opened Wrappers

  type ReaderId = nat

  datatype Kind = Reset | Delta | Gone

  /** An event on the wire: name, id and payload text. */
  datatype Event = Event(kind: Kind, id: nat, text: string, life: nat)

  /** Where the handler of one connection stands. */
  datatype Phase =
    | Off                    // no handler
    | Subscribed             // subscribed, first ReadFrom still to come
    | Parked                 // waiting in select
    | Woken                  // took the wake signal, ReadFrom still to come
    | Sending(event: Event)  // read the store, write still to come

  /** A client that replaces its text on "reset" and extends it on "append". faithful turns false
      when an append from one lifetime is added to text of another one. */
  datatype Client = Client(view: string, lastId: nat, life: nat, faithful: bool)

  datatype Reader = Reader(phase: Phase, offset: nat, life: nat, wake: bool,
                           flight: seq<Event>, client: Client)

  datatype State = State(lives: seq<string>, entry: Option<Entry>, readers: map<ReaderId, Reader>)

  datatype Action =
    | Append(text: string)
    | Evict
    | Connect(r: ReaderId)
    | FirstRead(r: ReaderId)
    | TakeWake(r: ReaderId)
    | ReadAgain(r: ReaderId)
    | Send(r: ReaderId)
    | SendGone(r: ReaderId)
    | Deliver(r: ReaderId)
    | Disconnect(r: ReaderId, kept: nat)

  // ----- the client -------------------------------------------------------------------------

  const NEW_CLIENT := Client("", 0, 0, true)
  const NEW_READER := Reader(Off, 0, 0, false, [], NEW_CLIENT)

  function Receive(c: Client, e: Event): Client {
    match e.kind
    case Reset => Client(e.text, e.id, e.life, true)
    case Delta => Client(c.view + e.text, e.id, e.life, c.faithful && (e.life == c.life || c.lastId == 0))
    case Gone => c.(lastId := e.id)
  }

  function ReceiveAll(c: Client, events: seq<Event>): Client
    decreases |events|
  {
    if events == [] then c else ReceiveAll(Receive(c, events[0]), events[1..])
  }

  // ----- steps ------------------------------------------------------------------------------

  function Current(s: State): nat
    requires s.lives != []
  {
    |s.lives| - 1
  }

  /** ReadFrom at the offset, as an event; first forces a reset. */
  function Read(s: State, offset: nat, first: bool): Event
    requires s.lives != []
  {
    var r := ReadAt(s.entry, offset);
    Event(if r.reset || first then Reset else Delta, r.next, r.text, Current(s))
  }

  /** What ReadFrom found is not worth an event: no text and no reset. */
  predicate NothingNew(s: State, offset: nat) {
    var r := ReadAt(s.entry, offset);
    r.text == "" && !r.reset
  }

  function WakeUp(reader: Reader): Reader {
    if reader.phase.Off? then reader else reader.(wake := true)
  }

  ghost function Appended(s: State, text: string, L: Limits): State
    requires s.lives != []
  {
    var e := if s.entry.Some? then s.entry.value else NO_OUTPUT;
    State(s.lives[Current(s) := s.lives[Current(s)] + text],
          Some(Extended(e, text, 0, L)),
          map r | r in s.readers :: WakeUp(s.readers[r]))
  }

  /** One step of the handler or the client of reader r. */
  function ReaderStep(s: State, reader: Reader, a: Action): Reader
    requires s.lives != []
  {
    match a
    case Connect(_) =>
      // Last-Event-ID is the client's last id; the wake channel is new.
      if reader.phase.Off? then
        Reader(Subscribed, reader.client.lastId, reader.client.life, false, [], reader.client)
      else reader
    case FirstRead(_) =>
      if reader.phase.Subscribed? then reader.(phase := Sending(Read(s, reader.offset, reader.offset == 0)))
      else reader
    case TakeWake(_) =>
      if reader.phase.Parked? && reader.wake then reader.(phase := Woken, wake := false) else reader
    case ReadAgain(_) =>
      if reader.phase.Woken? then
        reader.(phase := if NothingNew(s, reader.offset) then Parked
                         else Sending(Read(s, reader.offset, false)))
      else reader
    case Send(_) =>
      if reader.phase.Sending? then
        var e := reader.phase.event;
        reader.(phase := Parked, offset := e.id, life := e.life, flight := reader.flight + [e])
      else reader
    case SendGone(_) =>
      if reader.phase.Parked? then
        reader.(phase := Off, flight := reader.flight + [Event(Gone, reader.offset, "", reader.life)])
      else reader
    case Deliver(_) =>
      if reader.flight != [] then
        reader.(client := Receive(reader.client, reader.flight[0]), flight := reader.flight[1..])
      else reader
    case Disconnect(_, kept) =>
      if kept <= |reader.flight| then reader.(phase := Off, flight := reader.flight[..kept]) else reader
    case _ => reader
  }

  ghost function Step(s: State, a: Action, L: Limits): State
    requires s.lives != []
  {
    match a
    case Append(text) => Appended(s, text, L)
    case Evict => if s.entry.Some? then s.(lives := s.lives + [""], entry := None) else s
    case _ =>
      var reader := if a.r in s.readers then s.readers[a.r] else NEW_READER;
      s.(readers := s.readers[a.r := ReaderStep(s, reader, a)])
  }

  const INIT := State([""], None, map[])

  ghost function Run(actions: seq<Action>, L: Limits): (s: State)
    ensures s.lives != []
  {
    if actions == [] then INIT
    else Step(Run(actions[..|actions| - 1], L), actions[|actions| - 1], L)
  }

  // ----- the log ----------------------------------------------------------------------------

  function EntryOrNone(s: State): Entry {
    if s.entry.Some? then s.entry.value else NO_OUTPUT
  }

  /** The entry is the window of the current lifetime. */
  ghost predicate LogOk(s: State, L: Limits) {
    && s.lives != []
    && WindowOf(s.lives[Current(s)], EntryOrNone(s).start, EntryOrNone(s).buf, L)
  }

  // ----- reader fidelity --------------------------------------------------------------------

  /** v is lives[life][from..to], and reaches back at least to the current window's start if the
      lifetime is the current one. */
  predicate SliceOf(s: State, v: string, life: nat, to: nat, from: nat) {
    && life < |s.lives|
    && from <= to <= |s.lives[life]|
    && v == s.lives[life][from..to]
    && (life == |s.lives| - 1 ==> from <= EntryOrNone(s).start)
  }

  /** Unless appends from different lifetimes were mixed, the client holds exactly the bytes of one
      lifetime from some point up to its last event id: nothing duplicated, skipped or reordered. */
  ghost predicate Faithful(s: State, c: Client) {
    c.faithful ==> exists from :: SliceOf(s, c.view, c.life, c.lastId, from)
  }

  /** So will it be after each of the events still in flight. */
  ghost predicate FaithfulAlong(s: State, c: Client, flight: seq<Event>)
    decreases |flight|
  {
    Faithful(s, c) && (flight != [] ==> FaithfulAlong(s, Receive(c, flight[0]), flight[1..]))
  }

  // ----- the invariant ----------------------------------------------------------------------

  /** The client once everything in flight has arrived. */
  function CaughtUp(reader: Reader): Client {
    ReceiveAll(reader.client, reader.flight)
  }

  /** The handler's offset is the last id the client will have seen. */
  predicate Synced(reader: Reader) {
    CaughtUp(reader).lastId == reader.offset && CaughtUp(reader).life == reader.life
  }

  /** The end of the log, or, until an evicted service is recreated, the end of its last lifetime. */
  predicate AtTheEnd(s: State, at: nat)
    requires s.lives != []
  {
    || at == EntryOrNone(s).End()
    || (s.entry.None? && |s.lives| > 1 && at == |s.lives[|s.lives| - 2]|)
  }

  /** Whoever is parked at an offset, or about to be, and has no signal pending has everything. */
  predicate NotBehind(s: State, wake: bool, at: nat) {
    wake || (s.lives != [] && AtTheEnd(s, at))
  }

  ghost predicate ReaderOk(s: State, reader: Reader) {
    && FaithfulAlong(s, reader.client, reader.flight)
    && match reader.phase
       case Off => true
       case Subscribed => Synced(reader)
       case Woken => Synced(reader)
       case Parked => Synced(reader) && NotBehind(s, reader.wake, reader.offset)
       case Sending(e) => e.kind != Gone && Synced(reader) && NotBehind(s, reader.wake, e.id)
                          && Faithful(s, Receive(CaughtUp(reader), e))
  }

  ghost predicate Invariant(s: State, L: Limits) {
    s.lives != [] && LogOk(s, L) && forall r | r in s.readers :: ReaderOk(s, s.readers[r])
  }

  // ----- events in flight -------------------------------------------------------------------

  lemma {:induction false} ReceiveAllSnoc(c: Client, flight: seq<Event>, e: Event)
    ensures ReceiveAll(c, flight + [e]) == Receive(ReceiveAll(c, flight), e)
    decreases |flight|
  {
    if flight == [] {
      assert ReceiveAll(Receive(c, e), [e][1..]) == Receive(c, e);
    } else {
      assert (flight + [e])[1..] == flight[1..] + [e];
      ReceiveAllSnoc(Receive(c, flight[0]), flight[1..], e);
    }
  }

  lemma {:induction false} FaithfulSnoc(s: State, c: Client, flight: seq<Event>, e: Event)
    requires FaithfulAlong(s, c, flight) && Faithful(s, Receive(ReceiveAll(c, flight), e))
    ensures FaithfulAlong(s, c, flight + [e])
    decreases |flight|
  {
    hide Faithful;
    if flight == [] {
      assert FaithfulAlong(s, Receive(c, e), [e][1..]);
    } else {
      assert (flight + [e])[1..] == flight[1..] + [e];
      FaithfulSnoc(s, Receive(c, flight[0]), flight[1..], e);
    }
  }

  lemma {:induction false} FaithfulPrefix(s: State, c: Client, flight: seq<Event>, k: nat)
    requires FaithfulAlong(s, c, flight) && k <= |flight|
    ensures FaithfulAlong(s, c, flight[..k])
    decreases |flight|
  {
    hide Faithful;
    if k > 0 {
      assert flight[..k][1..] == flight[1..][..k - 1];
      FaithfulPrefix(s, Receive(c, flight[0]), flight[1..], k - 1);
    }
  }

  lemma {:induction false} FaithfulAtEnd(s: State, c: Client, flight: seq<Event>)
    requires FaithfulAlong(s, c, flight)
    ensures Faithful(s, ReceiveAll(c, flight))
    decreases |flight|
  {
    hide Faithful;
    if flight != [] {
      FaithfulAtEnd(s, Receive(c, flight[0]), flight[1..]);
    }
  }

  // ----- the log only grows -----------------------------------------------------------------

  /** Lifetimes are appended to or followed by new ones, and a window's start never moves back. */
  ghost predicate Grows(s: State, s': State) {
    && 1 <= |s.lives| <= |s'.lives|
    && (forall i | 0 <= i < |s.lives| :: s.lives[i] <= s'.lives[i])
    && (|s'.lives| == |s.lives| ==> EntryOrNone(s).start <= EntryOrNone(s').start)
  }

  lemma FaithfulStable(s: State, s': State, c: Client)
    requires Grows(s, s') && Faithful(s, c)
    ensures Faithful(s', c)
  {
    if c.faithful {
      var from: nat :| SliceOf(s, c.view, c.life, c.lastId, from);
      assert SliceOf(s', c.view, c.life, c.lastId, from);
    }
  }

  lemma {:induction false} FaithfulAlongStable(s: State, s': State, c: Client, flight: seq<Event>)
    requires Grows(s, s') && FaithfulAlong(s, c, flight)
    ensures FaithfulAlong(s', c, flight)
    decreases |flight|
  {
    hide Faithful, Grows;
    FaithfulStable(s, s', c);
    if flight != [] {
      FaithfulAlongStable(s, s', Receive(c, flight[0]), flight[1..]);
    }
  }

  lemma AppendGrows(s: State, text: string, L: Limits)
    requires LogOk(s, L)
    ensures LogOk(Appended(s, text, L), L) && Grows(s, Appended(s, text, L))
  {
    hide TrimCut, LineCount;
    var e := EntryOrNone(s);
    AppendKeepsWindow(s.lives[Current(s)], e.start, e.buf, text, L);
  }

  lemma EvictGrows(s: State, L: Limits)
    requires LogOk(s, L) && s.entry.Some?
    ensures var s' := s.(lives := s.lives + [""], entry := None);
            LogOk(s', L) && Grows(s, s') && EntryOrNone(s).End() == |s.lives[Current(s)]|
  {
  }

  // ----- one step of a reader ---------------------------------------------------------------

  lemma ReadYields(s: State, offset: nat, first: bool, L: Limits)
    requires LogOk(s, L) && (first ==> offset == 0)
    ensures var H, start, e := s.lives[Current(s)], EntryOrNone(s).start, Read(s, offset, first);
            && start <= |H| && e.id == EntryOrNone(s).End() == |H| && e.life == Current(s)
            && match e.kind
               case Reset => e.text == H[start..]
               case Delta => start <= offset <= |H| && e.text == H[offset..]
               case Gone => false
  {
    hide LineCount, Boundary, OneLongLine;
  }

  lemma DeltaContinues(s: State, c: Client, e: Event)
    requires s.lives != [] && Faithful(s, c)
    requires e.kind == Delta && e.life == |s.lives| - 1
    requires var H := s.lives[e.life];
             EntryOrNone(s).start <= c.lastId <= |H| == e.id && e.text == H[c.lastId..]
    ensures Faithful(s, Receive(c, e))
  {
    hide SliceOf;
    if Receive(c, e).faithful {
      var from: nat :| SliceOf(s, c.view, c.life, c.lastId, from);
      if c.life == e.life {
        SliceExtends(s, c.view, c.lastId, from, e.text);
      } else {
        EmptySlice(s, c.view, c.life, from);
        SliceExtends(s, c.view, 0, 0, e.text);
      }
    }
  }

  lemma SliceExtends(s: State, v: string, to: nat, from: nat, text: string)
    requires s.lives != [] && SliceOf(s, v, |s.lives| - 1, to, from)
    requires text == s.lives[|s.lives| - 1][to..]
    ensures SliceOf(s, v + text, |s.lives| - 1, |s.lives[|s.lives| - 1]|, from)
  {
    var H := s.lives[|s.lives| - 1];
    assert H[from..to] + H[to..] == H[from..|H|];
  }

  lemma EmptySlice(s: State, v: string, life: nat, from: nat)
    requires s.lives != [] && SliceOf(s, v, life, 0, from)
    ensures v == "" && SliceOf(s, v, |s.lives| - 1, 0, 0)
  {
  }

  lemma ResetContinues(s: State, c: Client, e: Event)
    requires s.lives != [] && e.kind == Reset && e.life == |s.lives| - 1
    requires var H := s.lives[e.life];
             EntryOrNone(s).start <= |H| == e.id && e.text == H[EntryOrNone(s).start..]
    ensures Faithful(s, Receive(c, e))
  {
    assert SliceOf(s, e.text, e.life, e.id, EntryOrNone(s).start);
  }

  /** What ReadFrom yields continues what a synced client holds. */
  lemma ReadContinues(s: State, c: Client, first: bool, L: Limits)
    requires LogOk(s, L) && Faithful(s, c)
    requires first ==> c.lastId == 0
    ensures var e := Read(s, c.lastId, first);
            && e.kind != Gone && e.id == EntryOrNone(s).End()
            && Faithful(s, Receive(c, e))
  {
    hide LogOk, Read, Faithful;
    ReadYields(s, c.lastId, first, L);
    var e := Read(s, c.lastId, first);
    if e.kind == Reset {
      ResetContinues(s, c, e);
    } else {
      DeltaContinues(s, c, e);
    }
  }

  lemma NothingNewMeansCurrent(s: State, offset: nat, L: Limits)
    requires LogOk(s, L) && NothingNew(s, offset)
    ensures offset == EntryOrNone(s).End()
  {
    hide LineCount;
  }

  lemma DeliverOk(s: State, reader: Reader, r: ReaderId)
    requires s.lives != [] && ReaderOk(s, reader)
    ensures ReaderOk(s, ReaderStep(s, reader, Deliver(r)))
  {
    hide Faithful, NotBehind, Read, NothingNew;
  }

  lemma EndIsNotBehind(s: State, wake: bool)
    requires s.lives != []
    ensures NotBehind(s, wake, EntryOrNone(s).End())
  {
  }

  lemma SendingOk(s: State, reader: Reader, e: Event)
    requires ReaderOk(s, reader) && Synced(reader)
    requires e.kind != Gone && NotBehind(s, reader.wake, e.id) && Faithful(s, Receive(CaughtUp(reader), e))
    ensures ReaderOk(s, reader.(phase := Sending(e)))
  {
    hide Faithful, FaithfulAlong, ReceiveAll, NotBehind, Receive;
  }

  lemma FirstReadOk(s: State, reader: Reader, r: ReaderId, L: Limits)
    requires LogOk(s, L) && ReaderOk(s, reader)
    ensures ReaderOk(s, ReaderStep(s, reader, FirstRead(r)))
  {
    if reader.phase.Subscribed? {
      EndIsNotBehind(s, reader.wake);
      FaithfulAtEnd(s, reader.client, reader.flight);
      ReadContinues(s, CaughtUp(reader), reader.offset == 0, L);
      hide LogOk, Faithful, FaithfulAlong, ReceiveAll, Receive, Read, NotBehind, EntryOrNone;
      SendingOk(s, reader, Read(s, reader.offset, reader.offset == 0));
    }
  }

  lemma ReadAgainOk(s: State, reader: Reader, r: ReaderId, L: Limits)
    requires LogOk(s, L) && ReaderOk(s, reader)
    ensures ReaderOk(s, ReaderStep(s, reader, ReadAgain(r)))
  {
    if reader.phase.Woken? {
      EndIsNotBehind(s, reader.wake);
      FaithfulAtEnd(s, reader.client, reader.flight);
      ReadContinues(s, CaughtUp(reader), false, L);
      if NothingNew(s, reader.offset) { NothingNewMeansCurrent(s, reader.offset, L); }
      hide LogOk, Faithful, FaithfulAlong, ReceiveAll, Receive, Read, NothingNew, NotBehind, EntryOrNone;
      SendingOk(s, reader, Read(s, reader.offset, false));
    }
  }

  lemma SendOk(s: State, reader: Reader, r: ReaderId)
    requires s.lives != [] && ReaderOk(s, reader)
    ensures ReaderOk(s, ReaderStep(s, reader, Send(r)))
    ensures ReaderOk(s, ReaderStep(s, reader, SendGone(r)))
  {
    FaithfulAtEnd(s, reader.client, reader.flight);
    hide Faithful, FaithfulAlong, ReceiveAll, NotBehind;
    if reader.phase.Sending? {
      FaithfulSnoc(s, reader.client, reader.flight, reader.phase.event);
      ReceiveAllSnoc(reader.client, reader.flight, reader.phase.event);
    } else if reader.phase.Parked? {
      var gone := Event(Gone, reader.offset, "", reader.life);
      GoneChangesNothing(CaughtUp(reader), gone);
      FaithfulSnoc(s, reader.client, reader.flight, gone);
    }
  }

  lemma GoneChangesNothing(c: Client, e: Event)
    requires e.kind == Gone && e.id == c.lastId
    ensures Receive(c, e) == c
  {
  }

  lemma ConnectionOk(s: State, reader: Reader, a: Action)
    requires s.lives != [] && ReaderOk(s, reader) && (a.Connect? || a.TakeWake? || a.Disconnect?)
    ensures ReaderOk(s, ReaderStep(s, reader, a))
  {
    FaithfulPrefix(s, reader.client, reader.flight, 0);
    if a.Disconnect? && a.kept <= |reader.flight| {
      FaithfulPrefix(s, reader.client, reader.flight, a.kept);
    }
    NothingReceived(reader.client);
    hide Faithful, FaithfulAlong, ReceiveAll, NotBehind;
  }

  lemma ReaderStepOk(s: State, reader: Reader, a: Action, L: Limits)
    requires LogOk(s, L) && ReaderOk(s, reader) && !a.Append? && !a.Evict?
    ensures ReaderOk(s, ReaderStep(s, reader, a))
  {
    assert s.lives != [];
    hide LogOk, ReaderOk, ReaderStep;
    match a
    case FirstRead(r) => FirstReadOk(s, reader, r, L);
    case ReadAgain(r) => ReadAgainOk(s, reader, r, L);
    case Send(r) => SendOk(s, reader, r);
    case SendGone(r) => SendOk(s, reader, r);
    case Deliver(r) => DeliverOk(s, reader, r);
    case _ => ConnectionOk(s, reader, a);
  }

  lemma NothingReceived(c: Client)
    ensures ReceiveAll(c, []) == c
  {
  }

  lemma ReaderOkAfterGrowth(s: State, s': State, reader: Reader)
    requires Grows(s, s') && ReaderOk(s, reader)
    requires s'.entry.None? ==>
               && s.entry.Some? && s.lives != [] && s'.lives == s.lives + [""]
               && EntryOrNone(s).End() == |s.lives[Current(s)]|
    ensures s'.entry.Some? ==> ReaderOk(s', WakeUp(reader))
    ensures s'.entry.None? ==> ReaderOk(s', reader)
  {
    hide Faithful, Grows;
    FaithfulAlongStable(s, s', reader.client, reader.flight);
    if reader.phase.Sending? {
      FaithfulStable(s, s', Receive(CaughtUp(reader), reader.phase.event));
    }
  }

  lemma NewReaderOk(s: State)
    requires s.lives != []
    ensures ReaderOk(s, NEW_READER)
  {
    assert SliceOf(s, "", 0, 0, 0);
  }

  lemma StepKeepsInvariant(s: State, a: Action, L: Limits)
    requires Invariant(s, L)
    ensures Invariant(Step(s, a, L), L)
  {
    hide LogOk, ReaderOk, ReaderStep, Grows;
    match a
    case Append(text) =>
      AppendGrows(s, text, L);
      forall r | r in s.readers { ReaderOkAfterGrowth(s, Appended(s, text, L), s.readers[r]); }
    case Evict =>
      if s.entry.Some? {
        EvictGrows(s, L);
        forall r | r in s.readers {
          ReaderOkAfterGrowth(s, s.(lives := s.lives + [""], entry := None), s.readers[r]);
        }
      }
    case _ =>
      NewReaderOk(s);
      ReaderStepOk(s, if a.r in s.readers then s.readers[a.r] else NEW_READER, a, L);
      var s' := Step(s, a, L);
      SameLog(s, s', NEW_READER, L);
      forall r | r in s'.readers
        ensures ReaderOk(s', s'.readers[r])
      {
        SameLog(s, s', s'.readers[r], L);
      }
  }

  /** What the invariant says of a reader does not depend on the other readers. */
  lemma SameLog(s: State, s': State, reader: Reader, L: Limits)
    requires s'.lives == s.lives != [] && s'.entry == s.entry
    ensures LogOk(s, L) ==> LogOk(s', L)
    ensures ReaderOk(s, reader) ==> ReaderOk(s', reader)
  {
    hide Faithful;
    if ReaderOk(s, reader) {
      FaithfulAlongStable(s, s', reader.client, reader.flight);
      if reader.phase.Sending? {
        FaithfulStable(s, s', Receive(CaughtUp(reader), reader.phase.event));
      }
    }
  }

  // ----- whole runs -------------------------------------------------------------------------

  lemma {:induction false} RunKeepsInvariant(actions: seq<Action>, L: Limits)
    ensures Invariant(Run(actions, L), L)
  {
    hide Invariant, Step;
    if actions == [] {
      InitOk(L);
    } else {
      RunKeepsInvariant(actions[..|actions| - 1], L);
      StepKeepsInvariant(Run(actions[..|actions| - 1], L), actions[|actions| - 1], L);
    }
  }

  lemma InitOk(L: Limits)
    ensures Invariant(INIT, L)
  {
  }

  /** In every interleaving of appends, evictions, wake-ups, disconnects and reconnects, a client
      that has not been given text of two lifetimes holds exactly one lifetime's bytes from some
      point, no later than the start of the current window, up to its last event id. */
  lemma ReaderFidelity(actions: seq<Action>, L: Limits, r: ReaderId)
    requires r in Run(actions, L).readers
    requires Run(actions, L).readers[r].client.faithful
    ensures var s := Run(actions, L);
            var c := s.readers[r].client;
            exists from :: SliceOf(s, c.view, c.life, c.lastId, from)
  {
    hide LogOk, Run;
    RunKeepsInvariant(actions, L);
    var reader := Run(actions, L).readers[r];
    assert FaithfulAlong(Run(actions, L), reader.client, reader.flight);
  }

  /** A reader waiting in select with an empty wake slot has read everything appended. Only if the
      service has been evicted and not recreated is this the end of the last lifetime. */
  lemma NoLostWakeUp(actions: seq<Action>, L: Limits, r: ReaderId)
    requires r in Run(actions, L).readers
    requires var reader := Run(actions, L).readers[r]; reader.phase.Parked? && !reader.wake
    ensures var s := Run(actions, L);
            || s.readers[r].offset == EntryOrNone(s).End() == |s.lives[Current(s)]|
            || (&& s.entry.None? && |s.lives| > 1 && s.lives[Current(s)] == ""
                && s.readers[r].offset == |s.lives[Current(s) - 1]|)
  {
    hide LineCount, Run;
    RunKeepsInvariant(actions, L);
  }

  /** A signal can be served at once and without anybody's help: three steps of the handler bring it
      back to its select with everything read, and the client's last id, once the events in flight
      have arrived, to the end of the log. */
  lemma SignalIsServed(s: State, r: ReaderId, L: Limits)
    requires Invariant(s, L) && r in s.readers && s.readers[r].phase.Parked? && s.readers[r].wake
    ensures var s' := Step(Step(Step(s, TakeWake(r), L), ReadAgain(r), L), Send(r), L);
            var reader := s'.readers[r];
            && reader.phase.Parked? && !reader.wake
            && reader.offset == EntryOrNone(s).End() == CaughtUp(reader).lastId
  {
    hide LogOk, ReaderOk, FaithfulAlong, Faithful, Read, NothingNew, ReceiveAll;
    var s1 := Step(s, TakeWake(r), L);
    var s2 := Step(s1, ReadAgain(r), L);
    var s3 := Step(s2, Send(r), L);
    StepKeepsInvariant(s, TakeWake(r), L);
    StepKeepsInvariant(s1, ReadAgain(r), L);
    StepKeepsInvariant(s2, Send(r), L);
    ParkedIsCurrent(s3, r, L);
    assert s3.readers[r].phase.Parked? && !s3.readers[r].wake;
    if NothingNew(s1, s1.readers[r].offset) {
      NothingNewMeansCurrent(s1, s1.readers[r].offset, L);
    } else {
      ReadYields(s1, s1.readers[r].offset, false, L);
    }
  }

  lemma ParkedIsCurrent(s: State, r: ReaderId, L: Limits)
    requires Invariant(s, L) && r in s.readers && s.readers[r].phase.Parked?
    ensures CaughtUp(s.readers[r]).lastId == s.readers[r].offset
  {
    assert ReaderOk(s, s.readers[r]);
  }

  /** Likewise for a connection: three steps after the request the handler is in its select. */
  lemma ConnectionIsServed(s: State, r: ReaderId, L: Limits)
    requires Invariant(s, L) && r in s.readers && s.readers[r].phase.Off?
    ensures var s' := Step(Step(Step(s, Connect(r), L), FirstRead(r), L), Send(r), L);
            var reader := s'.readers[r];
            && reader.phase.Parked? && !reader.wake
            && reader.offset == EntryOrNone(s).End() == CaughtUp(reader).lastId
  {
    hide LogOk, ReaderOk, FaithfulAlong, Faithful, Read, ReceiveAll;
    var s1 := Step(s, Connect(r), L);
    var s2 := Step(s1, FirstRead(r), L);
    var s3 := Step(s2, Send(r), L);
    StepKeepsInvariant(s, Connect(r), L);
    StepKeepsInvariant(s1, FirstRead(r), L);
    StepKeepsInvariant(s2, Send(r), L);
    ParkedIsCurrent(s3, r, L);
    ReadYields(s1, s1.readers[r].offset, s1.readers[r].offset == 0, L);
  }

  // ----- the end of a stream ----------------------------------------------------------------

  /** A "gone" event is the last one of its stream, and its handler has returned. */
  predicate GoneIsLast(reader: Reader) {
    && (forall i | 0 <= i < |reader.flight| && reader.flight[i].kind == Gone ::
          i == |reader.flight| - 1 && reader.phase.Off?)
    && (reader.phase.Sending? ==> reader.phase.event.kind != Gone)
  }

  lemma GoneStaysLast(s: State, reader: Reader, a: Action)
    requires s.lives != [] && GoneIsLast(reader)
    ensures GoneIsLast(ReaderStep(s, reader, a)) && GoneIsLast(WakeUp(reader))
  {
    hide NothingNew;
  }

  /** The step is one of reader r's handler, connection or client. */
  predicate About(a: Action, r: ReaderId) {
    !a.Append? && !a.Evict? && a.r == r
  }

  /** What a step does to one reader. */
  lemma StepOnReader(s: State, a: Action, L: Limits, r: ReaderId)
    requires s.lives != []
    ensures var s', reader := Step(s, a, L), if r in s.readers then s.readers[r] else NEW_READER;
            && (r in s'.readers <==> r in s.readers || About(a, r))
            && (r in s'.readers ==>
                  s'.readers[r] == if About(a, r) then ReaderStep(s, reader, a)
                                   else if a.Append? then WakeUp(reader) else reader)
  {
    hide ReaderStep, WakeUp, Extended;
  }

  /** In every run nothing is in flight behind a "gone", whose handler has ended. */
  lemma {:induction false} GoneEndsStream(actions: seq<Action>, L: Limits, r: ReaderId)
    requires r in Run(actions, L).readers
    ensures GoneIsLast(Run(actions, L).readers[r])
  {
    if actions != [] {
      hide GoneIsLast, ReaderStep, WakeUp, Step;
      var init, last := actions[..|actions| - 1], actions[|actions| - 1];
      var s := Run(init, L);
      StepOnReader(s, last, L, r);
      NoGoneYet();
      if r in s.readers { GoneEndsStream(init, L, r); }
      GoneStaysLast(s, if r in s.readers then s.readers[r] else NEW_READER, last);
    }
  }

  lemma NoGoneYet()
    ensures GoneIsLast(NEW_READER)
  {
  }

  /** When the mapping is gone, the parked handler sends one more event, with the offset it had, and
      returns. */
  lemma SendGoneEnds(s: State, r: ReaderId, L: Limits)
    requires s.lives != [] && r in s.readers && s.readers[r].phase.Parked?
    ensures var reader, reader' := s.readers[r], Step(s, SendGone(r), L).readers[r];
            && reader'.phase.Off? && reader'.client == reader.client
            && reader'.flight == reader.flight + [Event(Gone, reader.offset, "", reader.life)]
  {
  }

  /** v is a piece of w. */
  predicate PieceOf(v: seq<Event>, w: seq<Event>, i: nat, j: nat) {
    i <= j <= |w| && v == w[i..j]
  }

  lemma OffStep(s: State, reader: Reader, a: Action)
    requires s.lives != [] && reader.phase.Off? && !a.Connect?
    ensures var reader' := ReaderStep(s, reader, a);
            reader'.phase.Off? && exists i, j :: PieceOf(reader'.flight, reader.flight, i, j)
  {
    var reader' := ReaderStep(s, reader, a);
    assert PieceOf(reader.flight, reader.flight, 0, |reader.flight|);
    if reader.flight != [] { assert PieceOf(reader.flight[1..], reader.flight, 1, |reader.flight|); }
    if a.Disconnect? && a.kept <= |reader.flight| {
      assert PieceOf(reader'.flight, reader.flight, 0, a.kept);
    }
  }

  /** And until the client connects again, nothing is added to what is in flight. */
  lemma {:induction false} NothingAfterTheEnd(pre: seq<Action>, post: seq<Action>, L: Limits, r: ReaderId)
    requires r in Run(pre, L).readers && Run(pre, L).readers[r].phase.Off?
    requires Connect(r) !in post
    ensures r in Run(pre + post, L).readers
    ensures var reader, reader' := Run(pre, L).readers[r], Run(pre + post, L).readers[r];
            reader'.phase.Off? && exists i, j :: PieceOf(reader'.flight, reader.flight, i, j)
  {
    var reader := Run(pre, L).readers[r];
    if post == [] {
      assert pre + post == pre;
      assert PieceOf(reader.flight, reader.flight, 0, |reader.flight|);
    } else {
      hide ReaderStep, WakeUp, Extended, PieceOf;
      var init, last := post[..|post| - 1], post[|post| - 1];
      assert post == init + [last] && pre + post == pre + init + [last];
      NothingAfterTheEnd(pre, init, L, r);
      var s := Run(pre + init, L);
      RunSnoc(pre + init, last, L);
      StepOnReader(s, last, L, r);
      assert s.readers[r].phase.Off?;
      var i: nat, j: nat :| PieceOf(s.readers[r].flight, reader.flight, i, j);
      if About(last, r) {
        OffStep(s, s.readers[r], last);
        var k: nat, l: nat :| PieceOf(ReaderStep(s, s.readers[r], last).flight, s.readers[r].flight, k, l);
        PieceOfPiece(ReaderStep(s, s.readers[r], last).flight, s.readers[r].flight, reader.flight, i, j, k, l);
      } else {
        OffNotWoken(s.readers[r]);
      }
    }
  }

  lemma PieceOfPiece(u: seq<Event>, v: seq<Event>, w: seq<Event>, i: nat, j: nat, k: nat, l: nat)
    requires PieceOf(v, w, i, j) && PieceOf(u, v, k, l)
    ensures PieceOf(u, w, i + k, i + l)
  {
    assert |v| == j - i && i + l <= |w|;
    assert forall n | 0 <= n < |v| :: v[n] == w[i + n];
    assert forall n | 0 <= n < l - k :: u[n] == v[k + n] == w[i + k + n];
  }

  lemma OffNotWoken(reader: Reader)
    requires reader.phase.Off?
    ensures WakeUp(reader) == reader
  {
  }

  // ----- one lifetime -----------------------------------------------------------------------

  function TextsOf(actions: seq<Action>): seq<string> {
    if actions == [] then []
    else
      var init, last := actions[..|actions| - 1], actions[|actions| - 1];
      if last.Append? then TextsOf(init) + [last.text] else TextsOf(init)
  }

  /** The reader first connected in the given lifetime: it has seen that lifetime only, or nothing
      yet. */
  predicate OfLife(reader: Reader, life: nat) {
    && reader.client.faithful
    && (forall e | e in reader.flight :: e.life == life)
    && (reader.phase.Sending? ==> reader.phase.event.life == life && reader.phase.event.kind != Gone)
    && (reader.phase.Parked? || reader.phase.Woken? ==> reader.life == life)
    && (reader.client.life != life ==>
          && reader.client == NEW_CLIENT
          && (reader.flight != [] ==> reader.flight[0].kind != Gone)
          && (reader.phase.Parked? || reader.phase.Woken? ==> reader.flight != []))
  }

  lemma NewReaderOfLife(life: nat)
    ensures OfLife(NEW_READER, life)
  {
  }

  lemma OfLifeStep(s: State, reader: Reader, a: Action)
    requires s.lives != [] && OfLife(reader, Current(s))
    ensures OfLife(ReaderStep(s, reader, a), Current(s))
  {
  }

  predicate OneLife(s: State) {
    |s.lives| == 1 && forall r | r in s.readers :: OfLife(s.readers[r], 0)
  }

  lemma OneLifeInit()
    ensures OneLife(INIT)
  {
  }

  lemma OneLifeStep(s: State, a: Action, L: Limits)
    requires OneLife(s) && !a.Evict?
    ensures OneLife(Step(s, a, L))
  {
    hide Extended, ReaderStep, OfLife;
    NewReaderOfLife(0);
    if a.Append? {
      forall r | r in s.readers { WokenOfLife(s.readers[r], 0); }
    } else {
      OfLifeStep(s, if a.r in s.readers then s.readers[a.r] else NEW_READER, a);
    }
  }

  lemma WokenOfLife(reader: Reader, life: nat)
    requires OfLife(reader, life)
    ensures OfLife(WakeUp(reader), life)
  {
  }

  /** s' is s after more was appended to the current lifetime, without an eviction. */
  predicate SameLife(s: State, s': State, more: string) {
    s.lives != [] && s'.lives == s.lives[Current(s) := s.lives[Current(s)] + more]
  }

  predicate AllOfLife(s: State, s': State) {
    s.lives != [] && forall r | r in s'.readers && r !in s.readers :: OfLife(s'.readers[r], Current(s))
  }

  lemma SameLifeStep(s: State, s1: State, more: string, a: Action, L: Limits)
    requires SameLife(s, s1, more) && AllOfLife(s, s1) && s.readers.Keys <= s1.readers.Keys && !a.Evict?
    ensures var s2 := Step(s1, a, L);
            && SameLife(s, s2, if a.Append? then more + a.text else more)
            && AllOfLife(s, s2) && s.readers.Keys <= s2.readers.Keys
  {
    hide Extended, ReaderStep, OfLife;
    NewReaderOfLife(Current(s));
    if a.Append? {
      forall r | r in s1.readers && r !in s.readers { WokenOfLife(s1.readers[r], Current(s)); }
      assert s.lives[Current(s)] + more + a.text == s.lives[Current(s)] + (more + a.text);
    } else if a.r !in s.readers {
      OfLifeStep(s1, if a.r in s1.readers then s1.readers[a.r] else NEW_READER, a);
    }
  }

  lemma {:induction false} RunWithoutEviction(pre: seq<Action>, post: seq<Action>, L: Limits)
    requires Evict !in post
    ensures SameLife(Run(pre, L), Run(pre + post, L), Concat(TextsOf(post)))
    ensures AllOfLife(Run(pre, L), Run(pre + post, L))
    ensures Run(pre, L).readers.Keys <= Run(pre + post, L).readers.Keys
  {
    if post == [] {
      assert pre + post == pre;
      var s := Run(pre, L);
      assert s.lives[Current(s)] + "" == s.lives[Current(s)];
    } else {
      hide Run, SameLife, AllOfLife;
      var init, last := post[..|post| - 1], post[|post| - 1];
      assert post == init + [last] && pre + init + [last] == pre + post;
      RunWithoutEviction(pre, init, L);
      RunSnoc(pre + init, last, L);
      SameLifeStep(Run(pre, L), Run(pre + init, L), Concat(TextsOf(init)), last, L);
      if last.Append? {
        assert TextsOf(post)[..|TextsOf(init)|] == TextsOf(init);
      }
    }
  }

  /** Everything appended in the current lifetime. */
  function History(s: State): string
    requires s.lives != []
  {
    s.lives[Current(s)]
  }

  /** A client that first connects after pre holds exactly H[from..id] as long as the entry is not
      evicted, where H is all the output of the lifetime, its beginning in pre included, id the
      client's last event id, and from within what the window dropped. */
  lemma ReaderFidelityWithoutEviction(pre: seq<Action>, post: seq<Action>, L: Limits, r: ReaderId)
    requires Evict !in post
    requires r !in Run(pre, L).readers && r in Run(pre + post, L).readers
    ensures var s, H := Run(pre + post, L), History(Run(pre, L)) + Concat(TextsOf(post));
            && History(s) == H
            && HoldsFrom(s.readers[r].client, H, EntryOrNone(s).start)
  {
    hide Run, OfLife, SliceOf, SameLife, AllOfLife;
    RunWithoutEviction(pre, post, L);
    RunKeepsInvariant(pre + post, L);
    SameLifeHistory(Run(pre, L), Run(pre + post, L), Concat(TextsOf(post)), r);
    OfLifeHolds(Run(pre + post, L), r, L);
  }

  lemma SameLifeHistory(s: State, s': State, more: string, r: ReaderId)
    requires SameLife(s, s', more) && AllOfLife(s, s') && r in s'.readers && r !in s.readers
    ensures s'.lives != [] && History(s') == History(s) + more && OfLife(s'.readers[r], Current(s'))
  {
  }

  lemma OfLifeHolds(s: State, r: ReaderId, L: Limits)
    requires Invariant(s, L) && r in s.readers && OfLife(s.readers[r], Current(s))
    ensures HoldsFrom(s.readers[r].client, History(s), EntryOrNone(s).start)
  {
    var c := s.readers[r].client;
    assert FaithfulAlong(s, c, s.readers[r].flight) && Faithful(s, c);
    var from: nat :| SliceOf(s, c.view, c.life, c.lastId, from);
    assert c.life == Current(s) ==> Between(c.view, History(s), from, c.lastId);
    assert c.life != Current(s) ==> Between(c.view, History(s), 0, 0);
  }

  /** c holds H[from..id] for some from no later than limit, id being its last event id. */
  ghost predicate HoldsFrom(c: Client, H: string, limit: nat) {
    exists from: nat :: from <= limit && Between(c.view, H, from, c.lastId)
  }

  predicate Between(v: string, H: string, from: nat, to: nat) {
    from <= to <= |H| && v == H[from..to]
  }

  /** Once its connection is parked with nothing pending and nothing in flight, it is up to date: its
      text ends with the whole retained window. */
  lemma QuiescentClientIsCurrent(pre: seq<Action>, post: seq<Action>, L: Limits, r: ReaderId)
    requires Evict !in post
    requires r !in Run(pre, L).readers && r in Run(pre + post, L).readers
    requires var reader := Run(pre + post, L).readers[r];
             reader.phase.Parked? && !reader.wake && reader.flight == []
    ensures var s, H := Run(pre + post, L), History(Run(pre, L)) + Concat(TextsOf(post));
            && SuffixFrom(EntryOrNone(s).buf, H, EntryOrNone(s).start)
            && exists from: nat :: from <= EntryOrNone(s).start && SuffixFrom(s.readers[r].client.view, H, from)
  {
    hide Run, LogOk, ReaderOk, HoldsFrom, TextsOf, Concat;
    ReaderFidelityWithoutEviction(pre, post, L, r);
    RunKeepsInvariant(pre + post, L);
    WindowOfHistory(Run(pre + post, L), L);
    if Run(pre + post, L).entry.Some? { NoLostWakeUp(pre + post, L, r); }
    ParkedIsCurrent(Run(pre + post, L), r, L);
    HoldsToTheEnd(Run(pre + post, L).readers[r].client, History(Run(pre + post, L)),
                  EntryOrNone(Run(pre + post, L)).start);
  }

  predicate SuffixFrom(v: string, H: string, from: nat) {
    from <= |H| && v == H[from..]
  }

  lemma WindowOfHistory(s: State, L: Limits)
    requires Invariant(s, L)
    ensures SuffixFrom(EntryOrNone(s).buf, History(s), EntryOrNone(s).start)
  {
  }

  lemma HoldsToTheEnd(c: Client, H: string, limit: nat)
    requires HoldsFrom(c, H, limit) && (c.lastId == |H| || H == "")
    ensures exists from: nat :: from <= limit && SuffixFrom(c.view, H, from)
  {
    var from: nat :| from <= limit && Between(c.view, H, from, c.lastId);
    assert SuffixFrom(c.view, H, from);
  }

  // ----- across lifetimes -------------------------------------------------------------------

  /** The first event of a client without an id is a reset with the whole window. */
  lemma FreshClientIsReset(s: State, reader: Reader, r: ReaderId, L: Limits)
    requires LogOk(s, L) && reader.phase.Subscribed? && reader.offset == 0
    ensures ReaderStep(s, reader, FirstRead(r)).phase ==
            Sending(Event(Reset, |History(s)|, EntryOrNone(s).buf, Current(s)))
  {
    hide LineCount, Boundary, OneLongLine;
  }

  /** The client holds text of its lifetime from some point, no later than the window's start if the
      lifetime is the current one, up to its last event id. */
  ghost predicate Correct(s: State, c: Client) {
    exists from :: SliceOf(s, c.view, c.life, c.lastId, from)
  }

  /** The handler is about to make this read. */
  predicate Reads(reader: Reader, a: Action) {
    (a.FirstRead? && reader.phase.Subscribed?) || (a.ReadAgain? && reader.phase.Woken?)
  }

  /** The read is answered with an append: the offset lies inside the window, and before its end if
      the read follows a wake-up. */
  predicate ReadsDelta(s: State, reader: Reader, a: Action) {
    && Reads(reader, a) && (a.FirstRead? ==> reader.offset != 0)
    && s.entry.Some? && s.entry.value.start <= reader.offset <= s.entry.value.End()
    && (a.ReadAgain? ==> reader.offset < s.entry.value.End())
  }

  /** The text is what precedes the offset, from some point no later than start. */
  predicate Precedes(view: string, H: string, offset: nat, start: nat) {
    |view| <= offset <= |H| && view == H[offset - |view|..offset] && offset - |view| <= start
  }

  /** The read appends to text that does not precede what is appended. */
  predicate MixingRead(s: State, reader: Reader, a: Action)
    requires s.lives != []
  {
    ReadsDelta(s, reader, a)
    && !Precedes(CaughtUp(reader).view, History(s), reader.offset, EntryOrNone(s).start)
  }

  lemma AppendedIsSlice(s: State, view: string, offset: nat)
    requires s.lives != [] && offset <= |History(s)|
    ensures var H := History(s);
            (exists from :: SliceOf(s, view + H[offset..], Current(s), |H|, from)) <==>
            Precedes(view, H, offset, EntryOrNone(s).start)
  {
    var H := History(s);
    var text := view + H[offset..];
    if Precedes(view, H, offset, EntryOrNone(s).start) {
      var from := offset - |view|;
      assert H[from..offset] + H[offset..] == H[from..|H|];
      assert SliceOf(s, text, Current(s), |H|, from);
    }
    if from: nat :| SliceOf(s, text, Current(s), |H|, from) {
      assert |text| == |H| - from;
      assert view == text[..|view|] == H[from..offset];
    }
  }

  /** When a read sends something, and whether it is an append. */
  lemma ReadSends(s: State, reader: Reader, a: Action, L: Limits)
    requires LogOk(s, L)
    requires Reads(reader, a)
    ensures var phase, H := ReaderStep(s, reader, a).phase, History(s);
            && EntryOrNone(s).start <= |H|
            && (ReadsDelta(s, reader, a) ==>
                  && phase.Sending? && reader.offset <= |H|
                  && phase.event == Event(Delta, |H|, H[reader.offset..], Current(s)))
            && (!ReadsDelta(s, reader, a) && phase.Sending? ==>
                  phase.event == Event(Reset, |H|, H[EntryOrNone(s).start..], Current(s)))
  {
    hide LineCount, Boundary, OneLongLine;
    if s.entry.Some? && s.entry.value.start <= reader.offset <= s.entry.value.End() {
      assert |s.entry.value.buf[reader.offset - s.entry.value.start..]| == s.entry.value.End() - reader.offset;
    }
  }

  /** After a read the client, once everything sent has arrived, holds what it should if and only if
      the read is not a mixing one, whatever the client held before. */
  lemma ReadKeepsClientCorrect(s: State, reader: Reader, a: Action, L: Limits)
    requires LogOk(s, L) && Synced(reader)
    requires Reads(reader, a)
    ensures var phase := ReaderStep(s, reader, a).phase;
            (phase.Sending? ==> Correct(s, Receive(CaughtUp(reader), phase.event))) <==> !MixingRead(s, reader, a)
  {
    ReadSends(s, reader, a, L);
    var c, phase, H := CaughtUp(reader), ReaderStep(s, reader, a).phase, History(s);
    hide LogOk, ReceiveAll, ReaderStep, ReadsDelta, Precedes, SliceOf;
    if ReadsDelta(s, reader, a) {
      AppendedIsSlice(s, c.view, reader.offset);
    } else {
      WindowIsSlice(s);
    }
  }

  lemma WindowIsSlice(s: State)
    requires s.lives != [] && EntryOrNone(s).start <= |History(s)|
    ensures SliceOf(s, History(s)[EntryOrNone(s).start..], Current(s), |History(s)|, EntryOrNone(s).start)
  {
  }

  /** Such a read only happens at an offset of an ended lifetime, if the client's text was right. */
  lemma MixingReadIsStale(s: State, reader: Reader, a: Action)
    requires s.lives != [] && Synced(reader) && Correct(s, CaughtUp(reader)) && MixingRead(s, reader, a)
    ensures reader.life != Current(s) && reader.offset != 0
  {
    hide ReceiveAll;
    var c := CaughtUp(reader);
    var from: nat :| SliceOf(s, c.view, c.life, c.lastId, from);
  }

  /** The client is correct and stays so with each event in flight. */
  ghost predicate CorrectAlong(s: State, c: Client, flight: seq<Event>)
    decreases |flight|
  {
    Correct(s, c) && (flight != [] ==> CorrectAlong(s, Receive(c, flight[0]), flight[1..]))
  }

  /** And with the event about to be sent. */
  ghost predicate CorrectReader(s: State, reader: Reader) {
    && CorrectAlong(s, reader.client, reader.flight)
    && (reader.phase.Sending? ==> Correct(s, Receive(CaughtUp(reader), reader.phase.event)))
  }

  ghost predicate AllCorrect(s: State) {
    forall r | r in s.readers :: CorrectReader(s, s.readers[r])
  }

  lemma {:induction false} CorrectSnoc(s: State, c: Client, flight: seq<Event>, e: Event)
    requires CorrectAlong(s, c, flight) && Correct(s, Receive(ReceiveAll(c, flight), e))
    ensures CorrectAlong(s, c, flight + [e])
    decreases |flight|
  {
    hide Correct;
    if flight == [] {
      assert CorrectAlong(s, Receive(c, e), [e][1..]);
    } else {
      assert (flight + [e])[1..] == flight[1..] + [e];
      CorrectSnoc(s, Receive(c, flight[0]), flight[1..], e);
    }
  }

  /** Any beginning of what is in flight leaves the client correct. */
  lemma {:induction false} CorrectPrefix(s: State, c: Client, flight: seq<Event>, k: nat)
    requires CorrectAlong(s, c, flight) && k <= |flight|
    ensures CorrectAlong(s, c, flight[..k]) && Correct(s, ReceiveAll(c, flight[..k]))
    decreases |flight|
  {
    hide Correct;
    if k > 0 {
      assert flight[..k][1..] == flight[1..][..k - 1];
      CorrectPrefix(s, Receive(c, flight[0]), flight[1..], k - 1);
    }
  }

  lemma CorrectStable(s: State, s': State, c: Client)
    requires Grows(s, s') && Correct(s, c)
    ensures Correct(s', c)
  {
    var from: nat :| SliceOf(s, c.view, c.life, c.lastId, from);
    assert SliceOf(s', c.view, c.life, c.lastId, from);
  }

  lemma {:induction false} CorrectAlongStable(s: State, s': State, c: Client, flight: seq<Event>)
    requires Grows(s, s') && CorrectAlong(s, c, flight)
    ensures CorrectAlong(s', c, flight)
    decreases |flight|
  {
    hide Correct, Grows;
    CorrectStable(s, s', c);
    if flight != [] {
      CorrectAlongStable(s, s', Receive(c, flight[0]), flight[1..]);
    }
  }

  lemma CorrectReaderStable(s: State, s': State, reader: Reader)
    requires Grows(s, s') && CorrectReader(s, reader)
    ensures CorrectReader(s', reader) && CorrectReader(s', WakeUp(reader))
  {
    hide Correct, Grows, CorrectAlong, ReceiveAll;
    CorrectAlongStable(s, s', reader.client, reader.flight);
    if reader.phase.Sending? {
      CorrectStable(s, s', Receive(CaughtUp(reader), reader.phase.event));
    }
  }

  lemma CorrectAtEnd(s: State, reader: Reader)
    requires CorrectReader(s, reader)
    ensures Correct(s, CaughtUp(reader)) && CorrectAlong(s, reader.client, [])
  {
    hide Correct;
    CorrectPrefix(s, reader.client, reader.flight, |reader.flight|);
    CorrectPrefix(s, reader.client, reader.flight, 0);
    assert reader.flight[..|reader.flight|] == reader.flight;
  }

  lemma OtherStepCorrect(s: State, reader: Reader, a: Action)
    requires s.lives != [] && ReaderOk(s, reader) && CorrectReader(s, reader)
    requires a.Connect? || a.TakeWake? || a.Send? || a.SendGone? || a.Disconnect?
    ensures CorrectReader(s, ReaderStep(s, reader, a))
  {
    CorrectAtEnd(s, reader);
    var gone := Event(Gone, reader.offset, "", reader.life);
    if a.SendGone? && reader.phase.Parked? {
      GoneChangesNothing(CaughtUp(reader), gone);
      CorrectSnoc(s, reader.client, reader.flight, gone);
    } else if a.Send? && reader.phase.Sending? {
      CorrectSnoc(s, reader.client, reader.flight, reader.phase.event);
    } else if a.Disconnect? && a.kept <= |reader.flight| {
      CorrectPrefix(s, reader.client, reader.flight, a.kept);
    }
    hide ReaderOk, Correct, CorrectAlong, ReceiveAll;
  }

  lemma DeliverCorrect(s: State, reader: Reader, r: ReaderId)
    requires s.lives != [] && CorrectReader(s, reader)
    ensures CorrectReader(s, ReaderStep(s, reader, Deliver(r)))
  {
    hide Correct;
  }

  /** A read changes nothing but the phase, and nothing at all when the handler is not about to. */
  lemma ReadChangesPhase(s: State, reader: Reader, a: Action)
    requires s.lives != [] && (a.FirstRead? || a.ReadAgain?)
    ensures var reader' := ReaderStep(s, reader, a);
            && reader' == reader.(phase := reader'.phase)
            && (!Reads(reader, a) ==> reader' == reader && !ReadsDelta(s, reader, a))
  {
    hide Read, NothingNew;
  }

  lemma ReadCorrect(s: State, reader: Reader, a: Action, L: Limits)
    requires LogOk(s, L) && ReaderOk(s, reader) && CorrectReader(s, reader)
    requires a.FirstRead? || a.ReadAgain?
    ensures CorrectReader(s, ReaderStep(s, reader, a)) <==> !MixingRead(s, reader, a)
  {
    ReadChangesPhase(s, reader, a);
    if Reads(reader, a) {
      assert Synced(reader);
      ReadKeepsClientCorrect(s, reader, a, L);
    }
    hide LogOk, ReaderOk, ReaderStep, Reads, ReadsDelta, Correct, CorrectAlong, ReceiveAll, Receive, Precedes;
  }

  predicate Mixes(s: State, a: Action)
    requires s.lives != []
  {
    (a.FirstRead? || a.ReadAgain?) && a.r in s.readers && MixingRead(s, s.readers[a.r], a)
  }

  lemma ReaderStepCorrect(s: State, reader: Reader, a: Action, L: Limits)
    requires LogOk(s, L) && ReaderOk(s, reader) && CorrectReader(s, reader) && !a.Append? && !a.Evict?
    ensures CorrectReader(s, ReaderStep(s, reader, a)) <==>
            !((a.FirstRead? || a.ReadAgain?) && MixingRead(s, reader, a))
  {
    assert s.lives != [];
    hide LogOk, ReaderOk, CorrectReader, ReaderStep, MixingRead;
    match a
    case FirstRead(_) => ReadCorrect(s, reader, a, L);
    case ReadAgain(_) => ReadCorrect(s, reader, a, L);
    case Deliver(r) => DeliverCorrect(s, reader, r);
    case _ => OtherStepCorrect(s, reader, a);
  }

  lemma NewReaderCorrect(s: State, a: Action)
    requires s.lives != []
    ensures CorrectReader(s, NEW_READER) && !MixingRead(s, NEW_READER, a)
  {
    assert SliceOf(s, "", 0, 0, 0);
  }

  lemma LogStepCorrect(s: State, s': State)
    requires AllCorrect(s) && Grows(s, s') && s'.readers.Keys == s.readers.Keys
    requires forall r | r in s'.readers :: s'.readers[r] == s.readers[r] || s'.readers[r] == WakeUp(s.readers[r])
    ensures AllCorrect(s')
  {
    hide Grows, CorrectReader;
    forall r | r in s.readers { CorrectReaderStable(s, s', s.readers[r]); }
  }

  lemma SameLogCorrect(s: State, s': State, reader: Reader)
    requires s'.lives == s.lives != [] && s'.entry == s.entry
    ensures CorrectReader(s', reader) <==> CorrectReader(s, reader)
  {
    hide CorrectReader;
    if CorrectReader(s, reader) { CorrectReaderStable(s, s', reader); }
    if CorrectReader(s', reader) { CorrectReaderStable(s', s, reader); }
  }

  lemma AppendCorrect(s: State, text: string, L: Limits)
    requires Invariant(s, L) && AllCorrect(s)
    ensures AllCorrect(Step(s, Append(text), L))
  {
    AppendGrows(s, text, L);
    hide LogOk, ReaderOk, Grows, AllCorrect, Extended;
    LogStepCorrect(s, Step(s, Append(text), L));
  }

  lemma EvictCorrect(s: State, L: Limits)
    requires Invariant(s, L) && AllCorrect(s)
    ensures AllCorrect(Step(s, Evict, L))
  {
    if s.entry.Some? {
      EvictGrows(s, L);
      hide LogOk, ReaderOk, Grows, AllCorrect;
      LogStepCorrect(s, Step(s, Evict, L));
    }
  }

  lemma OneReaderChanged(s: State, id: ReaderId, reader: Reader)
    requires s.lives != [] && AllCorrect(s)
    ensures AllCorrect(s.(readers := s.readers[id := reader])) <==> CorrectReader(s, reader)
  {
    hide CorrectReader;
    var s' := s.(readers := s.readers[id := reader]);
    assert s'.readers[id] == reader;
    forall r | r in s'.readers
      ensures CorrectReader(s', s'.readers[r]) <==> CorrectReader(s, s'.readers[r])
    {
      SameLogCorrect(s, s', s'.readers[r]);
    }
  }

  lemma ReaderActionCorrect(s: State, a: Action, L: Limits)
    requires Invariant(s, L) && AllCorrect(s) && !a.Append? && !a.Evict?
    ensures AllCorrect(Step(s, a, L)) <==> !Mixes(s, a)
  {
    NewReaderCorrect(s, a);
    NewReaderOk(s);
    var reader := if a.r in s.readers then s.readers[a.r] else NEW_READER;
    assert CorrectReader(s, reader) && ReaderOk(s, reader);
    hide LogOk, ReaderOk, ReaderStep, CorrectReader, MixingRead, AllCorrect;
    ReaderStepCorrect(s, reader, a, L);
    OneReaderChanged(s, a.r, ReaderStep(s, reader, a));
  }

  /** Every step leaves all clients correct, now and with all that is in flight, unless it is a mixing
      read. */
  lemma StepCorrect(s: State, a: Action, L: Limits)
    requires Invariant(s, L) && AllCorrect(s)
    ensures AllCorrect(Step(s, a, L)) <==> !Mixes(s, a)
  {
    hide Invariant, AllCorrect, Step, MixingRead;
    match a
    case Append(text) => AppendCorrect(s, text, L);
    case Evict => EvictCorrect(s, L);
    case _ => ReaderActionCorrect(s, a, L);
  }

  ghost predicate NeverMixes(actions: seq<Action>, L: Limits) {
    forall k | 0 <= k < |actions| :: !Mixes(Run(actions[..k], L), actions[k])
  }

  lemma NeverMixesPrefix(actions: seq<Action>, L: Limits, k: nat)
    requires NeverMixes(actions, L) && k <= |actions|
    ensures NeverMixes(actions[..k], L)
  {
    hide Mixes, Run;
    forall i | 0 <= i < k
      ensures actions[..k][..i] == actions[..i] && actions[..k][i] == actions[i]
    {
    }
  }

  lemma {:induction false} CorrectRun(actions: seq<Action>, L: Limits)
    requires NeverMixes(actions, L)
    ensures AllCorrect(Run(actions, L))
  {
    hide Step, Mixes, CorrectReader, Invariant;
    if actions != [] {
      var n := |actions| - 1;
      NeverMixesPrefix(actions, L, n);
      CorrectRun(actions[..n], L);
      RunKeepsInvariant(actions[..n], L);
      StepCorrect(Run(actions[..n], L), actions[n], L);
    }
  }

  lemma MixingStep(actions: seq<Action>, L: Limits, k: nat)
    requires k < |actions| && AllCorrect(Run(actions[..k], L)) && Mixes(Run(actions[..k], L), actions[k])
    ensures !AllCorrect(Run(actions[..k + 1], L))
  {
    hide Step, Mixes, AllCorrect, Invariant, Run;
    RunSnoc(actions[..k], actions[k], L);
    assert actions[..k] + [actions[k]] == actions[..k + 1];
    RunKeepsInvariant(actions[..k], L);
    StepCorrect(Run(actions[..k], L), actions[k], L);
  }

  /** In a run, whatever is evicted and however clients come and go, every client is correct
      throughout, now and with all that is in flight, if and only if no read of the run is a mixing
      one. */
  lemma ReaderFidelityAcrossLifetimes(actions: seq<Action>, L: Limits)
    ensures (forall k | 0 <= k <= |actions| :: AllCorrect(Run(actions[..k], L))) <==> NeverMixes(actions, L)
  {
    hide Run, AllCorrect, Mixes;
    if NeverMixes(actions, L) {
      forall k | 0 <= k <= |actions|
        ensures AllCorrect(Run(actions[..k], L))
      {
        NeverMixesPrefix(actions, L, k);
        CorrectRun(actions[..k], L);
      }
    } else if forall k | 0 <= k <= |actions| :: AllCorrect(Run(actions[..k], L)) {
      var k: nat :| k < |actions| && Mixes(Run(actions[..k], L), actions[k]);
      MixingStep(actions, L, k);
    }
  }

  /** A run in which a restart mixes two lifetimes: the client's connection breaks, b is the output
      of the new lifetime, and the client comes back. */
  function ReconnectRun(a: string, b: string): seq<Action> {
    [Append(a), Connect(0), FirstRead(0), Send(0), Deliver(0),
     Disconnect(0, 0), Evict, Append(b),
     Connect(0), FirstRead(0), Send(0), Deliver(0)]
  }

  /** A run that mixes two lifetimes: a client holding a follows on after the service was evicted
      and b appended to its new entry. */
  function MixingRun(a: string, b: string): seq<Action> {
    [Append(a), Connect(0), FirstRead(0), Send(0), Deliver(0),
     Evict, Append(b), TakeWake(0), ReadAgain(0), Send(0), Deliver(0)]
  }

  lemma RunSnoc(actions: seq<Action>, a: Action, L: Limits)
    ensures Run(actions + [a], L) == Step(Run(actions, L), a, L)
  {
    assert (actions + [a])[..|actions|] == actions;
  }

  /** The handler's five steps from a connection at Last-Event-ID 0 to the delivered reset. */
  lemma FirstReset(s: State, L: Limits) returns (s': State)
    requires s.lives != [] && s.readers == map[]
    ensures s' == Step(Step(Step(Step(s, Connect(0), L), FirstRead(0), L), Send(0), L), Deliver(0), L)
    ensures s'.lives == s.lives && s'.entry == s.entry
    ensures var w, n := EntryOrNone(s).buf, EntryOrNone(s).End();
            EntryOrNone(s).start == 0 ==>
              s'.readers == map[0 := Reader(Parked, n, Current(s), false, [], Client(w, n, Current(s), true))]
  {
    var s1 := Step(s, Connect(0), L);
    var s2 := Step(s1, FirstRead(0), L);
    var s3 := Step(s2, Send(0), L);
    s' := Step(s3, Deliver(0), L);
    assert s1.readers == map[0 := Reader(Subscribed, 0, 0, false, [], NEW_CLIENT)];
    var e := Read(s, 0, true);
    assert s2.readers == map[0 := Reader(Sending(e), 0, 0, false, [], NEW_CLIENT)];
    assert [] + [e] == [e] && [e][1..] == [];
    assert s3.readers == map[0 := Reader(Parked, e.id, e.life, false, [e], NEW_CLIENT)];
    assert s'.readers == map[0 := Reader(Parked, e.id, e.life, false, [], Receive(NEW_CLIENT, e))];
  }

  /** And the four steps from a signal to the delivered append. */
  lemma NextDelta(s: State, L: Limits) returns (s': State)
    requires s.lives != [] && s.entry.Some? && 0 in s.readers
    requires var reader := s.readers[0];
             && reader.phase.Parked? && reader.wake && reader.flight == []
             && s.entry.value.start <= reader.offset < s.entry.value.End()
    ensures s' == Step(Step(Step(Step(s, TakeWake(0), L), ReadAgain(0), L), Send(0), L), Deliver(0), L)
    ensures s'.lives == s.lives && s'.entry == s.entry
    ensures var reader, e := s.readers[0], s.entry.value;
            && 0 in s'.readers
            && s'.readers[0].client ==
               Receive(reader.client, Event(Delta, e.End(), e.buf[reader.offset - e.start..], Current(s)))
  {
    var s1 := Step(s, TakeWake(0), L);
    var s2 := Step(s1, ReadAgain(0), L);
    var s3 := Step(s2, Send(0), L);
    s' := Step(s3, Deliver(0), L);
    var e, offset := s.entry.value, s.readers[0].offset;
    assert |e.buf[offset - e.start..]| == e.End() - offset;
  }

  /** Across an eviction fidelity can fail: with a = "ab" and b = "xyz" the client ends up with
      "abz", which is nobody's output. It fails exactly if b does not begin with a. */
  lemma EvictionCanMixLifetimes(a: string, b: string, L: Limits)
    requires 0 < |a| < |b| && |b| <= L.maxLines && |b| <= L.maxBytes
    ensures var s := Run(MixingRun(a, b), L);
            && s.lives == [a, b] && 0 in s.readers
            && s.readers[0].client == Client(a + b[|a|..], |b|, 1, false)
            && (Correct(s, s.readers[0].client) <==> a <= b)
            && (!(a <= b) ==> forall life, from :: !SliceOf(s, s.readers[0].client.view, life, |b|, from))
  {
    hide Step, Run;
    var p1 := [Append(a)];
    var p5 := p1 + [Connect(0), FirstRead(0), Send(0), Deliver(0)];
    var p7 := p5 + [Evict] + [Append(b)];
    assert [] + [Append(a)] == p1;
    RunEmpty(L);
    RunSnoc([], Append(a), L);
    MixingStart(a, L);
    RunFour(p1, Connect(0), FirstRead(0), Send(0), Deliver(0), L);
    var s5 := FirstReset(Run(p1, L), L);
    RunSnoc(p5, Evict, L);
    RunSnoc(p5 + [Evict], Append(b), L);
    MixingMiddle(s5, a, b, L);
    RunFour(p7, TakeWake(0), ReadAgain(0), Send(0), Deliver(0), L);
    var s11 := NextDelta(Run(p7, L), L);
    assert p7 + [TakeWake(0), ReadAgain(0), Send(0), Deliver(0)] == MixingRun(a, b);
    MixedText(s11, a, b);
  }

  /** In a window that starts with b, a followed by the end of b is right only if b begins with a. */
  lemma MixedText(s: State, a: string, b: string)
    requires s.lives == [a, b] && EntryOrNone(s).start == 0 && |a| <= |b|
    ensures forall from :: SliceOf(s, a + b[|a|..], 1, |b|, from) ==> a <= b
    ensures a <= b ==> SliceOf(s, a + b[|a|..], 1, |b|, 0)
    ensures |a| < |b| && !(a <= b) ==> forall life, from :: !SliceOf(s, a + b[|a|..], life, |b|, from)
  {
    var v := a + b[|a|..];
    assert v[..|a|] == a;
    forall from: nat | SliceOf(s, v, 1, |b|, from)
      ensures a <= b
    {
      assert v == b[0..|b|];
    }
  }

  lemma RunFour(actions: seq<Action>, a: Action, b: Action, c: Action, d: Action, L: Limits)
    ensures Run(actions + [a, b, c, d], L) ==
            Step(Step(Step(Step(Run(actions, L), a, L), b, L), c, L), d, L)
  {
    hide Step, Run;
    RunSnoc(actions, a, L);
    RunSnoc(actions + [a], b, L);
    RunSnoc(actions + [a] + [b], c, L);
    RunSnoc(actions + [a] + [b] + [c], d, L);
    assert actions + [a] + [b] + [c] + [d] == actions + [a, b, c, d];
  }

  lemma RunEmpty(L: Limits)
    ensures Run([], L) == INIT
  {
  }

  lemma AppendToFresh(text: string, used: nat, L: Limits)
    requires |text| <= L.maxLines && |text| <= L.maxBytes
    ensures Extended(NO_OUTPUT, text, used, L) == Entry(text, 0, used)
  {
    hide LineCount, TrimCut;
    LineCountAtMostLength(text);
    NoTrimNeeded(text, L);
    assert "" + text == text && text[0..] == text;
  }

  lemma MixingStart(a: string, L: Limits)
    requires |a| <= L.maxLines && |a| <= L.maxBytes
    ensures Step(INIT, Append(a), L) == State([a], Some(Entry(a, 0, 0)), map[])
  {
    hide Extended;
    AppendToFresh(a, 0, L);
    assert "" + a == a;
  }

  /** With a = "ab" and b = "xyz" a client that reconnects ends up with "abz"; with a = "ab" and
      b = "xy" it goes on showing "ab" as if that were the new output. Again this fails exactly if b
      does not begin with a. */
  lemma RestartCanMixLifetimes(a: string, b: string, L: Limits)
    requires 0 < |a| <= |b| && |b| <= L.maxLines && |b| <= L.maxBytes
    ensures var s := Run(ReconnectRun(a, b), L);
            && s.lives == [a, b] && 0 in s.readers
            && s.readers[0].client == Client(a + b[|a|..], |b|, 1, false)
            && (Correct(s, s.readers[0].client) <==> a <= b)
            && (!(a <= b) && |a| < |b| ==>
                  forall life, from :: !SliceOf(s, s.readers[0].client.view, life, |b|, from))
  {
    hide Step, Run;
    var p1 := [Append(a)];
    var p5 := p1 + [Connect(0), FirstRead(0), Send(0), Deliver(0)];
    var p8 := p5 + [Disconnect(0, 0)] + [Evict] + [Append(b)];
    assert [] + [Append(a)] == p1;
    RunEmpty(L);
    RunSnoc([], Append(a), L);
    MixingStart(a, L);
    RunFour(p1, Connect(0), FirstRead(0), Send(0), Deliver(0), L);
    var s5 := FirstReset(Run(p1, L), L);
    RunSnoc(p5, Disconnect(0, 0), L);
    RunSnoc(p5 + [Disconnect(0, 0)], Evict, L);
    RunSnoc(p5 + [Disconnect(0, 0)] + [Evict], Append(b), L);
    RestartMiddle(s5, a, b, L);
    RunFour(p8, Connect(0), FirstRead(0), Send(0), Deliver(0), L);
    var s12 := Resumed(Run(p8, L), L);
    assert p8 + [Connect(0), FirstRead(0), Send(0), Deliver(0)] == ReconnectRun(a, b);
    MixedText(s12, a, b);
  }

  lemma RestartMiddle(s: State, a: string, b: string, L: Limits)
    requires |b| <= L.maxLines && |b| <= L.maxBytes
    requires s.lives == [a] && s.entry.Some? && 0 in s.readers
    ensures var s' := Step(Step(Step(s, Disconnect(0, 0), L), Evict, L), Append(b), L);
            && s'.lives == [a, b] && s'.entry == Some(Entry(b, 0, 0))
            && 0 in s'.readers && s'.readers[0] == s.readers[0].(phase := Off, flight := [])
  {
    hide Extended;
    AppendToFresh(b, 0, L);
    assert "" + b == b;
  }

  /** The four steps from a connection at a Last-Event-ID inside the window to the delivered append. */
  lemma Resumed(s: State, L: Limits) returns (s': State)
    requires s.lives != [] && s.entry.Some? && 0 in s.readers
    requires var reader, e := s.readers[0], s.entry.value;
             && reader.phase.Off? && reader.flight == []
             && 0 < reader.client.lastId && e.start <= reader.client.lastId <= e.End()
    ensures s' == Step(Step(Step(Step(s, Connect(0), L), FirstRead(0), L), Send(0), L), Deliver(0), L)
    ensures s'.lives == s.lives && s'.entry == s.entry
    ensures var c, e := s.readers[0].client, s.entry.value;
            && 0 in s'.readers
            && s'.readers[0].client == Receive(c, Event(Delta, e.End(), e.buf[c.lastId - e.start..], Current(s)))
  {
    var s1 := Step(s, Connect(0), L);
    var s2 := Step(s1, FirstRead(0), L);
    var s3 := Step(s2, Send(0), L);
    s' := Step(s3, Deliver(0), L);
    var e, offset := s.entry.value, s.readers[0].client.lastId;
    assert |e.buf[offset - e.start..]| == e.End() - offset;
    var event := Event(Delta, e.End(), e.buf[offset - e.start..], Current(s));
    assert s2.readers[0].phase == Sending(event) && s2.readers[0].flight == [];
    assert s3.readers[0].flight == [event];
  }

  lemma MixingMiddle(s: State, a: string, b: string, L: Limits)
    requires |b| <= L.maxLines && |b| <= L.maxBytes
    requires s.lives == [a] && s.entry.Some? && 0 in s.readers && !s.readers[0].phase.Off?
    ensures var s' := Step(Step(s, Evict, L), Append(b), L);
            && s'.lives == [a, b] && s'.entry == Some(Entry(b, 0, 0))
            && 0 in s'.readers && s'.readers[0] == s.readers[0].(wake := true)
  {
    hide Extended;
    AppendToFresh(b, 0, L);
    assert "" + b == b;
  }

  // ----- the store, seen from one service ---------------------------------------------------

  /** The same retained output; use stamps matter to the store only. */
  predicate SameOutput(a: Option<Entry>, b: Option<Entry>) {
    match (a, b)
    case (Some(e), Some(f)) => e.buf == f.buf && e.start == f.start
    case (None, None) => true
    case _ => false
  }

  function Lookup(st: StoreVal, k: string): Option<Entry> {
    if k in st.entries then Some(st.entries[k]) else None
  }

  /** To the followers of service k, an Append to any service is an Append to k, the eviction of k,
      or nothing. */
  lemma StoreStepIsLogStep(st: StoreVal, key: string, text: string, st': StoreVal, k: string, s: State, L: Limits)
    requires AppendStep(st, key, text, st', L)
    requires s.lives != [] && SameOutput(s.entry, Lookup(st, k))
    ensures SameOutput(if k == key then Step(s, Append(text), L).entry
                       else if k in st'.entries then s.entry
                       else Step(s, Evict, L).entry,
                       Lookup(st', k))
  {
    hide AppendStep, TrimCut, Retention.Trimmed;
    AppendStepAt(st, key, text, st', k, L);
  }

  /** The appends and evictions among the actions. */
  function LogActions(actions: seq<Action>): seq<Action> {
    if actions == [] then []
    else
      var init, last := actions[..|actions| - 1], actions[|actions| - 1];
      if last.Append? || last.Evict? then LogActions(init) + [last] else LogActions(init)
  }

  predicate SameLogs(s: State, s': State) {
    s.lives != [] && s'.lives == s.lives && s'.entry == s.entry
  }

  lemma SameLogRefl(s: State)
    requires s.lives != []
    ensures SameLogs(s, s)
  {
  }

  lemma StepOnSameLog(s: State, s': State, a: Action, L: Limits)
    requires SameLogs(s, s')
    ensures if a.Append? || a.Evict? then SameLogs(Step(s, a, L), Step(s', a, L)) else SameLogs(Step(s, a, L), s')
  {
    hide Extended, ReaderStep;
  }

  /** Readers do not change the log. */
  lemma {:induction false} ReadersKeepLog(actions: seq<Action>, L: Limits)
    ensures SameLogs(Run(actions, L), Run(LogActions(actions), L))
  {
    hide SameLogs, Step;
    if actions == [] {
      SameLogRefl(INIT);
    } else {
      var init, last := actions[..|actions| - 1], actions[|actions| - 1];
      ReadersKeepLog(init, L);
      RunSnoc(LogActions(init), last, L);
      StepOnSameLog(Run(init, L), Run(LogActions(init), L), last, L);
    }
  }

  /** What the followers of service k see of a store whose stored services have the given
      lifetimes. */
  predicate SeenFrom(s: State, k: string, st: StoreVal, lives: Lives) {
    && SameOutput(s.entry, Lookup(st, k))
    && s.lives != [] && History(s) == if k in lives then Concat(lives[k]) else ""
  }

  lemma SeenStep(s: State, k: string, prev: StoreVal, before: Lives, op: Op, st: StoreVal, lives: Lives, L: Limits)
    requires SeenFrom(s, k, prev, before) && LastStep(prev, before, op, st, lives, L)
    ensures if k == op.key then SeenFrom(Step(s, Append(op.text), L), k, st, lives)
            else if k in prev.entries && k !in st.entries then SeenFrom(Step(s, Evict, L), k, st, lives)
            else SeenFrom(s, k, st, lives)
  {
    hide AppendStep, Extended, Concat;
    AppendStepAt(prev, op.key, op.text, st, k, L);
    StoreStepIsLogStep(prev, op.key, op.text, st, k, s, L);
    if k == op.key {
      ConcatSnoc(if k in before then before[k] else [], op.text);
    }
  }

  /** To the followers of one service, any run of Appends to any services is a run of appends to it
      and evictions of it, whatever the readers do in between: the entry holds the same output, and
      the current lifetime is the chunks of the store's. */
  lemma StoreRunIsLogRun(ops: seq<Op>, st: StoreVal, lives: Lives, k: string, L: Limits)
    returns (log: seq<Action>)
    requires Reaches(ops, st, lives, L)
    ensures TextsOf(log) == ChunksOf(ops, k)
    ensures forall actions | LogActions(actions) == log :: SeenFrom(Run(actions, L), k, st, lives)
  {
    log := ProjectedRun(ops, st, lives, k, L);
    hide SeenFrom, Run, TextsOf, ChunksOf, Reaches;
    forall actions | LogActions(actions) == log
      ensures SeenFrom(Run(actions, L), k, st, lives)
    {
      ReadersKeepLog(actions, L);
      SameSeen(Run(log, L), Run(actions, L), k, st, lives);
    }
  }

  lemma SameSeen(s: State, s': State, k: string, st: StoreVal, lives: Lives)
    requires SeenFrom(s, k, st, lives) && SameLogs(s', s)
    ensures SeenFrom(s', k, st, lives)
  {
  }

  lemma {:induction false} ProjectedRun(ops: seq<Op>, st: StoreVal, lives: Lives, k: string, L: Limits)
    returns (log: seq<Action>)
    requires Reaches(ops, st, lives, L)
    ensures TextsOf(log) == ChunksOf(ops, k) && LogActions(log) == log
    ensures SeenFrom(Run(log, L), k, st, lives)
  {
    if ops == [] {
      return [];
    }
    hide SeenFrom, Run, LastStep;
    var init, last := ops[..|ops| - 1], ops[|ops| - 1];
    var prev, before :| Reaches(init, prev, before, L) && LastStep(prev, before, last, st, lives, L);
    var log0 := ProjectedRun(init, prev, before, k, L);
    SeenStep(Run(log0, L), k, prev, before, last, st, lives, L);
    log := log0;
    if k == last.key {
      log := log0 + [Append(last.text)];
      RunSnoc(log0, Append(last.text), L);
      assert log[..|log| - 1] == log0;
    } else if k in prev.entries && k !in st.entries {
      log := log0 + [Evict];
      RunSnoc(log0, Evict, L);
      assert log[..|log| - 1] == log0;
    }
  }
}
