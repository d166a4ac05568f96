/** The events of Follow as they travel in a Server-Sent Events stream (internal/logstream/sse.go): a
    connection that breaks after any byte has delivered a beginning of the events in flight. */
module Wire {
  import opened Wrappers
  import opened LogStore
  import opened Retention
  import F = Follow
  import S = Sse
  import D = Decimal
  import E = EventStream

  function Name(kind: F.Kind): string {
    match kind
    case Reset => "reset"
    case Delta => "append"
    case Gone => "gone"
  }

  /** An event as ServeSSE sends it. */
  function Sent(e: F.Event, encode: string -> string): S.Item {
    S.Sent(Name(e.kind), e.id, encode(e.text))
  }

  /** And as ReadSSE hands it to the callback. */
  function Read(e: F.Event): S.Event<string> {
    S.Event(Name(e.kind), e.id, e.text)
  }

  function ReadAll(events: seq<F.Event>): seq<S.Event<string>> {
    if events == [] then [] else [Read(events[0])] + ReadAll(events[1..])
  }

  /** The stream consists of the events, with keep-alives anywhere. */
  predicate Carries(items: seq<S.Item>, events: seq<F.Event>, encode: string -> string)
    decreases |items|
  {
    if items == [] then events == []
    else if items[0].KeepAlive? then Carries(items[1..], events, encode)
    else events != [] && items[0] == Sent(events[0], encode) && Carries(items[1..], events[1..], encode)
  }

  /** Payloads are encoded as one line and decoded to what they were. */
  ghost predicate Codec(encode: string -> string, decode: string -> Option<string>) {
    forall text :: S.OneLine(encode(text)) && decode(encode(text)) == Some(text)
  }

  predicate IdsFit(events: seq<F.Event>) {
    forall i | 0 <= i < |events| :: events[i].id <= MAX_UINT64
  }

  /** The bytes of an event. */
  lemma EventText(e: F.Event, encode: string -> string)
    ensures S.Frame(Sent(e, encode)) ==
            "event: " + (match e.kind case Reset => "reset" case Delta => "append" case Gone => "gone") + "\n"
            + ("id: " + D.FormatUint(e.id) + "\n" + ("data: " + encode(e.text) + "\n" + "\n"))
  {
    hide D.FormatUint;
  }

  function ToMessage(e: F.Event, encode: string -> string): E.Message {
    E.Message(if e.kind == F.Reset then "reset" else if e.kind == F.Delta then "append" else "gone",
              encode(e.text), D.FormatUint(e.id))
  }

  function ToMessages(events: seq<F.Event>, encode: string -> string): seq<E.Message> {
    if events == [] then [] else [ToMessage(events[0], encode)] + ToMessages(events[1..], encode)
  }

  /** A standard client is given the events as messages of type "reset", "append" or "gone". */
  lemma StandardClient(items: seq<S.Item>, events: seq<F.Event>, encode: string -> string, id: string)
    requires Carries(items, events, encode)
    requires forall text :: E.Plain(encode(text))
    ensures E.Parse(S.Print(items), E.Buffers("", "", id)) == ToMessages(events, encode)
  {
    hide E.Parse, E.Messages, S.Print, D.FormatUint;
    MessagesOfEvents(items, events, encode);
    E.StandardRoundTrip(items, id);
  }

  lemma {:induction false} MessagesOfEvents(items: seq<S.Item>, events: seq<F.Event>, encode: string -> string)
    requires Carries(items, events, encode)
    requires forall text :: E.Plain(encode(text))
    ensures forall i | 0 <= i < |items| :: E.Sendable(items[i])
    ensures E.Messages(items) == ToMessages(events, encode)
    decreases |items|
  {
    hide D.FormatUint, E.Plain;
    if items != [] {
      NamesArePlain();
      MessagesOfEvents(items[1..], if items[0].KeepAlive? then events else events[1..], encode);
      assert forall i | 1 <= i < |items| :: items[i] == items[1..][i - 1];
    }
  }

  lemma NamesArePlain()
    ensures E.Plain("reset") && E.Plain("append") && E.Plain("gone")
  {
  }

  lemma SentIsSendable(e: F.Event, encode: string -> string, decode: string -> Option<string>)
    requires Codec(encode, decode) && e.id <= MAX_UINT64
    ensures S.Sendable(Sent(e, encode), decode)
  {
    assert decode(encode(e.text)) == Some(e.text);
    assert S.OneLine(Name(e.kind));
  }

  lemma {:induction false} AllSendable(items: seq<S.Item>, events: seq<F.Event>, encode: string -> string,
                                       decode: string -> Option<string>)
    requires Carries(items, events, encode) && Codec(encode, decode) && IdsFit(events)
    ensures forall i | 0 <= i < |items| :: S.Sendable(items[i], decode)
    decreases |items|
  {
    hide Codec, S.Sendable;
    if items != [] {
      if items[0].KeepAlive? {
        KeepAliveSendable(decode);
        AllSendable(items[1..], events, encode, decode);
      } else {
        SentIsSendable(events[0], encode, decode);
        AllSendable(items[1..], events[1..], encode, decode);
      }
      assert forall i | 1 <= i < |items| :: items[i] == items[1..][i - 1];
    }
  }

  lemma KeepAliveSendable(decode: string -> Option<string>)
    ensures S.Sendable(S.KeepAlive, decode)
  {
  }

  /** The events among the first items. */
  lemma {:induction false} FirstItems(items: seq<S.Item>, events: seq<F.Event>, k: nat, encode: string -> string,
                                      decode: string -> Option<string>) returns (kept: nat)
    requires Carries(items, events, encode) && Codec(encode, decode) && k <= |items|
    requires forall i | 0 <= i < |items| :: S.Sendable(items[i], decode)
    ensures kept <= |events| && (k == |items| ==> kept == |events|)
    ensures S.Delivered(items[..k], decode) == ReadAll(events[..kept])
    decreases |items|
  {
    hide S.Sendable;
    if k == 0 {
      kept := 0;
    } else {
      assert items[..k][1..] == items[1..][..k - 1];
      if items[0].KeepAlive? {
        kept := FirstItems(items[1..], events, k - 1, encode, decode);
      } else {
        var more := FirstItems(items[1..], events[1..], k - 1, encode, decode);
        kept := more + 1;
        assert events[..kept][1..] == events[1..][..more];
        assert decode(encode(events[0].text)) == Some(events[0].text);
      }
    }
  }

  /** A stream that carries the events and breaks off after n bytes delivers the first of them. */
  lemma CutStream(items: seq<S.Item>, events: seq<F.Event>, n: nat, encode: string -> string,
                  decode: string -> Option<string>) returns (kept: nat)
    requires Carries(items, events, encode) && Codec(encode, decode) && IdsFit(events)
    requires n <= |S.Print(items)|
    ensures kept <= |events|
    ensures S.Read(S.Print(items)[..n], S.NO_FIELDS, decode) == S.Reading(ReadAll(events[..kept]), true)
  {
    hide S.Read, S.Sendable, S.Print, S.Delivered, Codec, Carries;
    AllSendable(items, events, encode, decode);
    S.PrefixSafety(items, n, S.NO_FIELDS, decode);
    kept := FirstItems(items, events, S.Complete(items, n), encode, decode);
  }

  // ----- the client -------------------------------------------------------------------------

  /** What a client has: its text, and the id it will send as Last-Event-ID. */
  datatype Shown = Shown(view: string, lastId: nat)

  function Handle(s: Shown, e: S.Event<string>): Shown {
    if e.name == "reset" then Shown(e.payload, e.id)
    else if e.name == "append" then Shown(s.view + e.payload, e.id)
    else Shown(s.view, e.id)
  }

  function HandleAll(s: Shown, events: seq<S.Event<string>>): Shown
    decreases |events|
  {
    if events == [] then s else HandleAll(Handle(s, events[0]), events[1..])
  }

  function ShownBy(c: F.Client): Shown {
    Shown(c.view, c.lastId)
  }

  lemma {:induction false} HandledIsReceived(c: F.Client, events: seq<F.Event>)
    ensures HandleAll(ShownBy(c), ReadAll(events)) == ShownBy(F.ReceiveAll(c, events))
    decreases |events|
  {
    if events != [] {
      HandledOne(c, events[0]);
      assert ([Read(events[0])] + ReadAll(events[1..]))[1..] == ReadAll(events[1..]);
      HandledIsReceived(F.Receive(c, events[0]), events[1..]);
    }
  }

  lemma HandledOne(c: F.Client, e: F.Event)
    ensures Handle(ShownBy(c), Read(e)) == ShownBy(F.Receive(c, e))
  {
  }

  /** Breaking a connection after any byte of what is in flight is a Disconnect that keeps some of the
      events: the client has what it has once they have arrived. */
  lemma BrokenConnection(s: F.State, r: F.ReaderId, items: seq<S.Item>, n: nat, encode: string -> string,
                         decode: string -> Option<string>, L: Limits) returns (kept: nat)
    requires s.lives != [] && r in s.readers
    requires Carries(items, s.readers[r].flight, encode) && Codec(encode, decode) && IdsFit(s.readers[r].flight)
    requires n <= |S.Print(items)|
    ensures var shown := HandleAll(ShownBy(s.readers[r].client),
                                   S.Read(S.Print(items)[..n], S.NO_FIELDS, decode).events);
            var s' := F.Step(s, F.Disconnect(r, kept), L);
            && kept <= |s.readers[r].flight| && r in s'.readers
            && s'.readers[r].flight == s.readers[r].flight[..kept]
            && shown == ShownBy(F.CaughtUp(s'.readers[r]))
  {
    hide S.Read, S.Print, Codec, Carries, HandleAll, F.ReceiveAll, F.Step, IdsFit, ReadAll;
    kept := CutStream(items, s.readers[r].flight, n, encode, decode);
    HandledIsReceived(s.readers[r].client, s.readers[r].flight[..kept]);
    DisconnectKeeps(s, r, kept, L);
  }

  lemma DisconnectKeeps(s: F.State, r: F.ReaderId, kept: nat, L: Limits)
    requires s.lives != [] && r in s.readers && kept <= |s.readers[r].flight|
    ensures var s' := F.Step(s, F.Disconnect(r, kept), L);
            && r in s'.readers && s'.readers[r].client == s.readers[r].client
            && s'.readers[r].flight == s.readers[r].flight[..kept]
  {
  }

  /** Byte for byte: in every run without a mixing read, a client whose connection breaks after any
      byte holds exactly the bytes of one lifetime up to the id it will resume from. */
  lemma FidelityAtEveryByte(actions: seq<F.Action>, r: F.ReaderId, items: seq<S.Item>, n: nat,
                            encode: string -> string, decode: string -> Option<string>, L: Limits)
    requires F.NeverMixes(actions, L) && r in F.Run(actions, L).readers
    requires var flight := F.Run(actions, L).readers[r].flight; Carries(items, flight, encode) && IdsFit(flight)
    requires Codec(encode, decode) && n <= |S.Print(items)|
    ensures var s := F.Run(actions, L);
            var shown := HandleAll(ShownBy(s.readers[r].client),
                                   S.Read(S.Print(items)[..n], S.NO_FIELDS, decode).events);
            exists life, from :: F.SliceOf(s, shown.view, life, shown.lastId, from)
  {
    var s := F.Run(actions, L);
    hide S.Read, S.Print, Codec, Carries, HandleAll, F.Run, F.SliceOf, F.NeverMixes;
    F.CorrectRun(actions, L);
    var reader := s.readers[r];
    assert F.CorrectReader(s, reader);
    var kept := CutStream(items, reader.flight, n, encode, decode);
    F.CorrectPrefix(s, reader.client, reader.flight, kept);
    HandledIsReceived(reader.client, reader.flight[..kept]);
    var c := F.ReceiveAll(reader.client, reader.flight[..kept]);
    var from: nat :| F.SliceOf(s, c.view, c.life, c.lastId, from);
  }
}
