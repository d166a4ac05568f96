/** Server-Sent Events as the daemon writes and its clients read them (internal/logstream/sse.go, the
    send closure of ServeSSE, and ReadSSE; section 9.2.6 of the WHATWG HTML Living Standard).
    Streams are byte strings. Payloads are encoded as one line by a codec that is a parameter. */
module Sse {
  import opened Lines
  import opened Wrappers
  import opened LogStore
  import opened Decimal

  // ----- writing ----------------------------------------------------------------------------

  datatype Item = Sent(name: string, id: nat, data: string) | KeepAlive

  function Frame(i: Item): string {
    match i
    case Sent(name, id, data) =>
      "event: " + name + "\n" + ("id: " + FormatUint(id) + "\n" + ("data: " + data + "\n" + "\n"))
    case KeepAlive => ": keep-alive" + "\n" + "\n"
  }

  function Print(items: seq<Item>): string {
    if items == [] then "" else Frame(items[0]) + Print(items[1..])
  }

  // ----- reading ----------------------------------------------------------------------------

  /** An event handed to the callback. */
  datatype Event<+P> = Event(name: string, id: nat, payload: P)

  /** trimNewline */
  function Trimmed(s: string): string {
    if s != "" && (s[|s| - 1] == '\n' || s[|s| - 1] == '\r') then Trimmed(s[..|s| - 1]) else s
  }

  method TrimNewline(line: string) returns (s: string)
    ensures s == Trimmed(line)
  {
    s := line;
    while |s| > 0 && (s[|s| - 1] == '\n' || s[|s| - 1] == '\r')
      invariant Trimmed(s) == Trimmed(line)
    {
      s := s[..|s| - 1];
    }
  }

  datatype Fields = Fields(event: string, id: nat, data: string)

  /** The reader's variables after a line, the event it dispatches, and whether its payload could be
      decoded. */
  datatype LineResult<+P> = LineResult(fields: Fields, events: seq<Event<P>>, ok: bool)

  function ReadLine<P>(f: Fields, line: string, decode: string -> Option<P>): LineResult<P> {
    var l := Trimmed(line);
    if l == "" then
      var cleared := f.(event := "", data := "");
      if f.event == "" then LineResult(cleared, [], true)
      else
        match decode(f.data)
        case None => LineResult(f, [], false)
        case Some(p) => LineResult(cleared, [Event(f.event, f.id, p)], true)
    else if |l| > 7 && l[..7] == "event: " then LineResult(f.(event := l[7..]), [], true)
    else if |l| > 4 && l[..4] == "id: " then LineResult(f.(id := ParseUint(l[4..])), [], true)
    else if |l| > 6 && l[..6] == "data: " then LineResult(f.(data := l[6..]), [], true)
    else LineResult(f, [], true)
  }

  /** All events of a body, and whether it was read to its end. */
  datatype Reading<+P> = Reading(events: seq<Event<P>>, ok: bool)

  function Read<P>(body: string, f: Fields, decode: string -> Option<P>): Reading<P>
    decreases |body|
  {
    var k := IndexNL(body);
    if k < 0 then
      if body == "" then Reading([], true)
      else
        var r := ReadLine(f, body, decode);
        Reading(r.events, r.ok)
    else
      var r := ReadLine(f, body[..k + 1], decode);
      if !r.ok then Reading([], false)
      else
        var rest := Read(body[k + 1..], r.fields, decode);
        Reading(r.events + rest.events, rest.ok)
  }

  const NO_FIELDS := Fields("", 0, "")

  /** The events already delivered, and what is read on. */
  function After<P>(events: seq<Event<P>>, r: Reading<P>): Reading<P> {
    Reading(events + r.events, r.ok)
  }

  lemma AfterAfter<P>(a: seq<Event<P>>, b: seq<Event<P>>, r: Reading<P>)
    ensures After(a, After(b, r)) == After(a + b, r)
    ensures After(a, Reading([], r.ok)) == Reading(a, r.ok)
    ensures After([], r) == r
  {
    assert a + (b + r.events) == (a + b) + r.events;
  }

  lemma AfterBegins<P>(events: seq<Event<P>>, r: Reading<P>)
    ensures events <= After(events, r).events
  {
  }

  /** One round of reading. */
  lemma ReadRound<P>(body: string, f: Fields, decode: string -> Option<P>)
    requires body != ""
    ensures var k := IndexNL(body);
            var r := ReadLine(f, if k < 0 then body else body[..k + 1], decode);
            Read(body, f, decode) ==
              if !r.ok then Reading([], false)
              else if k < 0 then Reading(r.events, true)
              else After(r.events, Read(body[k + 1..], r.fields, decode))
  {
  }

  /** The switch on one line, trimmed. */
  method ProcessLine<P>(f: Fields, line: string, decode: string -> Option<P>) returns (r: LineResult<P>)
    ensures r == ReadLine(f, line, decode)
  {
    hide Trimmed, ParseUint;
    var l := TrimNewline(line);
    if l == "" {
      var events: seq<Event<P>> := [];
      if f.event != "" {
        var payload := decode(f.data);
        if payload.None? {
          return LineResult(f, [], false);
        }
        events := [Event(f.event, f.id, payload.value)];
      }
      return LineResult(Fields("", f.id, ""), events, true);
    }
    var g := f;
    if |l| > 7 && l[..7] == "event: " {
      g := f.(event := l[7..]);
    } else if |l| > 4 && l[..4] == "id: " {
      g := f.(id := ParseUint(l[4..]));
    } else if |l| > 6 && l[..6] == "data: " {
      g := f.(data := l[6..]);
    }
    return LineResult(g, [], true);
  }

  /** How reading ended: at the end of the body, at a payload that cannot be decoded, by an error of
      the callback, or by cancellation. */
  datatype Ending = Finished | Undecodable | Refused | Cancelled

  /** The callback succeeds on each of the first n events. */
  ghost predicate Accepted<P>(events: seq<Event<P>>, accept: seq<Event<P>> -> bool, n: int) {
    forall k | 0 < k <= n && k <= |events| :: accept(events[..k])
  }

  lemma NothingToAccept<P>(accept: seq<Event<P>> -> bool)
    ensures Accepted([], accept, 0)
  {
  }

  lemma AcceptedOn<P>(events: seq<Event<P>>, more: seq<Event<P>>, accept: seq<Event<P>> -> bool)
    requires Accepted(events, accept, |events|) && |more| <= 1
    ensures Accepted(events + more, accept, |events|)
    ensures more == [] || accept(events + more) ==> Accepted(events + more, accept, |events + more|)
  {
    assert forall k | 0 < k <= |events| :: (events + more)[..k] == events[..k];
    assert (events + more)[..|events + more|] == events + more;
  }

  /** accept tells whether the callback succeeds on the last of the given events, having been given
      the others; the context is cancelled after the given number of rounds, if ever. */
  method ReadSSE<P>(body: string, decode: string -> Option<P>, accept: seq<Event<P>> -> bool, rounds: Option<nat>)
    returns (events: seq<Event<P>>, ending: Ending)
    ensures events <= Read(body, NO_FIELDS, decode).events
    ensures ending.Finished? ==> Read(body, NO_FIELDS, decode) == Reading(events, true)
    ensures ending.Undecodable? ==> Read(body, NO_FIELDS, decode) == Reading(events, false)
    ensures ending.Refused? ==> events != [] && !accept(events)
    ensures ending.Cancelled? ==> rounds.Some?
    ensures Accepted(events, accept, if ending.Refused? then |events| - 1 else |events|)
  {
    hide Read, ReadLine, IndexNL, Accepted, After;
    NothingToAccept(accept);
    events := [];
    var fields, rest, round := NO_FIELDS, body, 0;
    AfterAfter([], [], Read(body, NO_FIELDS, decode));
    while true
      invariant Read(body, NO_FIELDS, decode) == After(events, Read(rest, fields, decode))
      invariant Accepted(events, accept, |events|)
      decreases |rest|
    {
      AfterBegins(events, Read(rest, fields, decode));
      if rounds == Some(round) {
        return events, Cancelled;
      }
      round := round + 1;
      var k := IndexNL(rest);
      var line := if k < 0 then rest else rest[..k + 1];
      if k < 0 && line == "" {
        ReadNothing(fields, decode);
        AfterAfter(events, [], Reading([], true));
        return events, Finished;
      }
      ReadRound(rest, fields, decode);
      var r := ProcessLine(fields, line, decode);
      AtMostOneEvent(fields, line, decode);
      if !r.ok {
        AfterAfter(events, [], Reading([], false));
        return events, Undecodable;
      }
      ghost var further := if k < 0 then Reading([], true) else Read(rest[k + 1..], r.fields, decode);
      AfterAfter(r.events, [], Reading([], true));
      AfterAfter(events, r.events, further);
      AfterAfter(events + r.events, [], Reading([], true));
      AcceptedOn(events, r.events, accept);
      AfterBegins(events + r.events, further);
      events := events + r.events;
      if r.events != [] && !accept(events) {
        return events, Refused;
      }
      if k < 0 {
        return events, Finished;
      }
      fields, rest := r.fields, rest[k + 1..];
    }
  }

  lemma AtMostOneEvent<P>(f: Fields, line: string, decode: string -> Option<P>)
    ensures |ReadLine(f, line, decode).events| <= 1
  {
  }

  lemma ReadNothing<P>(f: Fields, decode: string -> Option<P>)
    ensures Read("", f, decode) == Reading([], true)
  {
  }

  // ----- round trip -------------------------------------------------------------------------

  /** Text that can stand on a line of its own: no newline in it, no carriage return at its end. */
  predicate OneLine(s: string) {
    s != "" && (forall i | 0 <= i < |s| :: s[i] != '\n') && s[|s| - 1] != '\r'
  }

  /** What the daemon sends: a name, a uint64 id, and an encoded payload. */
  predicate Sendable<P>(i: Item, decode: string -> Option<P>) {
    i.Sent? ==> OneLine(i.name) && OneLine(i.data) && i.id <= MAX_UINT64 && decode(i.data).Some?
  }

  function Delivered<P>(items: seq<Item>, decode: string -> Option<P>): seq<Event<P>>
    requires forall i | 0 <= i < |items| :: Sendable(items[i], decode)
  {
    if items == [] then []
    else
      assert Sendable(items[0], decode);
      DeliveredOne(items[0], decode) + Delivered(items[1..], decode)
  }

  /** What one item delivers. */
  function DeliveredOne<P>(i: Item, decode: string -> Option<P>): seq<Event<P>>
    requires Sendable(i, decode)
  {
    match i
    case KeepAlive => []
    case Sent(name, id, data) => [Event(name, id, decode(data).value)]
  }

  lemma DeliveredMore<P>(items: seq<Item>, decode: string -> Option<P>)
    requires items != [] && forall i | 0 <= i < |items| :: Sendable(items[i], decode)
    ensures Sendable(items[0], decode)
    ensures Delivered(items, decode) == DeliveredOne(items[0], decode) + Delivered(items[1..], decode)
  {
    hide Sendable, DeliveredOne;
    assert Sendable(items[0], decode);
  }

  lemma DeliveredFirst<P>(items: seq<Item>, decode: string -> Option<P>)
    requires items != [] && forall i | 0 <= i < |items| :: Sendable(items[i], decode)
    ensures Delivered(items, decode) == Delivered([items[0]], decode) + Delivered(items[1..], decode)
  {
    hide Sendable, Delivered, DeliveredOne;
    var one := [items[0]];
    assert one[1..] == [];
    DeliveredMore(items, decode);
    DeliveredMore(one, decode);
    NothingDelivered(one[1..], decode);
  }

  lemma NothingDelivered<P>(items: seq<Item>, decode: string -> Option<P>)
    requires items == []
    ensures Delivered(items, decode) == []
  {
  }

  lemma TrimmedLine(l: string)
    requires OneLine(l)
    ensures Trimmed(l + "\n") == l && Trimmed(l) == l
  {
    assert (l + "\n")[..|l|] == l;
  }

  /** A complete line is processed and the rest read on. */
  lemma ReadCompleteLine<P>(l: string, rest: string, f: Fields, decode: string -> Option<P>)
    requires forall i | 0 <= i < |l| :: l[i] != '\n'
    requires ReadLine(f, l + "\n", decode).ok
    ensures var r := ReadLine(f, l + "\n", decode);
            var tail := Read(rest, r.fields, decode);
            Read(l + "\n" + rest, f, decode) == Reading(r.events + tail.events, tail.ok)
  {
    hide Read, ReadLine;
    var body := l + "\n" + rest;
    assert body[|l|] == '\n' && forall i | 0 <= i < |l| :: body[i] == l[i];
    assert IndexNL(body) == |l|;
    assert body[..|l| + 1] == l + "\n" && body[|l| + 1..] == rest;
    ReadRound(body, f, decode);
  }

  lemma EventLine<P>(name: string, f: Fields, decode: string -> Option<P>)
    requires OneLine(name)
    ensures ReadLine(f, "event: " + name + "\n", decode) == LineResult(f.(event := name), [], true)
  {
    hide Trimmed, ParseUint;
    var l := "event: " + name;
    TrimmedLine(l);
    assert l[..7] == "event: " && l[7..] == name;
  }

  lemma IdentifierLine<P>(id: nat, f: Fields, decode: string -> Option<P>)
    requires id <= MAX_UINT64
    ensures ReadLine(f, "id: " + FormatUint(id) + "\n", decode) == LineResult(f.(id := id), [], true)
  {
    hide Trimmed, ParseUint, FormatUint;
    IdLine(id);
    var l := "id: " + FormatUint(id);
    TrimmedLine(l);
    assert l[..4] == "id: " && l[4..] == FormatUint(id);
    assert l[0] == 'i' && "event: "[0] == 'e';
    assert |l| > 7 ==> l[..7][0] == 'i';
  }

  lemma DataLine<P>(data: string, f: Fields, decode: string -> Option<P>)
    requires OneLine(data)
    ensures ReadLine(f, "data: " + data + "\n", decode) == LineResult(f.(data := data), [], true)
  {
    hide Trimmed, ParseUint;
    var l := "data: " + data;
    TrimmedLine(l);
    assert l[..6] == "data: " && l[6..] == data;
    assert l[..4][0] == 'd' && "id: "[0] == 'i' && "event: "[0] == 'e';
    assert |l| > 7 ==> l[..7][0] == 'd';
  }

  lemma IdLine(id: nat)
    requires id <= MAX_UINT64
    ensures OneLine(FormatUint(id)) && ParseUint(FormatUint(id)) == id
  {
    FormatThenParse(id, "");
    IdRoundTrip(id);
    var s := FormatUint(id);
    assert forall i | 0 <= i < |s| :: IsDigit(s[i]);
  }

  lemma BlankLine<P>(f: Fields, decode: string -> Option<P>)
    ensures f.event == "" ==> ReadLine(f, "\n", decode) == LineResult(f.(data := ""), [], true)
    ensures f.event != "" && decode(f.data).Some? ==>
              ReadLine(f, "\n", decode)
              == LineResult(f.(event := "", data := ""), [Event(f.event, f.id, decode(f.data).value)], true)
    ensures f.event != "" && decode(f.data).None? ==> ReadLine(f, "\n", decode) == LineResult(f, [], false)
  {
    assert "\n"[..0] == "";
    assert Trimmed("\n") == "";
  }

  /** A blank line dispatches the pending event and clears the fields. */
  lemma ReadBlankLine<P>(rest: string, f: Fields, decode: string -> Option<P>)
    requires f.event == "" || decode(f.data).Some?
    ensures var tail := Read(rest, f.(event := "", data := ""), decode);
            Read("\n" + rest, f, decode)
            == Reading((if f.event == "" then [] else [Event(f.event, f.id, decode(f.data).value)]) + tail.events, tail.ok)
  {
    hide Read, ReadLine;
    BlankLine(f, decode);
    assert "" + "\n" == "\n" && "" + "\n" + rest == "\n" + rest;
    ReadCompleteLine("", rest, f, decode);
  }

  /** Reading a whole frame delivers its event and leaves the fields cleared. */
  lemma ReadFrame<P>(i: Item, rest: string, f: Fields, decode: string -> Option<P>) returns (g: Fields)
    requires Sendable(i, decode) && f.event == "" && f.data == ""
    ensures g.event == "" && g.data == ""
    ensures var tail := Read(rest, g, decode);
            Read(Frame(i) + rest, f, decode) == Reading(Delivered([i], decode) + tail.events, tail.ok)
  {
    hide Read, ReadLine, FormatUint;
    match i
    case Sent(name, id, data) =>
      var l1, l2, l3 := "event: " + name, "id: " + FormatUint(id), "data: " + data;
      IdLine(id);
      var f1 := f.(event := name);
      var f2 := f1.(id := id);
      var f3 := f2.(data := data);
      g := f3.(event := "", data := "");
      EventLine(name, f, decode);
      IdentifierLine(id, f1, decode);
      DataLine(data, f2, decode);
      ReadBlankLine(rest, f3, decode);
      ReadCompleteLine(l3, "\n" + rest, f2, decode);
      ReadCompleteLine(l2, l3 + "\n" + ("\n" + rest), f1, decode);
      ReadCompleteLine(l1, l2 + "\n" + (l3 + "\n" + ("\n" + rest)), f, decode);
      assert Frame(i) + rest == l1 + "\n" + (l2 + "\n" + (l3 + "\n" + ("\n" + rest)));
    case KeepAlive =>
      g := f;
      CommentLine(f, decode);
      ReadBlankLine(rest, f, decode);
      ReadCompleteLine(": keep-alive", "\n" + rest, f, decode);
      assert Frame(i) + rest == ": keep-alive" + "\n" + ("\n" + rest);
  }

  lemma CommentLine<P>(f: Fields, decode: string -> Option<P>)
    ensures ReadLine(f, ": keep-alive" + "\n", decode) == LineResult(f, [], true)
  {
    hide Trimmed, ParseUint;
    var l := ": keep-alive";
    TrimmedLine(l);
    assert l[..7][0] == ':' && l[..4][0] == ':' && l[..6][0] == ':';
    assert "event: "[0] == 'e' && "id: "[0] == 'i' && "data: "[0] == 'd';
  }

  /** Whatever is sent, events and keep-alives mixed, is delivered: the same names, ids and payloads
      in the same order, and nothing else. */
  lemma {:induction false} RoundTrip<P>(items: seq<Item>, f: Fields, decode: string -> Option<P>)
    requires forall i | 0 <= i < |items| :: Sendable(items[i], decode)
    requires f.event == "" && f.data == ""
    ensures Read(Print(items), f, decode) == Reading(Delivered(items, decode), true)
    decreases |items|
  {
    if items == [] {
      ReadNothing(f, decode);
    } else {
      hide Read, Frame, Sendable, Delivered;
      DeliveredFirst(items, decode);
      var g := ReadFrame(items[0], Print(items[1..]), f, decode);
      RoundTrip(items[1..], g, decode);
    }
  }

  // ----- what is not delivered --------------------------------------------------------------

  lemma ReadLastLine<P>(l: string, rest: string, f: Fields, decode: string -> Option<P>)
    requires forall i | 0 <= i < |l| :: l[i] != '\n'
    requires !ReadLine(f, l + "\n", decode).ok
    ensures Read(l + "\n" + rest, f, decode) == Reading([], false)
  {
    hide Read, ReadLine;
    var body := l + "\n" + rest;
    assert body[|l|] == '\n' && forall i | 0 <= i < |l| :: body[i] == l[i];
    assert IndexNL(body) == |l|;
    assert body[..|l| + 1] == l + "\n";
    ReadRound(body, f, decode);
  }

  /** Reading ends with an error at an event whose payload cannot be decoded, after everything before
      it has been delivered, and whatever follows. */
  lemma {:induction false} UndecodablePayload<P>(items: seq<Item>, name: string, id: nat, data: string, rest: string,
                                                 f: Fields, decode: string -> Option<P>)
    requires forall i | 0 <= i < |items| :: Sendable(items[i], decode)
    requires OneLine(name) && OneLine(data) && id <= MAX_UINT64 && decode(data).None?
    requires f.event == "" && f.data == ""
    ensures Read(Print(items) + (Frame(Sent(name, id, data)) + rest), f, decode)
            == Reading(Delivered(items, decode), false)
    decreases |items|
  {
    hide Read, ReadLine, Sendable, Delivered, FormatUint, Frame;
    var bad := Frame(Sent(name, id, data)) + rest;
    if items == [] {
      NothingDelivered(items, decode);
      assert Print(items) + bad == bad;
      UndecodableFrame(name, id, data, rest, f, decode);
    } else {
      assert Print(items) + bad == Frame(items[0]) + (Print(items[1..]) + bad);
      var g := ReadFrame(items[0], Print(items[1..]) + bad, f, decode);
      UndecodablePayload(items[1..], name, id, data, rest, g, decode);
      DeliveredFirst(items, decode);
    }
  }

  lemma UndecodableFrame<P>(name: string, id: nat, data: string, rest: string, f: Fields, decode: string -> Option<P>)
    requires OneLine(name) && OneLine(data) && id <= MAX_UINT64 && decode(data).None?
    ensures Read(Frame(Sent(name, id, data)) + rest, f, decode) == Reading([], false)
  {
    hide Read, ReadLine, FormatUint;
    var l1, l2, l3 := "event: " + name, "id: " + FormatUint(id), "data: " + data;
    IdLine(id);
    var f1 := f.(event := name);
    var f2 := f1.(id := id);
    var f3 := f2.(data := data);
    EventLine(name, f, decode);
    IdentifierLine(id, f1, decode);
    DataLine(data, f2, decode);
    BlankLine(f3, decode);
    assert "" + "\n" == "\n" && "" + "\n" + rest == "\n" + rest;
    ReadLastLine("", rest, f3, decode);
    ReadCompleteLine(l3, "\n" + rest, f2, decode);
    ReadCompleteLine(l2, l3 + "\n" + ("\n" + rest), f1, decode);
    ReadCompleteLine(l1, l2 + "\n" + (l3 + "\n" + ("\n" + rest)), f, decode);
    assert Frame(Sent(name, id, data)) + rest == l1 + "\n" + (l2 + "\n" + (l3 + "\n" + ("\n" + rest)));
  }

  /** A line that has none of the three prefixes with something behind it, and is not blank, changes
      nothing. */
  lemma OtherLinesIgnored<P>(line: string, f: Fields, decode: string -> Option<P>)
    requires Trimmed(line) != "" && !("event: " < Trimmed(line)) && !("id: " < Trimmed(line)) && !("data: " < Trimmed(line))
    ensures ReadLine(f, line, decode) == LineResult(f, [], true)
  {
    hide Trimmed, ParseUint;
    var l := Trimmed(line);
    assert |l| > 7 && l[..7] == "event: " ==> "event: " < l;
    assert |l| > 4 && l[..4] == "id: " ==> "id: " < l;
    assert |l| > 6 && l[..6] == "data: " ==> "data: " < l;
  }

  /** Line ends are stripped, and nothing else. */
  lemma {:induction false} TrimmedMeans(s: string)
    ensures Trimmed(s) <= s
    ensures forall i | |Trimmed(s)| <= i < |s| :: s[i] == '\n' || s[i] == '\r'
    ensures Trimmed(s) != "" ==> var c := Trimmed(s)[|Trimmed(s)| - 1]; c != '\n' && c != '\r'
  {
    if s != "" && (s[|s| - 1] == '\n' || s[|s| - 1] == '\r') {
      TrimmedMeans(s[..|s| - 1]);
    }
  }

  // ----- prefix safety ----------------------------------------------------------------------

  /** A last line without a newline delivers nothing while no event is pending, or if it begins like
      a field. */
  lemma ReadPartialLine<P>(l: string, f: Fields, decode: string -> Option<P>)
    requires forall i | 0 <= i < |l| :: l[i] != '\n'
    requires f.event == "" || (l != "" ==> l[0] != '\r')
    ensures Read(l, f, decode) == Reading([], true)
  {
    hide Read, ParseUint;
    if l == "" {
      ReadNothing(f, decode);
    } else {
      ReadRound(l, f, decode);
      if f.event != "" { TrimmedKeepsHead(l); }
    }
  }

  lemma {:induction false} TrimmedKeepsHead(l: string)
    requires l != "" && l[0] != '\r' && l[0] != '\n'
    ensures Trimmed(l) != ""
  {
    if |l| > 1 { TrimmedKeepsHead(l[..|l| - 1]); }
  }

  /** A line and what follows it, cut anywhere. */
  lemma CutLine<P>(l: string, rest: string, n: nat, f: Fields, g: Fields, decode: string -> Option<P>)
    requires (forall i | 0 <= i < |l| :: l[i] != '\n') && (f.event == "" || (l != "" && l[0] != '\r'))
    requires ReadLine(f, l + "\n", decode) == LineResult(g, [], true)
    requires n <= |l + "\n" + rest|
    requires n > |l| ==> Read(rest[..n - |l| - 1], g, decode) == Reading([], true)
    ensures Read((l + "\n" + rest)[..n], f, decode) == Reading([], true)
  {
    hide Read, ReadLine;
    if n <= |l| {
      assert (l + "\n" + rest)[..n] == l[..n];
      ReadPartialLine(l[..n], f, decode);
    } else {
      assert (l + "\n" + rest)[..n] == l + "\n" + rest[..n - |l| - 1];
      ReadCompleteLine(l, rest[..n - |l| - 1], f, decode);
    }
  }

  lemma CutAfterId<P>(data: string, n: nat, f: Fields, decode: string -> Option<P>)
    requires OneLine(data) && n < |"data: " + data + "\n" + "\n"|
    ensures Read(("data: " + data + "\n" + "\n")[..n], f, decode) == Reading([], true)
  {
    hide Read, ReadLine;
    var l := "data: " + data;
    DataLine(data, f, decode);
    if n > |l| {
      assert "\n"[..n - |l| - 1] == "";
      ReadNothing(f.(data := data), decode);
    }
    assert l[0] == 'd';
    CutLine(l, "\n", n, f, f.(data := data), decode);
  }

  lemma CutAfterName<P>(id: nat, data: string, n: nat, f: Fields, decode: string -> Option<P>)
    requires OneLine(data) && id <= MAX_UINT64
    requires n < |"id: " + FormatUint(id) + "\n" + ("data: " + data + "\n" + "\n")|
    ensures Read(("id: " + FormatUint(id) + "\n" + ("data: " + data + "\n" + "\n"))[..n], f, decode) == Reading([], true)
  {
    hide Read, ReadLine, FormatUint;
    var l, rest := "id: " + FormatUint(id), "data: " + data + "\n" + "\n";
    IdentifierLine(id, f, decode);
    IdLine(id);
    if n > |l| {
      CutAfterId(data, n - |l| - 1, f.(id := id), decode);
    }
    assert l[0] == 'i' && forall i | 0 <= i < |l| :: l[i] != '\n';
    CutLine(l, rest, n, f, f.(id := id), decode);
  }

  lemma CutEvent<P>(name: string, id: nat, data: string, n: nat, f: Fields, decode: string -> Option<P>)
    requires OneLine(name) && OneLine(data) && id <= MAX_UINT64 && f.event == ""
    requires n < |"event: " + name + "\n" + ("id: " + FormatUint(id) + "\n" + ("data: " + data + "\n" + "\n"))|
    ensures Read(("event: " + name + "\n"
                  + ("id: " + FormatUint(id) + "\n" + ("data: " + data + "\n" + "\n")))[..n], f, decode)
            == Reading([], true)
  {
    hide Read, ReadLine, FormatUint;
    var l := "event: " + name;
    var rest := "id: " + FormatUint(id) + "\n" + ("data: " + data + "\n" + "\n");
    EventLine(name, f, decode);
    if n > |l| {
      CutAfterName(id, data, n - |l| - 1, f.(event := name), decode);
    }
    CutLine(l, rest, n, f, f.(event := name), decode);
  }

  lemma CutComment<P>(n: nat, f: Fields, decode: string -> Option<P>)
    requires f.event == "" && n < |": keep-alive" + "\n" + "\n"|
    ensures Read((": keep-alive" + "\n" + "\n")[..n], f, decode) == Reading([], true)
  {
    hide Read, ReadLine;
    var l := ": keep-alive";
    CommentLine(f, decode);
    if n > |l| {
      assert "\n"[..n - |l| - 1] == "";
      ReadNothing(f, decode);
    }
    CutLine(l, "\n", n, f, f, decode);
  }

  /** A frame that is not complete delivers nothing. */
  lemma ReadPartialFrame<P>(i: Item, n: nat, f: Fields, decode: string -> Option<P>)
    requires Sendable(i, decode) && f.event == "" && f.data == ""
    requires n < |Frame(i)|
    ensures Read(Frame(i)[..n], f, decode) == Reading([], true)
  {
    hide Read, FormatUint, OneLine;
    match i
    case Sent(name, id, data) =>
      CutEvent(name, id, data, n, f, decode);
    case KeepAlive =>
      CutComment(n, f, decode);
  }

  /** How many of the items lie completely within the first n bytes. */
  function Complete(items: seq<Item>, n: nat): (k: nat)
    ensures k <= |items|
  {
    if items == [] || n < |Frame(items[0])| then 0
    else 1 + Complete(items[1..], n - |Frame(items[0])|)
  }

  /** A stream that breaks off anywhere delivers exactly the events whose frames arrived completely,
      and never a damaged one. */
  lemma {:induction false} PrefixSafety<P>(items: seq<Item>, n: nat, f: Fields, decode: string -> Option<P>)
    requires forall i | 0 <= i < |items| :: Sendable(items[i], decode)
    requires f.event == "" && f.data == "" && n <= |Print(items)|
    ensures Read(Print(items)[..n], f, decode) == Reading(Delivered(items[..Complete(items, n)], decode), true)
    decreases |items|
  {
    hide Read, Frame, Sendable;
    if items == [] {
      ReadNothing(f, decode);
    } else {
      hide Delivered;
      var frame, rest := Frame(items[0]), Print(items[1..]);
      assert Print(items) == frame + rest;
      if n < |frame| {
        assert Print(items)[..n] == frame[..n];
        ReadPartialFrame(items[0], n, f, decode);
        NothingDelivered(items[..0], decode);
      } else {
        var m := n - |frame|;
        assert Print(items)[..n] == frame + rest[..m];
        var g := ReadFrame(items[0], rest[..m], f, decode);
        PrefixSafety(items[1..], m, g, decode);
        var k := Complete(items[1..], m);
        assert items[..k + 1][1..] == items[1..][..k];
        DeliveredFirst(items[..k + 1], decode);
      }
    }
  }
}
