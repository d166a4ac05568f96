/** Event streams as section 9.2.6 of the WHATWG HTML Living Standard has clients parse them: an
    independent reader of what the daemon sends (internal/logstream/sse.go, the send closure). The
    browser's log view is such a client. */
module EventStream {
  import opened Text
  import S = Sse
  import D = Decimal

  /** A dispatched message event: its type, its data and the last event id. */
  datatype Message = Message(kind: string, data: string, lastEventId: string)

  /** The parser's buffers; id is the last event id. */
  datatype Buffers = Buffers(kind: string, data: string, id: string)

  /** The first line end, or -1. */
  function LineEnd(s: string): (k: int)
    ensures -1 <= k < |s|
    ensures k >= 0 ==> s[k] == '\n' || s[k] == '\r'
    ensures forall i | 0 <= i < (if k < 0 then |s| else k) :: s[i] != '\n' && s[i] != '\r'
  {
    if s == "" then -1
    else if s[0] == '\n' || s[0] == '\r' then 0
    else
      var k := LineEnd(s[1..]);
      if k < 0 then -1 else k + 1
  }

  /** What follows the line that ends at k. */
  function Behind(s: string, k: nat): (rest: string)
    requires k < |s|
    ensures |rest| < |s|
  {
    if s[k] == '\r' && k + 1 < |s| && s[k + 1] == '\n' then s[k + 2..] else s[k + 1..]
  }

  function Colon(line: string): (k: int)
    ensures -1 <= k < |line|
    ensures k >= 0 ==> line[k] == ':'
    ensures forall i | 0 <= i < (if k < 0 then |line| else k) :: line[i] != ':'
  {
    if line == "" then -1
    else if line[0] == ':' then 0
    else
      var k := Colon(line[1..]);
      if k < 0 then -1 else k + 1
  }

  /** The name of a line's field: what precedes the first colon. */
  function FieldName(line: string): string {
    var k := Colon(line);
    if k < 0 then line else line[..k]
  }

  /** Its value: what follows, without one leading space. */
  function FieldValue(line: string): string {
    var k := Colon(line);
    if k < 0 then ""
    else if k + 1 < |line| && line[k + 1] == ' ' then line[k + 2..]
    else line[k + 1..]
  }

  /** The buffers after a line that is not blank. */
  function Process(b: Buffers, line: string): Buffers {
    if FieldName(line) == "event" then b.(kind := FieldValue(line))
    else if FieldName(line) == "data" then b.(data := b.data + FieldValue(line) + "\n")
    else if FieldName(line) == "id" && '\0' !in FieldValue(line) then b.(id := FieldValue(line))
    else b
  }

  /** A blank line: the event, unless there is no data. */
  function Dispatched(b: Buffers): seq<Message> {
    if b.data == "" then []
    else
      var data := if b.data[|b.data| - 1] == '\n' then b.data[..|b.data| - 1] else b.data;
      [Message(if b.kind == "" then "message" else b.kind, data, b.id)]
  }

  /** All events of a stream. An event that is not complete at the end is discarded. */
  function Parse(s: string, b: Buffers): seq<Message>
    decreases |s|
  {
    var k := LineEnd(s);
    if k < 0 then []
    else if k == 0 then Dispatched(b) + Parse(Behind(s, 0), Buffers("", "", b.id))
    else Parse(Behind(s, k), Process(b, s[..k]))
  }

  // ----- what the daemon sends --------------------------------------------------------------

  /** Neither line end is in the text. */
  predicate Plain(s: string) {
    s != "" && forall i | 0 <= i < |s| :: s[i] != '\n' && s[i] != '\r'
  }

  predicate Sendable(i: S.Item) {
    i.Sent? ==> Plain(i.name) && Plain(i.data)
  }

  /** What a client should be given. */
  function Messages(items: seq<S.Item>): seq<Message> {
    if items == [] then []
    else if items[0].KeepAlive? then Messages(items[1..])
    else [Message(items[0].name, items[0].data, D.FormatUint(items[0].id))] + Messages(items[1..])
  }

  lemma ParseLine(line: string, rest: string, b: Buffers)
    requires Plain(line)
    ensures Parse(line + "\n" + rest, b) == Parse(rest, Process(b, line))
  {
    hide Process;
    var s := line + "\n" + rest;
    assert s[|line|] == '\n' && forall i | 0 <= i < |line| :: s[i] == line[i];
    assert LineEnd(s) == |line| && s[..|line|] == line && s[|line| + 1..] == rest;
  }

  lemma ParseBlank(rest: string, b: Buffers)
    ensures Parse("\n" + rest, b) == Dispatched(b) + Parse(rest, Buffers("", "", b.id))
  {
    hide Dispatched;
    var s := "\n" + rest;
    assert s[0] == '\n' && s[1..] == rest;
    assert LineEnd(s) == 0;
  }

  lemma FieldLine(name: string, value: string)
    requires ':' !in name
    ensures FieldName(name + ": " + value) == name && FieldValue(name + ": " + value) == value
  {
    var line := name + ": " + value;
    assert line[|name|] == ':' && forall i | 0 <= i < |name| :: line[i] == name[i];
    assert Colon(line) == |name|;
    assert line[..|name|] == name && line[|name| + 1] == ' ' && line[|name| + 2..] == value;
  }

  lemma PlainField(name: string, value: string)
    requires Plain(name) && Plain(value)
    ensures Plain(name + ": " + value)
  {
  }

  lemma FieldsProcessed(b: Buffers, name: string, id: string, data: string)
    requires '\0' !in id
    ensures Process(b, "event" + ": " + name) == b.(kind := name)
    ensures Process(b, "id" + ": " + id) == b.(id := id)
    ensures Process(b, "data" + ": " + data) == b.(data := b.data + data + "\n")
    ensures Process(b, ": keep-alive") == b
  {
    hide FieldName, FieldValue;
    FieldLine("event", name);
    FieldLine("id", id);
    FieldLine("data", data);
    FieldLine("", "keep-alive");
    assert "" + ": " + "keep-alive" == ": keep-alive";
    assert "id"[0] == 'i' && "data"[0] == 'd' && "event"[0] == 'e';
  }

  lemma IdIsPlain(id: nat)
    ensures Plain(D.FormatUint(id)) && '\0' !in D.FormatUint(id)
  {
    D.FormatUintIsDecimal(id);
    hide D.FormatUint, D.DecimalValue;
    var s := D.FormatUint(id);
    forall i | 0 <= i < |s|
      ensures s[i] != '\n' && s[i] != '\r' && s[i] != '\0'
    {
      assert D.IsDigit(s[i]);
    }
  }

  /** A frame dispatches its event, and leaves the buffers empty. */
  lemma ParseFrame(i: S.Item, rest: string, id: string) returns (id': string)
    requires Sendable(i)
    ensures Parse(S.Frame(i) + rest, Buffers("", "", id)) == Messages([i]) + Parse(rest, Buffers("", "", id'))
  {
    hide Parse, Process, D.FormatUint;
    var b := Buffers("", "", id);
    match i
    case Sent(name, n, data) =>
      id' := D.FormatUint(n);
      IdIsPlain(n);
      FieldsProcessed(b, name, id', data);
      var b1 := b.(kind := name);
      FieldsProcessed(b1, name, id', data);
      var b2 := b1.(id := id');
      FieldsProcessed(b2, name, id', data);
      var l1, l2, l3 := "event" + ": " + name, "id" + ": " + id', "data" + ": " + data;
      PlainField("event", name);
      PlainField("id", id');
      PlainField("data", data);
      SameFrame(name, n, data, rest);
      ParseLine(l1, l2 + "\n" + (l3 + "\n" + ("\n" + rest)), b);
      ParseLine(l2, l3 + "\n" + ("\n" + rest), b1);
      ParseLine(l3, "\n" + rest, b2);
      var b3 := b2.(data := data + "\n");
      assert "" + data + "\n" == data + "\n" && (data + "\n")[..|data|] == data;
      ParseBlank(rest, b3);
      OneMessage(i);
    case KeepAlive =>
      id' := id;
      FieldsProcessed(b, "", "", "");
      assert S.Frame(i) + rest == ": keep-alive" + "\n" + ("\n" + rest);
      ParseLine(": keep-alive", "\n" + rest, b);
      ParseBlank(rest, b);
      OneMessage(i);
  }

  lemma SameFrame(name: string, n: nat, data: string, rest: string)
    ensures S.Frame(S.Sent(name, n, data)) + rest ==
            ("event" + ": " + name) + "\n"
            + (("id" + ": " + D.FormatUint(n)) + "\n" + (("data" + ": " + data) + "\n" + ("\n" + rest)))
  {
    hide D.FormatUint;
    assert "event" + ": " == "event: " && "id" + ": " == "id: " && "data" + ": " == "data: ";
  }

  lemma OneMessage(i: S.Item)
    ensures Messages([i]) == if i.KeepAlive? then [] else [Message(i.name, i.data, D.FormatUint(i.id))]
  {
    hide D.FormatUint;
    assert [i][1..] == [];
  }

  lemma MessagesFirst(items: seq<S.Item>)
    requires items != []
    ensures Messages(items) == Messages([items[0]]) + Messages(items[1..])
  {
    hide D.FormatUint;
    OneMessage(items[0]);
  }

  /** Any client that follows the standard is given exactly the events sent, with their names as types,
      their payloads as data and their ids in decimal, in order; keep-alives give it nothing. */
  lemma {:induction false} StandardRoundTrip(items: seq<S.Item>, id: string)
    requires forall i | 0 <= i < |items| :: Sendable(items[i])
    ensures Parse(S.Print(items), Buffers("", "", id)) == Messages(items)
    decreases |items|
  {
    hide Parse, S.Frame, Messages, Sendable;
    if items == [] {
      NothingSent(id);
    } else {
      var id' := ParseFrame(items[0], S.Print(items[1..]), id);
      StandardRoundTrip(items[1..], id');
      MessagesFirst(items);
    }
  }

  lemma NothingSent(id: string)
    ensures Parse("", Buffers("", "", id)) == [] && Messages([]) == []
  {
  }
}
