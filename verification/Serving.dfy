/** The handler of one log stream (internal/logstream/sse.go, ServeSSE): its fields, its wake channel
    and the store it reads, against the state machine of Follow. Each method is one step of the
    handler's goroutine; between two of them anything else may happen. */
module Serving {
  import opened Retention
  import opened LogStore
  import opened Follow
  import opened Wrappers

  /** An event as it is written: name, id and text. */
  datatype Message = Message(kind: Kind, id: nat, text: string)

  function Written(e: Event): Message {
    Message(e.kind, e.id, e.text)
  }

  class Handler {
    const store: Store
    const key: string
    const wake: Wake
    var offset: nat

    /** Offset and channel are those of the reader, and the channel is subscribed. */
    ghost predicate Shows(reader: Reader)
      reads this`offset, wake`full, store`entries, store`clock, store`subs
    {
      && store.Valid() && wake in store.Subscribers(key)
      && !reader.phase.Off? && offset == reader.offset && wake.full == reader.wake
    }

    /** The service's entry is that of s. */
    ghost predicate Sees(s: State)
      reads store`entries, store`clock
    {
      s.lives != [] && SameOutput(s.entry, Lookup(store.State(), key))
    }

    /** Subscribes before anything is read. */
    constructor (store: Store, key: string, lastEventId: nat, ghost s: State, ghost reader: Reader, ghost r: ReaderId)
      requires store.Valid() && s.lives != []
      requires reader.phase.Off? && reader.client.lastId == lastEventId
      modifies store`subs
      ensures this.store == store && this.key == key
      ensures Shows(ReaderStep(s, reader, Connect(r)))
      ensures fresh(wake) && store.Subscribers(key) == old(store.Subscribers(key)) + {wake}
      ensures forall k | k != key :: store.Subscribers(k) == old(store.Subscribers(k))
    {
      var w := store.Subscribe(key);
      this.store := store;
      this.key := key;
      wake := w;
      offset := lastEventId;
    }

    /** The read before the loop: the first event of a client without an id is a reset. */
    method FirstRead(ghost s: State, ghost reader: Reader, ghost r: ReaderId) returns (m: Message)
      requires Shows(reader) && Sees(s) && reader.phase.Subscribed?
      ensures var phase := ReaderStep(s, reader, Action.FirstRead(r)).phase;
              phase.Sending? && m == Written(phase.event)
    {
      var read := store.ReadFrom(key, offset);
      m := Message(if read.reset || offset == 0 then Reset else Delta, read.next, read.text);
    }

    /** The receive from the wake channel. */
    method TakeWake(ghost s: State, ghost reader: Reader, ghost r: ReaderId)
      requires Shows(reader) && reader.phase.Parked? && wake.full && s.lives != []
      modifies wake
      ensures Shows(ReaderStep(s, reader, Action.TakeWake(r)))
      ensures ReaderStep(s, reader, Action.TakeWake(r)).phase.Woken?
    {
      wake.full := false;
    }

    /** The read in the loop: nothing is sent if there is nothing new. */
    method ReadAgain(ghost s: State, ghost reader: Reader, ghost r: ReaderId) returns (m: Option<Message>)
      requires Shows(reader) && Sees(s) && reader.phase.Woken?
      ensures var phase := ReaderStep(s, reader, Action.ReadAgain(r)).phase;
              match m
              case None => phase.Parked?
              case Some(e) => phase.Sending? && e == Written(phase.event)
    {
      var read := store.ReadFrom(key, offset);
      if read.text == "" && !read.reset {
        return None;
      }
      return Some(Message(if read.reset then Reset else Delta, read.next, read.text));
    }

    /** After the event has been written, the loop goes on from its id. */
    method Sent(m: Message, ghost s: State, ghost reader: Reader, ghost r: ReaderId)
      requires Shows(reader) && reader.phase.Sending? && m == Written(reader.phase.event) && s.lives != []
      modifies this`offset
      ensures Shows(ReaderStep(s, reader, Send(r)))
    {
      offset := m.id;
    }

    /** The exit at a keep-alive when the mapping is gone: one more message, and the deferred cancel. */
    method SendGone(ghost s: State, ghost reader: Reader, ghost r: ReaderId) returns (m: Message)
      requires Shows(reader) && reader.phase.Parked? && s.lives != []
      modifies store`subs
      ensures m == Message(Gone, offset, "")
      ensures var reader' := ReaderStep(s, reader, Action.SendGone(r));
              reader'.phase.Off? && exists e :: reader'.flight == reader.flight + [e] && m == Written(e)
      ensures store.Valid() && store.Subscribers(key) == old(store.Subscribers(key)) - {wake}
      ensures forall k | k != key :: store.Subscribers(k) == old(store.Subscribers(k))
    {
      m := Message(Gone, offset, "");
      Finish(reader);
      ghost var gone := Event(Gone, reader.offset, "", reader.life);
      assert ReaderStep(s, reader, Action.SendGone(r)).flight == reader.flight + [gone];
    }

    /** The deferred cancel. */
    method Finish(ghost reader: Reader)
      requires Shows(reader)
      modifies store`subs
      ensures store.Valid() && store.Subscribers(key) == old(store.Subscribers(key)) - {wake}
      ensures forall k | k != key :: store.Subscribers(k) == old(store.Subscribers(k))
    {
      store.Cancel(key, wake);
    }

    /** What an Append to any service does to the handler: to its own service it is an append and
        leaves a signal; to another one it is an eviction or nothing. */
    method Append(k: string, text: string, ghost s: State, ghost reader: Reader)
      requires Shows(reader) && Sees(s) && store.clock < MAX_UINT64
      modifies store`entries, store`clock, store.Subscribers(k)
      ensures if k == key then Shows(WakeUp(reader)) && Sees(Step(s, Follow.Append(text), store.L))
              else Shows(reader) && (Sees(s) || Sees(Step(s, Evict, store.L)))
    {
      ghost var before := store.State();
      store.Append(k, text);
      StoreStepIsLogStep(before, k, text, store.State(), key, s, store.L);
      hide AppendStep, Extended;
    }
  }
}
