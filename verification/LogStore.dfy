/** The log store of the daemon (internal/logstream/store.go, Store): one retained window per
    service, least recently used services evicted, one-slot wake channels. */
module LogStore {
  import opened Lines
  import opened Retention
  import opened Wrappers

  /** Use stamps are uint64; the store never gets near the limit, since every Append costs one. */
  const MAX_UINT64: nat := 0xFFFF_FFFF_FFFF_FFFF

  datatype StoreVal = StoreVal(entries: map<string, Entry>, clock: nat)

  // ----- ReadFrom -------------------------------------------------------------------------

  datatype ReadResult = ReadResult(text: string, next: nat, captured: bool, reset: bool)

  function ReadAt(entry: Option<Entry>, offset: nat): ReadResult {
    match entry
    case None => ReadResult("", 0, false, offset != 0)
    case Some(e) =>
      if offset < e.start || offset > e.End() then ReadResult(e.buf, e.End(), true, true)
      else ReadResult(e.buf[offset - e.start..], e.End(), true, false)
  }

  /** Reading at an offset inside the window yields exactly the bytes of the history appended
      since; reading anywhere else yields the whole window and says so. */
  lemma ReadIsWindowOrDelta(H: string, e: Entry, offset: nat, L: Limits)
    requires WindowOf(H, e.start, e.buf, L)
    ensures var r := ReadAt(Some(e), offset);
            && r.next == |H| && r.captured
            && (r.reset <==> !(e.start <= offset <= |H|))
            && r.text == if r.reset then H[e.start..] else H[offset..]
  {
  }

  /** To a reader, a service without an entry is one with an empty entry, except that nothing has
      been captured. */
  lemma AbsentReadsAsEmpty(offset: nat)
    ensures ReadAt(None, offset) == ReadAt(Some(NO_OUTPUT), offset).(captured := false)
  {
    assert NO_OUTPUT.start == NO_OUTPUT.End() == 0;
    if offset == 0 {
      assert NO_OUTPUT.buf[0..] == "";
    } else {
      assert offset > NO_OUTPUT.End();
    }
  }

  // ----- Append, as a function of the stored values ---------------------------------------

  predicate IsOldest(entries: map<string, Entry>, k: string) {
    k in entries && forall j | j in entries :: entries[k].used <= entries[j].used
  }

  /** Stamps are distinct and bounded by the clock. */
  predicate StampsOk(st: StoreVal) {
    && (forall k | k in st.entries :: st.entries[k].used <= st.clock)
    && (forall j, k | j in st.entries && k in st.entries && j != k ::
          st.entries[j].used != st.entries[k].used)
  }

  /** The entry after appending text and trimming. */
  ghost function Extended(e: Entry, text: string, used: nat, L: Limits): Entry {
    Entry(Trimmed(e.buf + text, L), e.start + TrimCut(e.buf + text, L), used)
  }

  ghost function AppendTo(entries: map<string, Entry>, key: string, text: string, clock: nat, L: Limits)
    : StoreVal
  {
    var e := if key in entries then entries[key] else NO_OUTPUT;
    StoreVal(entries[key := Extended(e, text, clock + 1, L)], clock + 1)
  }

  /** One Append: the victim, if there is one, is a least recently used entry. */
  ghost predicate AppendStep(st: StoreVal, key: string, text: string, st': StoreVal, L: Limits) {
    if key in st.entries || |st.entries| < L.maxServices then
      st' == AppendTo(st.entries, key, text, st.clock, L)
    else
      exists victim :: IsOldest(st.entries, victim)
                       && st' == AppendTo(st.entries - {victim}, key, text, st.clock, L)
  }

  lemma AppendInRoom(st: StoreVal, key: string, text: string, L: Limits)
    ensures key in st.entries || |st.entries| < L.maxServices ==>
              AppendStep(st, key, text, AppendTo(st.entries, key, text, st.clock, L), L)
  {
  }

  lemma AppendEvicting(st: StoreVal, key: string, text: string, victim: string, L: Limits)
    requires key !in st.entries && |st.entries| >= L.maxServices && IsOldest(st.entries, victim)
    ensures AppendStep(st, key, text, AppendTo(st.entries - {victim}, key, text, st.clock, L), L)
  {
  }

  /** What one Append does to each entry: the one appended to is extended, or created and extended;
      every other one that survives is unchanged. */
  lemma AppendStepAt(st: StoreVal, key: string, text: string, st': StoreVal, k: string, L: Limits)
    requires AppendStep(st, key, text, st', L)
    ensures key in st'.entries && st'.clock == st.clock + 1
    ensures k == key ==>
              st'.entries[k] == Extended(if k in st.entries then st.entries[k] else NO_OUTPUT,
                                         text, st.clock + 1, L)
    ensures k != key && k in st'.entries ==> k in st.entries && st'.entries[k] == st.entries[k]
  {
    hide Extended;
  }

  lemma AppendKeepsStamps(st: StoreVal, key: string, text: string, st': StoreVal, L: Limits)
    requires StampsOk(st) && AppendStep(st, key, text, st', L)
    ensures StampsOk(st')
  {
    hide Extended, AppendStep;
    forall k | k in st'.entries {
      AppendStepAt(st, key, text, st', k, L);
    }
    AppendStamp(st, key, text, st', L);
  }

  lemma AppendStamp(st: StoreVal, key: string, text: string, st': StoreVal, L: Limits)
    requires AppendStep(st, key, text, st', L)
    ensures key in st'.entries && st'.entries[key].used == st'.clock == st.clock + 1
  {
    AppendStepAt(st, key, text, st', key, L);
  }

  /** Whatever order the map is iterated in, there is only one possible outcome. */
  lemma AppendDeterministic(st: StoreVal, key: string, text: string, a: StoreVal, b: StoreVal, L: Limits)
    requires StampsOk(st)
    requires AppendStep(st, key, text, a, L) && AppendStep(st, key, text, b, L)
    ensures a == b
  {
    hide Extended;
    if key !in st.entries && |st.entries| >= L.maxServices {
      var v :| IsOldest(st.entries, v) && a == AppendTo(st.entries - {v}, key, text, st.clock, L);
      var w :| IsOldest(st.entries, w) && b == AppendTo(st.entries - {w}, key, text, st.clock, L);
      assert v == w;
    }
  }

  // ----- the least recently used services are the evicted ones -----------------------------

  predicate IsLastUse(keys: seq<string>, k: string, i: nat) {
    i < |keys| && keys[i] == k && forall j | i < j < |keys| :: keys[j] != k
  }

  lemma {:induction false} LastUseExists(keys: seq<string>, k: string)
    requires k in keys
    ensures exists i: nat :: IsLastUse(keys, k, i)
  {
    var n := |keys| - 1;
    if keys[n] == k {
      assert IsLastUse(keys, k, n);
    } else {
      LastUseExists(keys[..n], k);
      var i: nat :| IsLastUse(keys[..n], k, i);
      assert IsLastUse(keys, k, i);
    }
  }

  ghost function LastUse(keys: seq<string>, k: string): (i: nat)
    requires k in keys
    ensures i < |keys| && IsLastUse(keys, k, i)
  {
    LastUseExists(keys, k);
    var i: nat :| IsLastUse(keys, k, i);
    i
  }

  function Distinct(keys: seq<string>): set<string> {
    set k | k in keys
  }

  /** S consists of the n most recently used keys, or of all of them if there are fewer. */
  ghost predicate MostRecent(S: set<string>, keys: seq<string>, n: nat) {
    && S <= Distinct(keys)
    && |S| == Min(|Distinct(keys)|, n)
    && forall k, j | k in S && j in keys && j !in S :: LastUse(keys, j) < LastUse(keys, k)
  }

  lemma SubsetOfSameSize(A: set<string>, B: set<string>)
    requires A <= B && |A| == |B|
    ensures A == B
  {
    assert B == A + (B - A);
    assert |B - A| == 0;
  }

  /** "The n most recently used keys" names at most one set. */
  lemma MostRecentUnique(S: set<string>, T: set<string>, keys: seq<string>, n: nat)
    requires MostRecent(S, keys, n) && MostRecent(T, keys, n)
    ensures S == T
  {
    if k :| k in S && k !in T {
      if j :| j in T && j !in S {
        assert false;
      }
      SubsetOfSameSize(T, S);
    } else {
      SubsetOfSameSize(S, T);
    }
  }

  lemma LastUseAfter(keys: seq<string>, key: string, k: string)
    requires k == key || k in keys
    ensures LastUse(keys + [key], k) == if k == key then |keys| else LastUse(keys, k)
  {
    if k == key {
      assert IsLastUse(keys + [key], k, |keys|);
    } else {
      assert IsLastUse(keys + [key], k, LastUse(keys, k));
    }
  }

  lemma DistinctAfter(keys: seq<string>, key: string)
    ensures Distinct(keys + [key]) == Distinct(keys) + {key}
  {
  }

  /** Using a key that is already kept keeps the same keys. */
  lemma UseKept(S: set<string>, keys: seq<string>, key: string, n: nat)
    requires MostRecent(S, keys, n) && key in S
    ensures MostRecent(S, keys + [key], n)
  {
    DistinctAfter(keys, key);
    assert Distinct(keys) + {key} == Distinct(keys);
    forall k, j | k in S && j in keys + [key] && j !in S
      ensures LastUse(keys + [key], j) < LastUse(keys + [key], k)
    {
      LastUseAfter(keys, key, k);
      LastUseAfter(keys, key, j);
    }
  }

  /** While there is room every key is kept. */
  lemma UseNew(S: set<string>, keys: seq<string>, key: string, n: nat)
    requires MostRecent(S, keys, n) && key !in S && |S| < n
    ensures MostRecent(S + {key}, keys + [key], n)
  {
    DistinctAfter(keys, key);
    SubsetOfSameSize(S, Distinct(keys));
  }

  /** Without room, the new key replaces the least recently used one. */
  lemma UseEvicting(S: set<string>, keys: seq<string>, key: string, n: nat, v: string)
    requires MostRecent(S, keys, n) && key !in S && |S| == n
    requires v in S && forall k | k in S :: LastUse(keys, v) <= LastUse(keys, k)
    ensures MostRecent(S - {v} + {key}, keys + [key], n)
  {
    hide IsLastUse;
    var S' := S - {v} + {key};
    DistinctAfter(keys, key);
    GrownSize(Distinct(keys), key);
    forall k, j | k in S' && j in keys + [key] && j !in S'
      ensures LastUse(keys + [key], j) < LastUse(keys + [key], k)
    {
      LastUseAfter(keys, key, k);
      LastUseAfter(keys, key, j);
      if k != key && j == v {
        LastUseInjective(keys, k, v);
      }
    }
  }

  lemma GrownSize(A: set<string>, x: string)
    ensures |A| <= |A + {x}|
  {
    assert A + {x} == A + ({x} - A);
  }

  lemma LastUseInjective(keys: seq<string>, k: string, j: string)
    requires k in keys && j in keys && k != j
    ensures LastUse(keys, k) != LastUse(keys, j)
  {
    assert keys[LastUse(keys, k)] == k;
  }

  /** What a run of Appends to the given keys, in that order, leaves in the store. */
  ghost predicate LruInvariant(st: StoreVal, keys: seq<string>, L: Limits) {
    && st.clock == |keys|
    && MostRecent(st.entries.Keys, keys, L.maxServices)
    && forall k | k in st.entries :: st.entries[k].used == LastUse(keys, k) + 1
  }

  lemma LruStampsOk(st: StoreVal, keys: seq<string>, L: Limits)
    requires LruInvariant(st, keys, L)
    ensures StampsOk(st)
  {
  }

  lemma AppendToStamps(entries: map<string, Entry>, keys: seq<string>, key: string, text: string, L: Limits)
    requires forall k | k in entries :: k in keys && entries[k].used == LastUse(keys, k) + 1
    ensures var st' := AppendTo(entries, key, text, |keys|, L);
            && st'.clock == |keys + [key]|
            && st'.entries.Keys == entries.Keys + {key}
            && forall k | k in st'.entries :: st'.entries[k].used == LastUse(keys + [key], k) + 1
  {
    hide Trimmed, TrimCut;
    forall k | k in entries || k == key {
      LastUseAfter(keys, key, k);
    }
  }

  /** An Append that evicts nothing. */
  lemma RoomKeepsLru(st: StoreVal, keys: seq<string>, key: string, text: string, L: Limits)
    requires LruInvariant(st, keys, L) && (key in st.entries || |st.entries| < L.maxServices)
    ensures LruInvariant(AppendTo(st.entries, key, text, st.clock, L), keys + [key], L)
  {
    var S := st.entries.Keys;
    AppendToStamps(st.entries, keys, key, text, L);
    hide MostRecent, LastUse, AppendTo;
    if key in S {
      UseKept(S, keys, key, L.maxServices);
      assert S + {key} == S;
    } else {
      MostRecentSize(S, keys, L.maxServices);
      UseNew(S, keys, key, L.maxServices);
    }
  }

  /** An Append that evicts a least recently used service. */
  lemma EvictionKeepsLru(st: StoreVal, keys: seq<string>, key: string, text: string, v: string, L: Limits)
    requires LruInvariant(st, keys, L) && key !in st.entries && |st.entries| >= L.maxServices
    requires IsOldest(st.entries, v)
    ensures LruInvariant(AppendTo(st.entries - {v}, key, text, st.clock, L), keys + [key], L)
  {
    var S := st.entries.Keys;
    MostRecentSize(S, keys, L.maxServices);
    AppendToStamps(st.entries - {v}, keys, key, text, L);
    hide MostRecent, LastUse, AppendTo;
    UseEvicting(S, keys, key, L.maxServices, v);
    assert (st.entries - {v}).Keys == S - {v};
  }

  lemma MostRecentSize(S: set<string>, keys: seq<string>, n: nat)
    requires MostRecent(S, keys, n)
    ensures |S| <= n && forall k | k in S :: k in keys
  {
  }

  lemma AppendKeepsLru(st: StoreVal, keys: seq<string>, key: string, text: string, st': StoreVal, L: Limits)
    requires LruInvariant(st, keys, L) && AppendStep(st, key, text, st', L)
    ensures LruInvariant(st', keys + [key], L)
  {
    hide LruInvariant, AppendTo, IsOldest;
    if key in st.entries || |st.entries| < L.maxServices {
      RoomKeepsLru(st, keys, key, text, L);
    } else {
      var v :| IsOldest(st.entries, v) && st' == AppendTo(st.entries - {v}, key, text, st.clock, L);
      EvictionKeepsLru(st, keys, key, text, v, L);
    }
  }

  // ----- runs ------------------------------------------------------------------------------

  datatype Op = Op(key: string, text: string)

  function KeysOf(ops: seq<Op>): seq<string> {
    seq(|ops|, i requires 0 <= i < |ops| => ops[i].key)
  }

  /** The texts appended to k, in order. */
  function ChunksOf(ops: seq<Op>, k: string): seq<string> {
    if ops == [] then []
    else
      var init, last := ops[..|ops| - 1], ops[|ops| - 1];
      if last.key == k then ChunksOf(init, k) + [last.text] else ChunksOf(init, k)
  }

  /** The chunks appended to each stored service since its entry was created. */
  type Lives = map<string, seq<string>>

  function NextLives(st: StoreVal, lives: Lives, op: Op, st': StoreVal): Lives
    requires lives.Keys == st.entries.Keys && st'.entries.Keys <= st.entries.Keys + {op.key}
  {
    map k | k in st'.entries ::
      if k != op.key then lives[k]
      else (if k in st.entries then lives[k] else []) + [op.text]
  }

  ghost predicate LastStep(prev: StoreVal, before: Lives, op: Op, st: StoreVal, lives: Lives, L: Limits) {
    && AppendStep(prev, op.key, op.text, st, L)
    && before.Keys == prev.entries.Keys
    && st.entries.Keys <= prev.entries.Keys + {op.key}
    && lives == NextLives(prev, before, op, st)
  }

  /** st is what an empty store becomes by the given Appends; lives tells the stored services'
      current lifetimes. */
  ghost predicate Reaches(ops: seq<Op>, st: StoreVal, lives: Lives, L: Limits) {
    if ops == [] then st == StoreVal(map[], 0) && lives == map[]
    else
      var init, last := ops[..|ops| - 1], ops[|ops| - 1];
      exists prev, before :: Reaches(init, prev, before, L) && LastStep(prev, before, last, st, lives, L)
  }

  /** The state before the last Append. */
  lemma ReachedFrom(ops: seq<Op>, st: StoreVal, lives: Lives, L: Limits) returns (prev: StoreVal, before: Lives)
    requires ops != [] && Reaches(ops, st, lives, L)
    ensures Reaches(ops[..|ops| - 1], prev, before, L) && LastStep(prev, before, ops[|ops| - 1], st, lives, L)
  {
    hide LastStep;
    prev, before :| Reaches(ops[..|ops| - 1], prev, before, L)
                    && LastStep(prev, before, ops[|ops| - 1], st, lives, L);
  }

  lemma NothingReached(st: StoreVal, lives: Lives, L: Limits)
    requires Reaches([], st, lives, L)
    ensures st == StoreVal(map[], 0) && lives == map[]
  {
  }

  lemma NothingIsLru(L: Limits)
    ensures LruInvariant(StoreVal(map[], 0), KeysOf([]), L)
  {
    assert Distinct([]) == {};
  }

  lemma LastStepMeans(prev: StoreVal, before: Lives, op: Op, st: StoreVal, lives: Lives, L: Limits)
    requires LastStep(prev, before, op, st, lives, L)
    ensures AppendStep(prev, op.key, op.text, st, L) && lives.Keys == st.entries.Keys
  {
    hide AppendStep;
  }

  lemma KeysOfInit(ops: seq<Op>)
    requires ops != []
    ensures KeysOf(ops) == KeysOf(ops[..|ops| - 1]) + [ops[|ops| - 1].key]
  {
  }

  lemma {:induction false} ReachesKeepsLru(ops: seq<Op>, st: StoreVal, lives: Lives, L: Limits)
    requires Reaches(ops, st, lives, L)
    ensures LruInvariant(st, KeysOf(ops), L)
    ensures lives.Keys == st.entries.Keys
  {
    hide Reaches, LastStep, LruInvariant, AppendStep, KeysOf;
    if ops == [] {
      NothingReached(st, lives, L);
      NothingIsLru(L);
    } else {
      var init, last := ops[..|ops| - 1], ops[|ops| - 1];
      var prev, before := ReachedFrom(ops, st, lives, L);
      ReachesKeepsLru(init, prev, before, L);
      KeysOfInit(ops);
      LastStepMeans(prev, before, last, st, lives, L);
      AppendKeepsLru(prev, KeysOf(init), last.key, last.text, st, L);
    }
  }

  /** After any sequence of Appends exactly the maxServices most recently used services are kept. */
  lemma LeastRecentlyUsedAreEvicted(ops: seq<Op>, st: StoreVal, lives: Lives, L: Limits)
    requires Reaches(ops, st, lives, L)
    ensures MostRecent(st.entries.Keys, KeysOf(ops), L.maxServices)
    ensures StampsOk(st)
  {
    ReachesKeepsLru(ops, st, lives, L);
    LruStampsOk(st, KeysOf(ops), L);
  }

  /** The entry holds the window of the chunks of its lifetime. */
  ghost predicate EntryOf(e: Entry, chunks: seq<string>, L: Limits) {
    e.buf == WindowAfter(chunks, L) && WindowOf(Concat(chunks), e.start, e.buf, L)
  }

  lemma AppendKeepsEntry(e: Entry, chunks: seq<string>, text: string, used: nat, L: Limits)
    requires EntryOf(e, chunks, L)
    ensures EntryOf(Extended(e, text, used, L), chunks + [text], L)
  {
    hide TrimCut, WindowOf;
    assert (chunks + [text])[..|chunks|] == chunks;
    AppendKeepsWindow(Concat(chunks), e.start, e.buf, text, L);
  }

  lemma FreshEntry(L: Limits)
    ensures EntryOf(NO_OUTPUT, [], L)
  {
  }

  lemma StepKeepsWindows(prev: StoreVal, before: Lives, op: Op, st: StoreVal, lives: Lives, L: Limits)
    requires forall k | k in prev.entries :: k in before && EntryOf(prev.entries[k], before[k], L)
    requires LastStep(prev, before, op, st, lives, L)
    ensures forall k | k in st.entries :: EntryOf(st.entries[k], lives[k], L)
  {
    hide EntryOf, Extended, AppendStep;
    forall k | k in st.entries
      ensures EntryOf(st.entries[k], lives[k], L)
    {
      AppendStepAt(prev, op.key, op.text, st, k, L);
      if k == op.key && k in prev.entries {
        AppendKeepsEntry(prev.entries[k], before[k], op.text, prev.clock + 1, L);
      } else if k == op.key {
        FreshEntry(L);
        AppendKeepsEntry(NO_OUTPUT, [], op.text, prev.clock + 1, L);
        assert [] + [op.text] == [op.text];
      }
    }
  }

  /** In every reachable store each entry is an admissible window of everything appended to it in
      its lifetime, and the very window that appending the chunks to a fresh entry produces. */
  lemma {:induction false} StoredWindows(ops: seq<Op>, st: StoreVal, lives: Lives, L: Limits)
    requires Reaches(ops, st, lives, L)
    ensures lives.Keys == st.entries.Keys
    ensures forall k | k in st.entries :: EntryOf(st.entries[k], lives[k], L)
  {
    hide Reaches, LastStep, EntryOf, AppendStep;
    if ops == [] {
      NothingReached(st, lives, L);
    } else {
      var init, last := ops[..|ops| - 1], ops[|ops| - 1];
      var prev, before := ReachedFrom(ops, st, lives, L);
      StoredWindows(init, prev, before, L);
      LastStepMeans(prev, before, last, st, lives, L);
      StepKeepsWindows(prev, before, last, st, lives, L);
    }
  }

  lemma FewerDistinct(keys: seq<string>, key: string)
    ensures |Distinct(keys)| <= |Distinct(keys + [key])|
  {
    DistinctAfter(keys, key);
    assert Distinct(keys + [key]) == Distinct(keys) + ({key} - Distinct(keys));
  }

  lemma AllKept(st: StoreVal, keys: seq<string>, L: Limits)
    requires LruInvariant(st, keys, L) && |Distinct(keys)| <= L.maxServices
    ensures st.entries.Keys == Distinct(keys)
  {
    SubsetOfSameSize(st.entries.Keys, Distinct(keys));
  }

  /** As long as no more than maxServices services have produced output, nothing is evicted: every
      service's lifetime is all the output it ever produced. */
  lemma {:induction false} NoEvictionWithinCapacity(ops: seq<Op>, st: StoreVal, lives: Lives, L: Limits)
    requires Reaches(ops, st, lives, L)
    requires |Distinct(KeysOf(ops))| <= L.maxServices
    ensures st.entries.Keys == Distinct(KeysOf(ops)) == lives.Keys
    ensures forall k | k in lives :: lives[k] == ChunksOf(ops, k)
  {
    hide Reaches, LastStep, NextLives, ChunksOf, AppendStep, LruInvariant, KeysOf, Distinct;
    ReachesKeepsLru(ops, st, lives, L);
    AllKept(st, KeysOf(ops), L);
    if ops == [] {
      NothingReached(st, lives, L);
    } else {
      var init, last := ops[..|ops| - 1], ops[|ops| - 1];
      var prev, before := ReachedFrom(ops, st, lives, L);
      KeysOfInit(ops);
      FewerDistinct(KeysOf(init), last.key);
      NoEvictionWithinCapacity(init, prev, before, L);
      forall k | k in lives
        ensures lives[k] == ChunksOf(ops, k)
      {
        StepKeepsChunks(ops, prev, before, st, lives, k, L);
      }
    }
  }

  lemma StepKeepsChunks(ops: seq<Op>, prev: StoreVal, before: Lives, st: StoreVal, lives: Lives, k: string, L: Limits)
    requires ops != [] && k in st.entries
    requires LastStep(prev, before, ops[|ops| - 1], st, lives, L)
    requires before.Keys == Distinct(KeysOf(ops[..|ops| - 1]))
    requires k in before ==> before[k] == ChunksOf(ops[..|ops| - 1], k)
    ensures lives[k] == ChunksOf(ops, k)
  {
    hide AppendStep;
    if k !in before {
      NoChunks(ops[..|ops| - 1], k);
    }
  }

  lemma {:induction false} NoChunks(ops: seq<Op>, k: string)
    requires k !in KeysOf(ops)
    ensures ChunksOf(ops, k) == []
  {
    if ops != [] {
      KeysOfInit(ops);
      NoChunks(ops[..|ops| - 1], k);
    }
  }

  // ----- the store --------------------------------------------------------------------------

  /** A one-slot wake channel; full says whether a signal is pending. */
  class Wake {
    var full: bool

    constructor ()
      ensures !full
    {
      full := false;
    }
  }

  class Store {
    const L: Limits
    var entries: map<string, Entry>
    var subs: map<string, set<Wake>>
    var clock: nat

    ghost function State(): StoreVal
      reads this`entries, this`clock
    {
      StoreVal(entries, clock)
    }

    /** Stamps are distinct and bounded; no service has an empty set of subscribers, and no channel
        subscribes to two. */
    ghost predicate Valid()
      reads this`entries, this`clock, this`subs
    {
      && StampsOk(State())
      && (forall k | k in subs :: subs[k] != {})
      && forall j, k | j in subs && k in subs && j != k :: subs[j] !! subs[k]
    }

    function Subscribers(key: string): set<Wake>
      reads this`subs
    {
      if key in subs then subs[key] else {}
    }

    constructor (L: Limits)
      ensures this.L == L && Valid()
      ensures State() == StoreVal(map[], 0) && subs == map[]
    {
      this.L := L;
      entries, subs, clock := map[], map[], 0;
    }

    /** The eviction loop of Append, over the map in any order. */
    method FindOldest() returns (oldest: string)
      requires Valid() && clock < MAX_UINT64
      requires entries != map[]
      ensures IsOldest(entries, oldest)
    {
      oldest := "";
      var age := MAX_UINT64;
      var todo := entries.Keys;
      while todo != {}
        invariant todo <= entries.Keys
        invariant if todo == entries.Keys then age == MAX_UINT64
                  else oldest in entries && age == entries[oldest].used
        invariant forall k | k in entries && k !in todo :: age <= entries[k].used
        decreases |todo|
      {
        var k :| k in todo;
        if entries[k].used < age {
          oldest, age := k, entries[k].used;
        }
        todo := todo - {k};
      }
    }

    /** Append never blocks: it trims the window, stamps the entry, and leaves a pending signal
        with every subscriber of the service and with nobody else. */
    method Append(key: string, text: string)
      requires Valid() && clock < MAX_UINT64
      modifies this`entries, this`clock, Subscribers(key)
      ensures Valid()
      ensures AppendStep(old(State()), key, text, State(), L)
      ensures forall w | w in Subscribers(key) :: w.full
    {
      AppendToEntry(key, text);
      hide AppendStep, StampsOk;
      forall w | w in Subscribers(key) {
        w.full := true;
      }
    }

    /** Append up to the signals. */
    method AppendToEntry(key: string, text: string)
      requires Valid() && clock < MAX_UINT64
      modifies this`entries, this`clock
      ensures Valid()
      ensures AppendStep(old(State()), key, text, State(), L)
    {
      hide Trimmed, TrimCut, AppendStep, StampsOk;
      ghost var before := State();
      ghost var kept := MakeRoom(key, text);
      var e := if key in entries then entries[key] else NO_OUTPUT;
      e := Trim(e.(buf := e.buf + text), L);
      clock := clock + 1;
      entries := entries[key := e.(used := clock)];
      assert State() == AppendTo(kept, key, text, before.clock, L);
      AppendKeepsStamps(before, key, text, State(), L);
    }

    /** Evicts a least recently used entry if one is needed for key. */
    method MakeRoom(key: string, ghost text: string) returns (ghost kept: map<string, Entry>)
      requires Valid() && clock < MAX_UINT64
      modifies this`entries
      ensures entries == kept && (key in kept <==> key in old(entries))
      ensures AppendStep(old(State()), key, text, AppendTo(kept, key, text, clock, L), L)
    {
      hide AppendTo, AppendStep, StampsOk;
      if key !in entries && |entries| >= L.maxServices {
        var oldest := FindOldest();
        AppendEvicting(State(), key, text, oldest, L);
        entries := entries - {oldest};
      } else {
        AppendInRoom(State(), key, text, L);
      }
      kept := entries;
    }

    method ReadFrom(key: string, offset: nat) returns (r: ReadResult)
      ensures r == ReadAt(if key in entries then Some(entries[key]) else None, offset)
    {
      if key !in entries {
        return ReadResult("", 0, false, offset != 0);
      }
      var e := entries[key];
      if offset < e.start || offset > e.End() {
        return ReadResult(e.buf, e.End(), true, true);
      }
      return ReadResult(e.buf[offset - e.start..], e.End(), true, false);
    }

    method Subscribe(key: string) returns (w: Wake)
      requires Valid()
      modifies this`subs
      ensures Valid()
      ensures fresh(w) && !w.full
      ensures Subscribers(key) == old(Subscribers(key)) + {w}
      ensures forall k | k != key :: Subscribers(k) == old(Subscribers(k))
    {
      w := new Wake();
      subs := subs[key := (if key in subs then subs[key] else {}) + {w}];
    }

    /** The cancel function returned by Subscribe: the last one out removes the key. */
    method Cancel(key: string, w: Wake)
      requires Valid()
      modifies this`subs
      ensures Valid()
      ensures Subscribers(key) == old(Subscribers(key)) - {w}
      ensures forall k | k != key :: Subscribers(k) == old(Subscribers(k))
      ensures key in subs <==> Subscribers(key) != {}
    {
      if key in subs {
        subs := subs[key := subs[key] - {w}];
        if subs[key] == {} {
          subs := subs - {key};
        }
      }
    }
  }
}
