/**
 The steps of the interleaved ring add up: a Put left alone is `PutSpec`, a Get left alone is
 `GetSpec`. Runs made of such pieces show what happens to a Get that the writer overtakes.
 */
module RingRuns {
  import opened Words
  import Crc32
  import opened RingSpec
  import opened RingInterleaving

  lemma {:induction false} RunConcat(s: State, a: seq<Action>, b: seq<Action>)
    requires Safe(s)
    ensures Run(s, a + b) == Run(Run(s, a), b)
    decreases b
  {
    if b == [] {
      assert a + b == a;
    } else {
      var m := |b| - 1;
      assert (a + b)[..|a + b| - 1] == a + b[..m];
      RunConcat(s, a, b[..m]);
    }
  }

  function Repeat(a: Action, n: nat): (acts: seq<Action>)
    ensures |acts| == n
    decreases n
  {
    if n == 0 then [] else Repeat(a, n - 1) + [a]
  }

  lemma RunRepeat(s: State, a: Action, n: nat)
    requires Safe(s)
    ensures Run(s, Repeat(a, n + 1)) == Next(Run(s, Repeat(a, n)), a)
  {
    assert Repeat(a, n + 1)[..n] == Repeat(a, n);
  }

  // ---------------------------------------------------------------------------
  // A whole Put
  // ---------------------------------------------------------------------------

  function WholePut(e: Entry): seq<Action> {
    [BeginPut(e)] + Repeat(WriterStep, PUBLISH + 1)
  }

  function PartialSlot(old_: Slot, e: Entry, n: nat): Slot
    requires n <= PUBLISH
  {
    Slot(
      if n > 0 then e.time else old_.timestamp,
      if n > CHECKSUM then Crc32.Crc(e.payload) else old_.crc,
      if n > FIRST_BYTE then e.payload[..n - FIRST_BYTE] + old_.info[n - FIRST_BYTE..] else old_.info)
  }

  function AfterStores(s: State, e: Entry, n: nat): State
    requires Safe(s) && n <= PUBLISH
  {
    var i := PutSlot(s.ring.index);
    s.(ring := s.ring.(slots := s.ring.slots[i := PartialSlot(s.ring.slots[i], e, n)]),
       w := Storing(e, i, n),
       log := if n == 0 then s.log else s.log + [e])
  }

  lemma StoreExtends(old_: Slot, e: Entry, n: nat)
    requires n < PUBLISH
    ensures Store(PartialSlot(old_, e, n), e, n) == PartialSlot(old_, e, n + 1)
  {
    if n >= FIRST_BYTE {
      var b := n - FIRST_BYTE;
      assert (e.payload[..b] + old_.info[b..])[b := e.payload[b]] == e.payload[..b + 1] + old_.info[b + 1..];
      assert n == FIRST_BYTE ==> old_.info == e.payload[..b] + old_.info[b..];
    }
  }

  lemma NothingStoredYet(s: State, e: Entry)
    requires Safe(s) && s.w.Idle?
    ensures AfterStores(s, e, 0) == Next(s, BeginPut(e))
  {
    var i := PutSlot(s.ring.index);
    assert s.ring.slots[i := s.ring.slots[i]] == s.ring.slots;
  }

  lemma OneMoreStore(s: State, s1: State, e: Entry, n: nat)
    requires Safe(s) && s.w.Idle? && n < PUBLISH
    requires Safe(s1) && s1 == AfterStores(s, e, n)
    ensures WriterNext(s1) == AfterStores(s, e, n + 1)
  {
    var i := PutSlot(s.ring.index);
    StoreExtends(s.ring.slots[i], e, n);
    assert WriterNext(s1).ring.slots == s.ring.slots[i := PartialSlot(s.ring.slots[i], e, n + 1)];
  }

  lemma {:induction false} StoresAddUp(s: State, e: Entry, n: nat)
    requires Safe(s) && s.w.Idle? && n <= PUBLISH
    ensures Run(Next(s, BeginPut(e)), Repeat(WriterStep, n)) == AfterStores(s, e, n)
    decreases n
  {
    var begun := Next(s, BeginPut(e));
    if n == 0 {
      NothingStoredYet(s, e);
    } else {
      StoresAddUp(s, e, n - 1);
      RunRepeat(begun, WriterStep, n - 1);
      OneMoreStore(s, Run(begun, Repeat(WriterStep, n - 1)), e, n - 1);
    }
  }

  /** A Put with nothing in between publishes its entry and leaves the reader alone. */
  lemma WholePutIsPutSpec(s: State, e: Entry)
    requires Safe(s) && s.w.Idle?
    ensures Run(s, WholePut(e)) == s.(ring := PutSpec(s.ring, e), log := s.log + [e])
  {
    RunConcat(s, [BeginPut(e)], Repeat(WriterStep, PUBLISH + 1));
    assert [BeginPut(e)][..0] == [];
    assert Run(s, [BeginPut(e)]) == Next(s, BeginPut(e));
    StoresAddUp(s, e, PUBLISH);
    RunRepeat(Next(s, BeginPut(e)), WriterStep, PUBLISH);
    var old_ := s.ring.slots[PutSlot(s.ring.index)];
    assert e.payload[..INFO_SIZE] + old_.info[INFO_SIZE..] == e.payload;
  }

  function WholePuts(es: seq<Entry>): seq<Action>
    decreases es
  {
    if es == [] then [] else WholePuts(es[..|es| - 1]) + WholePut(es[|es| - 1])
  }

  lemma AfterOneMorePut(puts: seq<Entry>, e: Entry)
    ensures AfterPuts(puts + [e]) == PutSpec(AfterPuts(puts), e)
  {
    assert (puts + [e])[..|puts + [e]| - 1] == puts;
  }

  lemma OneMoreWholePut(s: State, puts: seq<Entry>, e: Entry, puts': seq<Entry>, log': seq<Entry>)
    requires Safe(s) && s.w.Idle? && s.ring == AfterPuts(puts) && puts' == puts + [e] && log' == s.log + [e]
    ensures Run(s, WholePut(e)) == s.(ring := AfterPuts(puts'), log := log')
  {
    WholePutIsPutSpec(s, e);
    AfterOneMorePut(puts, e);
  }

  lemma AppendLast(done: seq<Entry>, front: seq<Entry>, e: Entry)
    ensures done + front + [e] == done + (front + [e])
  {
  }

  lemma WholePutsOneMore(s: State, front: seq<Entry>, e: Entry)
    requires Safe(s)
    ensures Run(s, WholePuts(front + [e])) == Run(Run(s, WholePuts(front)), WholePut(e))
  {
    assert (front + [e])[..|front + [e]| - 1] == front;
    RunConcat(s, WholePuts(front), WholePut(e));
  }

  lemma {:induction false} WholePutsAddUp(s: State, done: seq<Entry>, es: seq<Entry>)
    requires Safe(s) && s.w.Idle? && s.ring == AfterPuts(done)
    ensures Run(s, WholePuts(es)) == s.(ring := AfterPuts(done + es), log := s.log + es)
    decreases es
  {
    if es == [] {
      assert done + es == done && s.log + es == s.log;
    } else {
      var front, e := es[..|es| - 1], es[|es| - 1];
      assert front + [e] == es;
      WholePutsAddUp(s, done, front);
      WholePutsOneMore(s, front, e);
      AppendLast(done, front, e);
      AppendLast(s.log, front, e);
      OneMoreWholePut(Run(s, WholePuts(front)), done + front, e, done + es, s.log + es);
    }
  }

  // ---------------------------------------------------------------------------
  // A whole Get
  // ---------------------------------------------------------------------------

  /** One pass over a slot: the bytes, then the checksum. */
  const PASS := INFO_SIZE + 1

  function AfterLoads(s: State, n: nat): State
    requires Safe(s) && s.r.Copying? && n <= INFO_SIZE
  {
    s.(r := s.r.(copied := s.ring.slots[s.r.slot].info[..n]))
  }

  lemma OneMoreLoad(s: State, s1: State, now: uint32, n: nat)
    requires Safe(s) && s.r.Copying? && n < INFO_SIZE
    requires Safe(s1) && s1 == AfterLoads(s, n)
    ensures Next(s1, ReaderStep(now)) == AfterLoads(s, n + 1)
  {
    var info := s.ring.slots[s.r.slot].info;
    assert info[..n] + [info[n]] == info[..n + 1];
  }

  lemma {:induction false} CopyAddsUp(s: State, now: uint32, n: nat)
    requires Safe(s) && s.r.Copying? && s.r.copied == [] && n <= INFO_SIZE
    ensures Run(s, Repeat(ReaderStep(now), n)) == AfterLoads(s, n)
    decreases n
  {
    if n == 0 {
      assert s.ring.slots[s.r.slot].info[..0] == [];
    } else {
      CopyAddsUp(s, now, n - 1);
      RunRepeat(s, ReaderStep(now), n - 1);
      OneMoreLoad(s, Run(s, Repeat(ReaderStep(now), n - 1)), now, n - 1);
    }
  }

  lemma PassAddsUp(s: State, now: uint32)
    requires Safe(s) && s.r.Copying? && s.r.copied == []
    ensures var slot := s.ring.slots[s.r.slot];
            Run(s, Repeat(ReaderStep(now), PASS)) == s.(r := CheckCopy(s.r.(copied := slot.info), slot))
  {
    var info := s.ring.slots[s.r.slot].info;
    CopyAddsUp(s, now, INFO_SIZE);
    RunRepeat(s, ReaderStep(now), INFO_SIZE);
    assert info[..INFO_SIZE] == info;
  }

  lemma DoneStaysOnce(s: State, now: uint32)
    requires Safe(s) && s.r.Done?
    ensures Next(s, ReaderStep(now)) == s
  {
  }

  lemma {:induction false} DoneStays(s: State, now: uint32, n: nat)
    requires Safe(s) && s.r.Done?
    ensures Run(s, Repeat(ReaderStep(now), n)) == s
    decreases n
  {
    if n == 0 {
    } else {
      DoneStays(s, now, n - 1);
      DoneStaysOnce(s, now);
      RunRepeat(s, ReaderStep(now), n - 1);
    }
  }

  /** The clock shows `now` at the first step and `later` at the others. */
  function AgeThenPass(now: uint32, later: uint32): seq<Action> {
    [ReaderStep(now)] + Repeat(ReaderStep(later), PASS)
  }

  /** One age check and one pass, from the state before the age check of slot i; a retry keeps its first clock. */
  lemma RoundAddsUp(s: State, now: uint32, later: uint32, i: nat, clock: uint32, retry: bool)
    requires Safe(s) && i < CACHE_BUF_MAX
    requires if retry then s.r.Retrying? && s.r.slot == i && s.r.now == clock
             else s.r.Fetched? && s.r.index == i && clock == now
    ensures var slot := s.ring.slots[i];
            Run(s, AgeThenPass(now, later))
            == s.(r := if Age(clock, slot.timestamp) > s.r.range
                       then Done(s.r.k, clock, s.r.range, -1, [], retry)
                       else CheckCopy(Copying(s.r.k, i, clock, s.r.range, slot.info, retry), slot))
  {
    var s1 := Next(s, ReaderStep(now));
    RunConcat(s, [ReaderStep(now)], Repeat(ReaderStep(later), PASS));
    assert [ReaderStep(now)][..0] == [];
    assert Run(s, [ReaderStep(now)]) == s1;
    if s1.r.Done? {
      DoneStays(s1, later, PASS);
    } else {
      PassAddsUp(s1, later);
    }
  }

  /** The clock may move on during a Get; only its first reading counts. */
  function WholeGet(now: uint32, later: uint32): seq<Action> {
    AgeThenPass(now, later) + AgeThenPass(later, later)
  }

  lemma DoneStaysRound(s: State, now: uint32)
    requires Safe(s) && s.r.Done?
    ensures Run(s, AgeThenPass(now, now)) == s
  {
    RunConcat(s, [ReaderStep(now)], Repeat(ReaderStep(now), PASS));
    assert [ReaderStep(now)][..0] == [];
    assert Run(s, [ReaderStep(now)]) == s;
    DoneStays(s, now, PASS);
  }

  /** A Get with nothing in between its first and last slot access has the result of `GetSpec`. */
  lemma WholeGetIsGetSpec(s: State, before: Payload, now: uint32, later: uint32)
    requires Safe(s) && s.r.Fetched? && s.r.index < CACHE_BUF_MAX
    ensures var s' := Run(s, WholeGet(now, later));
            var g := GetSpec(s.ring.(index := s.r.index), before, now, s.r.range);
            && s' == s.(r := s'.r) && s'.r.Done? && s'.r.k == s.r.k && s'.r.now == now && s'.r.range == s.r.range
            && s'.r.ret == g.ret && (g.ret == 0 ==> s'.r.payload == g.payload)
  {
    RunConcat(s, AgeThenPass(now, later), AgeThenPass(later, later));
    RoundAddsUp(s, now, later, s.r.index, now, false);
    var s1 := Run(s, AgeThenPass(now, later));
    if s1.r.Done? {
      DoneStaysRound(s1, later);
    } else {
      RoundAddsUp(s1, later, later, Former(s.r.index), now, true);
    }
  }

  // ---------------------------------------------------------------------------
  // Overtaking
  // ---------------------------------------------------------------------------

  lemma RunOne(s: State, a: Action)
    requires Safe(s)
    ensures Run(s, [a]) == Next(s, a)
  {
    assert [a][..0] == [];
  }

  /** One Put, then a Get that has read its index. */
  lemma FirstPut(first: Entry, range: uint32) returns (acts: seq<Action>)
    ensures Run(Start(), acts) == State(AfterPuts([first]), Idle, Fetched(1, 1, range), [first])
  {
    var put, get := WholePut(first), BeginGet(range);
    assert [] + [first] == [first];
    OneMoreWholePut(Start(), [], first, [first], [first]);
    RunOne(Run(Start(), put), get);
    RunConcat(Start(), put, [get]);
    acts := put + [get];
  }

  /** Whole Puts after that. */
  lemma PutsInsideGet(first: Entry, later: seq<Entry>, range: uint32, puts: seq<Entry>) returns (acts: seq<Action>)
    requires puts == [first] + later
    ensures Run(Start(), acts) == State(AfterPuts(puts), Idle, Fetched(1, 1, range), puts)
  {
    var before := FirstPut(first, range);
    WholePutsAddUp(Run(Start(), before), [first], later);
    RunConcat(Start(), before, WholePuts(later));
    acts := before + WholePuts(later);
  }

  lemma GetAfterSixteen(s: State, puts: seq<Entry>, range: uint32, now: uint32)
    requires |puts| == CACHE_BUF_MAX + 1 && s == State(AfterPuts(puts), Idle, Fetched(1, 1, range), puts)
    requires Fresh(now, puts[15].time, range)
    ensures var s' := Run(s, WholeGet(now, now));
            && s'.r.Done? && s'.r.k == 1 && s'.log == puts
            && s'.r.ret == 0 && s'.r.payload == puts[15].payload
  {
    assert s.ring.(index := 1) == s.ring;
    GetReturnsLastPut(puts, puts[15].payload, now, range);
    WholeGetIsGetSpec(s, puts[15].payload, now, now);
  }

  /** When 15 Puts after Put 1 fall inside a Get of Put 1, the Get returns the last of them. */
  lemma FifteenPutsOverrun(first: Entry, later: seq<Entry>, range: uint32, now: uint32) returns (acts: seq<Action>)
    requires |later| == CACHE_BUF_MAX && Fresh(now, later[14].time, range)
    ensures var s := Run(Start(), acts);
            && s.r.Done? && s.r.k == 1 && s.log == [first] + later
            && s.r.ret == 0 && s.r.payload == later[14].payload
  {
    var puts := [first] + later;
    var before := PutsInsideGet(first, later, range, puts);
    GetAfterSixteen(Run(Start(), before), puts, range, now);
    RunConcat(Start(), before, WholeGet(now, now));
    acts := before + WholeGet(now, now);
  }

  /** Put 16 has made n of its stores while a Get of Put 1 has read no more than the index. */
  ghost predicate Overtaking(s: State, first: Entry, later: seq<Entry>, n: nat, range: uint32)
    requires |later| == CACHE_BUF_MAX && 0 < n <= PUBLISH
  {
    && Safe(s) && s.w == Storing(later[14], 1, n) && s.r == Fetched(1, 1, range) && s.log == [first] + later
    && s.ring.slots[1] == PartialSlot(SlotOf(first), later[14], n) && s.ring.slots[0] == SlotOf(later[13])
  }

  lemma SlotsAfterFifteen(puts: seq<Entry>)
    requires |puts| == CACHE_BUF_MAX
    ensures AfterPuts(puts).index == 0
    ensures AfterPuts(puts).slots[1] == SlotOf(puts[0]) && AfterPuts(puts).slots[0] == SlotOf(puts[14])
  {
    RingRefinesHistory(puts, 1);
    RingRefinesHistory(puts, 15);
  }

  lemma StoresOvertake(s: State, puts: seq<Entry>, later: seq<Entry>, n: nat, range: uint32)
    requires |later| == CACHE_BUF_MAX && 0 < n <= PUBLISH && |puts| == CACHE_BUF_MAX
    requires s == State(AfterPuts(puts), Idle, Fetched(1, 1, range), puts) && puts + [later[14]] == [puts[0]] + later
    ensures Overtaking(AfterStores(s, later[14], n), puts[0], later, n, range)
  {
    SlotsAfterFifteen(puts);
    assert puts[14] == ([puts[0]] + later)[14] == later[13];
  }

  lemma Overtake(first: Entry, later: seq<Entry>, n: nat, range: uint32) returns (acts: seq<Action>)
    requires |later| == CACHE_BUF_MAX && 0 < n <= PUBLISH
    ensures Overtaking(Run(Start(), acts), first, later, n, range)
  {
    var whole, e := later[..14], later[14];
    var puts := [first] + whole;
    var before := PutsInsideGet(first, whole, range, puts);
    var s := Run(Start(), before);
    StoresAddUp(s, e, n);
    StoresOvertake(s, puts, later, n, range);
    RunConcat(s, [BeginPut(e)], Repeat(WriterStep, n));
    RunOne(s, BeginPut(e));
    RunConcat(Start(), before, [BeginPut(e)] + Repeat(WriterStep, n));
    acts := before + ([BeginPut(e)] + Repeat(WriterStep, n));
  }

  lemma GetWhileOvertaken(first: Entry, later: seq<Entry>, n: nat, range: uint32, now: uint32) returns (acts: seq<Action>)
    requires |later| == CACHE_BUF_MAX && 0 < n <= PUBLISH
    requires Fresh(now, later[14].time, range)
    ensures var s := Run(Start(), acts);
            var slot := PartialSlot(SlotOf(first), later[14], n);
            && s.r.Done? && s.r.k == 1 && s.r.now == now && s.r.range == range
            && s.w.Storing? && s.w.pc == n && s.log == [first] + later
            && (Crc32.Crc(slot.info) == slot.crc ==> s.r.ret == 0 && s.r.payload == slot.info)
            && (Crc32.Crc(slot.info) != slot.crc && Fresh(now, later[13].time, range) ==>
                  s.r.ret == 0 && s.r.payload == later[13].payload)
  {
    var before := Overtake(first, later, n, range);
    var s := Run(Start(), before);
    GetFromTwoSlots(s.ring.(index := 1), s.ring.slots[1], s.ring.slots[0], first.payload, now, range);
    WholeGetIsGetSpec(s, first.payload, now, now);
    RunConcat(Start(), before, WholeGet(now, now));
    acts := before + WholeGet(now, now);
  }

  /**
   The bound of `InterleavedGetIsAtomic` is sharp to a single store: once Put 16 has stored its
   timestamp and nothing else, a Get of Put 1 returns payload 1 with 0 however old it is.
   */
  lemma OneStoreOverruns(first: Entry, later: seq<Entry>, range: uint32, now: uint32) returns (acts: seq<Action>)
    requires |later| == CACHE_BUF_MAX && Fresh(now, later[14].time, range) && !Fresh(now, first.time, range)
    ensures var s := Run(Start(), acts);
            && s.r.Done? && s.r.k == 1 && s.log == [first] + later && s.w.Storing? && s.w.pc == 1
            && s.r.now == now && s.r.range == range && !Fresh(s.r.now, s.log[0].time, s.r.range)
            && s.r.ret == 0 && s.r.payload == first.payload
  {
    acts := GetWhileOvertaken(first, later, 1, range, now);
  }

  /** After its second store, the checksum, a Get of Put 1 falls back and returns Put 15. */
  lemma TwoStoresForceFallback(first: Entry, later: seq<Entry>, range: uint32, now: uint32) returns (acts: seq<Action>)
    requires |later| == CACHE_BUF_MAX && Crc32.DifferWithinBurst(first.payload, later[14].payload)
    requires Fresh(now, later[14].time, range) && Fresh(now, later[13].time, range)
    ensures var s := Run(Start(), acts);
            && s.r.Done? && s.r.k == 1 && s.log == [first] + later && s.w.Storing? && s.w.pc == 2
            && s.r.ret == 0 && s.r.payload == later[13].payload
  {
    Crc32.BurstDetected(first.payload, later[14].payload);
    acts := GetWhileOvertaken(first, later, 2, range, now);
  }
}
