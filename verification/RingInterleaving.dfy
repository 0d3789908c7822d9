/**
 One writer and one reader of the ring, interleaved one memory access at a time under
 sequential consistency. A run is any sequence of actions from the zeroed region; an action
 that its thread cannot take leaves the state alone.
 */
module RingInterleaving {
  import opened Words
  import Crc32
  import opened RingSpec

  /** `pc` counts the stores done: timestamp, checksum, each payload byte, and last the index. */
  datatype Writer =
    | Idle
    | Storing(entry: Entry, slot: nat, pc: nat)

  /** `k` is the number of Puts published when the index was read. */
  datatype Reader =
    | Outside
    | Fetched(k: nat, index: uint32, range: uint32)
    | Copying(k: nat, slot: nat, now: uint32, range: uint32, copied: seq<uint8>, retry: bool)
    | Retrying(k: nat, slot: nat, now: uint32, range: uint32)
    | Done(k: nat, now: uint32, range: uint32, ret: int, payload: seq<uint8>, retry: bool)

  /** `log` lists the Puts that have begun to write their slot. */
  datatype State = State(ring: Ring, w: Writer, r: Reader, log: seq<Entry>)

  datatype Action =
    | BeginPut(entry: Entry)
    | WriterStep
    | BeginGet(range: uint32)
    | ReaderStep(now: uint32)

  const CHECKSUM := 1
  const FIRST_BYTE := 2
  const PUBLISH := FIRST_BYTE + INFO_SIZE

  predicate Safe(s: State) {
    && WellFormed(s.ring) && s.ring.index < CACHE_BUF_MAX
    && (s.w.Storing? ==> s.w.slot < CACHE_BUF_MAX && s.w.pc <= PUBLISH && (s.w.pc > 0 ==> s.log != []))
    && (s.r.Copying? ==> s.r.slot < CACHE_BUF_MAX && |s.r.copied| <= INFO_SIZE)
    && (s.r.Retrying? ==> s.r.slot < CACHE_BUF_MAX)
  }

  function Published(s: State): nat
    requires Safe(s)
  {
    if s.w.Storing? && s.w.pc > 0 then |s.log| - 1 else |s.log|
  }

  // ---------------------------------------------------------------------------
  // Steps
  // ---------------------------------------------------------------------------

  function Store(s: Slot, e: Entry, pc: nat): Slot
    requires pc < PUBLISH
  {
    if pc == 0 then s.(timestamp := e.time)
    else if pc == CHECKSUM then s.(crc := Crc32.Crc(e.payload))
    else s.(info := s.info[pc - FIRST_BYTE := e.payload[pc - FIRST_BYTE]])
  }

  function WriterNext(s: State): (s': State)
    requires Safe(s)
    ensures Safe(s') && s'.r == s.r
  {
    if s.w.Idle? then s
    else if s.w.pc == PUBLISH then s.(ring := s.ring.(index := s.w.slot), w := Idle)
    else
      var i := s.w.slot;
      s.(ring := s.ring.(slots := s.ring.slots[i := Store(s.ring.slots[i], s.w.entry, s.w.pc)]),
         w := s.w.(pc := s.w.pc + 1),
         log := if s.w.pc == 0 then s.log + [s.w.entry] else s.log)
  }

  function CheckAge(r: Reader, slot: Slot, i: nat, now: uint32, retry: bool): Reader
    requires r.Fetched? || r.Retrying?
  {
    if Age(now, slot.timestamp) > r.range then Done(r.k, now, r.range, -1, [], retry)
    else Copying(r.k, i, now, r.range, [], retry)
  }

  function CheckCopy(r: Reader, slot: Slot): Reader
    requires r.Copying?
  {
    if Crc32.Crc(r.copied) == slot.crc then Done(r.k, r.now, r.range, 0, r.copied, r.retry)
    else if r.retry then Done(r.k, r.now, r.range, -1, r.copied, true)
    else Retrying(r.k, Former(r.slot), r.now, r.range)
  }

  function ReaderNext(s: State, now: uint32): Reader
    requires Safe(s)
  {
    match s.r
    case Outside => s.r
    case Fetched(k, index, range) =>
      if index >= CACHE_BUF_MAX then Done(k, now, range, -1, [], false)
      else CheckAge(s.r, s.ring.slots[index], index, now, false)
    case Copying(k, i, _, range, copied, retry) =>
      if |copied| < INFO_SIZE then s.r.(copied := copied + [s.ring.slots[i].info[|copied|]])
      else CheckCopy(s.r, s.ring.slots[i])
    case Retrying(k, i, clock, range) => CheckAge(s.r, s.ring.slots[i], i, clock, true)
    case Done(_, _, _, _, _, _) => s.r
  }

  function Next(s: State, a: Action): (s': State)
    requires Safe(s)
    ensures Safe(s')
  {
    match a
    case BeginPut(e) => if s.w.Idle? then s.(w := Storing(e, PutSlot(s.ring.index), 0)) else s
    case WriterStep => WriterNext(s)
    case BeginGet(range) =>
      if s.r.Outside? || s.r.Done? then s.(r := Fetched(Published(s), s.ring.index, range)) else s
    case ReaderStep(now) => s.(r := ReaderNext(s, now))
  }

  function Start(): (s: State)
    ensures Safe(s)
  {
    State(ZeroRing(), Idle, Outside, [])
  }

  function Run(s: State, acts: seq<Action>): (s': State)
    requires Safe(s)
    ensures Safe(s')
    decreases acts
  {
    if acts == [] then s else Next(Run(s, acts[..|acts| - 1]), acts[|acts| - 1])
  }

  // ---------------------------------------------------------------------------
  // The invariant
  // ---------------------------------------------------------------------------

  /** Put j, counted from 1, has been published and no later Put has begun to overwrite it. */
  predicate Intact(s: State, j: int)
    requires Safe(s)
  {
    1 <= j <= Published(s) && |s.log| < j + CACHE_BUF_MAX
  }

  predicate Holds(s: State, j: int)
    requires Safe(s) && Intact(s, j)
  {
    s.ring.slots[j % CACHE_BUF_MAX] == SlotOf(s.log[j - 1])
  }

  ghost predicate RingInv(s: State)
    requires Safe(s)
  {
    && s.ring.index == Published(s) % CACHE_BUF_MAX
    && forall j :: Intact(s, j) ==> Holds(s, j)
  }

  ghost predicate WriterInv(s: State)
    requires Safe(s)
  {
    s.w.Storing? ==>
      var slot, e, pc := s.ring.slots[s.w.slot], s.w.entry, s.w.pc;
      && s.w.slot == (Published(s) + 1) % CACHE_BUF_MAX
      && (pc > 0 ==> s.log[|s.log| - 1] == e && slot.timestamp == e.time)
      && (pc > CHECKSUM ==> slot.crc == Crc32.Crc(e.payload))
      && (pc > FIRST_BYTE ==> slot.info[..pc - FIRST_BYTE] == e.payload[..pc - FIRST_BYTE])
  }

  /** The reader's Put is still in the ring: nothing has begun to overwrite its slot. */
  predicate Undisturbed(s: State) {
    !s.r.Outside? && 1 <= s.r.k <= |s.log| < s.r.k + CACHE_BUF_MAX
  }

  predicate ReaderFacts(r: Reader, e: Entry) {
    match r
    case Outside => true
    case Fetched(k, index, range) => index == k % CACHE_BUF_MAX
    case Copying(k, slot, now, range, copied, retry) =>
      && !retry && slot == k % CACHE_BUF_MAX
      && Age(now, e.time) <= range && copied <= e.payload
    case Retrying(_, _, _, _) => false
    case Done(k, now, range, ret, payload, retry) =>
      && !retry
      && (if Age(now, e.time) <= range then ret == 0 && payload == e.payload else ret == -1)
  }

  ghost predicate ReaderInv(s: State)
    requires Safe(s)
  {
    && (!s.r.Outside? ==> s.r.k <= Published(s))
    && (Undisturbed(s) ==> ReaderFacts(s.r, s.log[s.r.k - 1]))
  }

  ghost predicate Inv(s: State) {
    Safe(s) && RingInv(s) && WriterInv(s) && ReaderInv(s)
  }

  lemma PublishedSlot(s: State)
    requires Inv(s) && s.w.Storing? && s.w.pc == PUBLISH
    ensures s.ring.slots[s.w.slot] == SlotOf(s.log[|s.log| - 1])
  {
    var e, info := s.w.entry, s.ring.slots[s.w.slot].info;
    assert info[..INFO_SIZE] == info && e.payload[..INFO_SIZE] == e.payload;
  }

  lemma WriterSparesOthers(s: State, j: int)
    requires Inv(s) && Intact(s, j) && Intact(WriterNext(s), j)
    ensures Holds(WriterNext(s), j)
  {
    assert Holds(s, j);
    if s.w.Storing? {
      SlotsDistinct(j, Published(s) + 1);
    }
  }

  lemma WriterKeepsPut(s: State, j: int)
    requires Inv(s) && Intact(WriterNext(s), j)
    ensures Holds(WriterNext(s), j)
  {
    if j <= Published(s) {
      WriterSparesOthers(s, j);
    } else {
      assert s.w.Storing? && s.w.pc == PUBLISH && j == |s.log|;
      PublishedSlot(s);
    }
  }

  lemma WriterKeepsRing(s: State)
    requires Inv(s)
    ensures RingInv(WriterNext(s))
  {
    var s' := WriterNext(s);
    forall j | Intact(s', j) ensures Holds(s', j) {
      WriterKeepsPut(s, j);
    }
  }

  lemma WriterKeepsWriterInv(s: State)
    requires Inv(s)
    ensures WriterInv(WriterNext(s))
  {
    var s' := WriterNext(s);
    if s.w.Storing? && FIRST_BYTE <= s.w.pc < PUBLISH {
      var n := s.w.pc - FIRST_BYTE;
      var info' := s'.ring.slots[s.w.slot].info;
      assert info'[..n + 1] == info'[..n] + [info'[n]];
      assert info'[..n] == s.ring.slots[s.w.slot].info[..n];
    }
  }

  lemma WriterKeepsReaderInv(s: State)
    requires Inv(s)
    ensures ReaderInv(WriterNext(s))
  {
    assert s.log <= WriterNext(s).log;
  }

  lemma WriterKeepsInv(s: State)
    requires Inv(s)
    ensures Inv(WriterNext(s))
  {
    WriterKeepsRing(s);
    WriterKeepsWriterInv(s);
    WriterKeepsReaderInv(s);
  }

  lemma ReaderKeepsFacts(s: State, now: uint32, e: Entry)
    requires Safe(s) && !s.r.Outside? && ReaderFacts(s.r, e)
    requires s.ring.slots[s.r.k % CACHE_BUF_MAX] == SlotOf(e)
    ensures ReaderFacts(ReaderNext(s, now), e)
  {
    if s.r.Copying? && |s.r.copied| == INFO_SIZE {
      assert s.r.copied == e.payload;
    }
  }

  lemma SameRingKeepsInv(s: State, s': State)
    requires Inv(s) && Safe(s')
    requires s'.ring == s.ring && s'.log == s.log && Published(s') == Published(s)
    ensures RingInv(s')
  {
    forall j | Intact(s', j) ensures Holds(s', j) {
      assert Intact(s, j) && Holds(s, j);
    }
  }

  lemma ReaderKeepsReaderInv(s: State, now: uint32)
    requires Inv(s)
    ensures ReaderInv(s.(r := ReaderNext(s, now)))
  {
    var s' := s.(r := ReaderNext(s, now));
    if Undisturbed(s') {
      var k := s.r.k;
      assert s'.r.k == k && Undisturbed(s);
      assert Intact(s, k) && Holds(s, k);
      ReaderKeepsFacts(s, now, s.log[k - 1]);
    }
  }

  lemma ReaderKeepsInv(s: State, now: uint32)
    requires Inv(s)
    ensures Inv(Next(s, ReaderStep(now)))
  {
    SameRingKeepsInv(s, Next(s, ReaderStep(now)));
    ReaderKeepsReaderInv(s, now);
  }

  lemma NextKeepsInv(s: State, a: Action)
    requires Inv(s)
    ensures Inv(Next(s, a))
  {
    match a
    case BeginPut(e) =>
      NextSlot(Published(s));
      SameRingKeepsInv(s, Next(s, a));
    case WriterStep => WriterKeepsInv(s);
    case BeginGet(range) => SameRingKeepsInv(s, Next(s, a));
    case ReaderStep(now) => ReaderKeepsInv(s, now);
  }

  lemma {:induction false} RunKeepsInv(acts: seq<Action>)
    ensures Inv(Run(Start(), acts))
    decreases acts
  {
    if acts == [] {
    } else {
      RunKeepsInv(acts[..|acts| - 1]);
      NextKeepsInv(Run(Start(), acts[..|acts| - 1]), acts[|acts| - 1]);
    }
  }

  /**
   In every interleaving: a Get that read the index of the k-th Put, and finished before the
   (k+15)-th began to write, never fell back, and returned exactly payload k while it was fresh.
   */
  lemma InterleavedGetIsAtomic(acts: seq<Action>)
    ensures var s := Run(Start(), acts);
            s.r.Done? ==> s.r.k <= |s.log|
    ensures var s := Run(Start(), acts);
            s.r.Done? && 1 <= s.r.k && |s.log| < s.r.k + CACHE_BUF_MAX ==>
              var e := s.log[s.r.k - 1];
              && !s.r.retry
              && (s.r.ret == 0 <==> Fresh(s.r.now, e.time, s.r.range))
              && (s.r.ret == 0 ==> s.r.payload == e.payload)
              && (s.r.ret != 0 ==> s.r.ret == -1)
  {
    RunKeepsInv(acts);
    var s := Run(Start(), acts);
    if s.r.Done? && 1 <= s.r.k <= |s.log| {
      FreshIsAge(s.r.now, s.log[s.r.k - 1].time, s.r.range);
    }
  }

  // ---------------------------------------------------------------------------
  // A Get that has been overtaken
  // ---------------------------------------------------------------------------

  /** The checksum some Put stored, or the zero of an unused slot. */
  ghost predicate KnownSum(log: seq<Entry>, c: uint32) {
    c == 0 || exists j :: 0 <= j < |log| && c == Crc32.Crc(log[j].payload)
  }

  /** Byte n of some Put's payload, or the zero of an unused slot. */
  ghost predicate KnownByte(log: seq<Entry>, n: nat, b: uint8)
    requires n < INFO_SIZE
  {
    b == 0 || exists j :: 0 <= j < |log| && b == log[j].payload[n]
  }

  ghost predicate KnownBytes(log: seq<Entry>, data: seq<uint8>) {
    |data| <= INFO_SIZE && forall n :: 0 <= n < |data| ==> KnownByte(log, n, data[n])
  }

  ghost predicate KnownSlot(log: seq<Entry>, slot: Slot) {
    KnownSum(log, slot.crc) && KnownBytes(log, slot.info)
  }

  ghost predicate KnownSlots(log: seq<Entry>, slots: seq<Slot>) {
    forall i :: 0 <= i < |slots| ==> KnownSlot(log, slots[i])
  }

  ghost predicate KnownCopy(log: seq<Entry>, r: Reader) {
    && (r.Copying? ==> KnownBytes(log, r.copied))
    && (r.Done? && r.ret == 0 ==>
          |r.payload| == INFO_SIZE && KnownBytes(log, r.payload) && KnownSum(log, Crc32.Crc(r.payload)))
  }

  lemma LongerLogKnowsSum(log: seq<Entry>, e: Entry, c: uint32)
    requires KnownSum(log, c)
    ensures KnownSum(log + [e], c)
  {
    if j :| 0 <= j < |log| && c == Crc32.Crc(log[j].payload) {
      assert (log + [e])[j] == log[j];
    }
  }

  lemma LongerLogKnowsBytes(log: seq<Entry>, e: Entry, data: seq<uint8>)
    requires KnownBytes(log, data)
    ensures KnownBytes(log + [e], data)
  {
    forall n | 0 <= n < |data| ensures KnownByte(log + [e], n, data[n]) {
      assert KnownByte(log, n, data[n]);
      if j :| 0 <= j < |log| && data[n] == log[j].payload[n] {
        assert (log + [e])[j] == log[j];
      }
    }
  }

  lemma LongerLogKnowsSlots(log: seq<Entry>, e: Entry, slots: seq<Slot>)
    requires KnownSlots(log, slots)
    ensures KnownSlots(log + [e], slots)
  {
    forall i | 0 <= i < |slots| ensures KnownSlot(log + [e], slots[i]) {
      assert KnownSlot(log, slots[i]);
      LongerLogKnowsBytes(log, e, slots[i].info);
      LongerLogKnowsSum(log, e, slots[i].crc);
    }
  }

  lemma LongerLogKnowsCopy(log: seq<Entry>, e: Entry, r: Reader)
    requires KnownCopy(log, r)
    ensures KnownCopy(log + [e], r)
  {
    if r.Copying? {
      LongerLogKnowsBytes(log, e, r.copied);
    } else if r.Done? && r.ret == 0 {
      LongerLogKnowsBytes(log, e, r.payload);
      LongerLogKnowsSum(log, e, Crc32.Crc(r.payload));
    }
  }

  lemma StoreIsKnown(log: seq<Entry>, slot: Slot, pc: nat)
    requires log != [] && pc < PUBLISH && KnownSlot(log, slot)
    ensures KnownSlot(log, Store(slot, log[|log| - 1], pc))
  {
    var last := |log| - 1;
    if pc >= FIRST_BYTE {
      var n := pc - FIRST_BYTE;
      var info' := slot.info[n := log[last].payload[n]];
      forall k | 0 <= k < INFO_SIZE ensures KnownByte(log, k, info'[k]) {
        assert k == n || KnownByte(log, k, slot.info[k]);
      }
    }
  }

  lemma WriterKeepsKnown(s: State)
    requires Inv(s) && KnownSlots(s.log, s.ring.slots) && KnownCopy(s.log, s.r)
    ensures var s' := WriterNext(s); KnownSlots(s'.log, s'.ring.slots) && KnownCopy(s'.log, s'.r)
  {
    if s.w.Storing? && s.w.pc < PUBLISH {
      var log := WriterNext(s).log;
      if s.w.pc == 0 {
        LongerLogKnowsSlots(s.log, s.w.entry, s.ring.slots);
        LongerLogKnowsCopy(s.log, s.w.entry, s.r);
      }
      assert log[|log| - 1] == s.w.entry;
      StoreIsKnown(log, s.ring.slots[s.w.slot], s.w.pc);
    }
  }

  lemma ReaderKeepsKnown(s: State, now: uint32)
    requires Safe(s) && KnownSlots(s.log, s.ring.slots) && KnownCopy(s.log, s.r)
    ensures KnownCopy(s.log, ReaderNext(s, now))
  {
    if s.r.Copying? {
      assert KnownSlot(s.log, s.ring.slots[s.r.slot]);
      var n := |s.r.copied|;
      if n < INFO_SIZE {
        assert KnownByte(s.log, n, s.ring.slots[s.r.slot].info[n]);
      }
    }
  }

  lemma {:induction false} RunKeepsKnown(acts: seq<Action>)
    ensures var s := Run(Start(), acts); KnownSlots(s.log, s.ring.slots) && KnownCopy(s.log, s.r)
    decreases acts
  {
    if acts == [] {
    } else {
      var front, a := acts[..|acts| - 1], acts[|acts| - 1];
      var s := Run(Start(), front);
      RunKeepsKnown(front);
      match a
      case BeginPut(_) =>
      case WriterStep =>
        RunKeepsInv(front);
        WriterKeepsKnown(s);
      case BeginGet(_) =>
      case ReaderStep(now) => ReaderKeepsKnown(s, now);
    }
  }

  /**
   However far the writer has come round: what a Get returns with 0 carries the checksum of some
   Put that has begun (or the zero of an unused slot), and each of its bytes is the byte at the
   same place of some such Put's payload (or a zero).
   */
  lemma OvertakenGetIsChecked(acts: seq<Action>)
    ensures var s := Run(Start(), acts);
            s.r.Done? && s.r.ret == 0 ==>
              && |s.r.payload| == INFO_SIZE
              && KnownSum(s.log, Crc32.Crc(s.r.payload))
              && KnownBytes(s.log, s.r.payload)
  {
    RunKeepsKnown(acts);
  }
}
