/**
 The shared-memory ring as a value: what one whole `Put` and one whole `Get` do to it, and
 what follows for every history of Puts.
 */
module RingSpec {
  import opened Words
  import opened Crc32

  const CACHE_BUF_MAX := 15

  // sizeof(agv_info_s): a count, and 15 records of five words, a lock of six and 15 points
  const INFO_SIZE := 4 + 15 * (5 * 4 + 6 * 4 + 15 * 8)

  function Zeros(n: nat): (z: seq<uint8>)
    ensures |z| == n && forall i :: 0 <= i < n ==> z[i] == 0
    decreases n
  {
    if n == 0 then [] else Zeros(n - 1) + [0]
  }

  type Payload = p: seq<uint8> | |p| == INFO_SIZE witness Zeros(INFO_SIZE)

  datatype Entry = Entry(payload: Payload, time: uint32)
  datatype Slot = Slot(timestamp: uint32, crc: uint32, info: Payload)
  datatype Ring = Ring(index: uint32, slots: seq<Slot>)
  datatype GetResult = GetResult(ret: int, payload: Payload)

  predicate WellFormed(r: Ring) {
    |r.slots| == CACHE_BUF_MAX
  }

  /** Conversion of a 32-bit unsigned value to int. */
  function AsInt(x: uint32): int {
    if x < 0x8000_0000 then x else x - 0x1_0000_0000
  }

  /** C's remainder, truncating toward zero. */
  function CRem(a: int, b: int): int
    requires b > 0
  {
    if a >= 0 then a % b else -((-a) % b)
  }

  function PutSlot(index: uint32): (i: int)
    ensures i < CACHE_BUF_MAX
  {
    CRem(AsInt((index + 1) % 0x1_0000_0000), CACHE_BUF_MAX)
  }

  /** Where Put stores, for every index the region may hold; a negative place is before the table. */
  lemma PutSlotExactly(index: uint32)
    ensures index < 0x7fff_ffff ==> PutSlot(index) == (index + 1) % 15
    ensures index == 0xffff_ffff ==> PutSlot(index) == 0
    ensures 0x7fff_ffff <= index < 0xffff_ffff ==> PutSlot(index) == -((0xffff_ffff - index) % 15)
  {
  }

  lemma NextSlot(k: nat)
    ensures PutSlot(k % CACHE_BUF_MAX) == (k + 1) % CACHE_BUF_MAX
  {
  }

  function Former(index: nat): nat {
    if index == 0 then CACHE_BUF_MAX - 1 else index - 1
  }

  lemma FormerSlot(k: nat)
    requires k >= 1
    ensures Former(k % CACHE_BUF_MAX) == (k - 1) % CACHE_BUF_MAX
  {
  }

  lemma SlotsDistinct(j: nat, k: nat)
    requires j < k < j + CACHE_BUF_MAX
    ensures j % CACHE_BUF_MAX != k % CACHE_BUF_MAX
  {
  }

  /** Difference of two clock words, as the unsigned subtraction computes it. */
  function Age(now: uint32, then_: uint32): uint32 {
    (now - then_) % 0x1_0000_0000
  }

  /** No older than `range` by the reader's clock. A time ahead of the clock counts as one lap less. */
  predicate Fresh(now: int, time: int, range: int) {
    if time <= now then now - time <= range else 0x1_0000_0000 - (time - now) <= range
  }

  lemma FreshIsAge(now: uint32, time: uint32, range: uint32)
    ensures Age(now, time) <= range <==> Fresh(now, time, range)
  {
    if time <= now {
      assert Age(now, time) == now - time;
    } else {
      assert Age(now, time) == 0x1_0000_0000 - (time - now);
    }
  }

  function SlotOf(e: Entry): Slot {
    Slot(e.time, Crc(e.payload), e.payload)
  }

  function PutSpec(r: Ring, e: Entry): (r': Ring)
    requires WellFormed(r) && PutSlot(r.index) >= 0
    ensures WellFormed(r')
  {
    var i := PutSlot(r.index);
    Ring(i, r.slots[i := SlotOf(e)])
  }

  function FallBack(t: Slot, tried: Payload, now: uint32, range: uint32): GetResult {
    if Age(now, t.timestamp) > range then GetResult(-1, tried)
    else if Crc(t.info) == t.crc then GetResult(0, t.info)
    else GetResult(-1, t.info)
  }

  /** `before` is what the caller's payload held; a failed Get may leave something else in it. */
  function GetSpec(r: Ring, before: Payload, now: uint32, range: uint32): GetResult
    requires WellFormed(r) && r.index < 0x8000_0000
  {
    if r.index >= CACHE_BUF_MAX then GetResult(-1, before)
    else
      var s := r.slots[r.index];
      if Age(now, s.timestamp) > range then GetResult(-1, before)
      else if Crc(s.info) == s.crc then GetResult(0, s.info)
      else FallBack(r.slots[Former(r.index)], s.info, now, range)
  }

  predicate FreshAndGood(s: Slot, now: uint32, range: uint32) {
    Fresh(now, s.timestamp, range) && Crc(s.info) == s.crc
  }

  /**
   On any memory at all, Get succeeds exactly if the index is in the table, the slot it names is
   fresh, and either that slot or the one before it checks out; a success returns the payload of
   a slot that is fresh and matches its checksum, and prefers the newer one. A failure leaves the
   last payload that was copied.
   */
  lemma GetExactly(r: Ring, before: Payload, now: uint32, range: uint32)
    requires WellFormed(r) && r.index < 0x8000_0000
    ensures r.index >= 15 ==> GetSpec(r, before, now, range) == GetResult(-1, before)
    ensures r.index < 15 ==>
              var newer, older := r.slots[r.index], r.slots[if r.index == 0 then 14 else r.index - 1];
              GetSpec(r, before, now, range)
              == if !Fresh(now, newer.timestamp, range) then GetResult(-1, before)
                 else if FreshAndGood(newer, now, range) then GetResult(0, newer.info)
                 else if FreshAndGood(older, now, range) then GetResult(0, older.info)
                 else GetResult(-1, if Fresh(now, older.timestamp, range) then older.info else newer.info)
  {
    if r.index < 15 {
      FreshIsAge(now, r.slots[r.index].timestamp, range);
      FreshIsAge(now, r.slots[Former(r.index)].timestamp, range);
    }
  }

  // ---------------------------------------------------------------------------
  // Histories
  // ---------------------------------------------------------------------------

  function ZeroSlot(): Slot {
    Slot(0, 0, Zeros(INFO_SIZE))
  }

  function ZeroRing(): (r: Ring)
    ensures WellFormed(r)
  {
    var z := ZeroSlot();
    Ring(0, [z, z, z, z, z, z, z, z, z, z, z, z, z, z, z])
  }

  function AfterPuts(puts: seq<Entry>): (r: Ring)
    ensures WellFormed(r) && r.index == |puts| % CACHE_BUF_MAX
    decreases puts
  {
    if puts == [] then ZeroRing()
    else
      NextSlot(|puts| - 1);
      PutSpec(AfterPuts(puts[..|puts| - 1]), puts[|puts| - 1])
  }

  /** Put j, counted from 1, is still in the ring. */
  predicate Kept(j: int, k: nat) {
    1 <= j <= k < j + CACHE_BUF_MAX
  }

  /** The ring holds exactly the last 15 Puts, Put j in slot j mod 15. */
  lemma {:induction false} RingRefinesHistory(puts: seq<Entry>, j: nat)
    requires Kept(j, |puts|)
    ensures AfterPuts(puts).slots[j % CACHE_BUF_MAX] == SlotOf(puts[j - 1])
    decreases puts
  {
    NextSlot(|puts| - 1);
    if j == |puts| {
    } else {
      SlotsDistinct(j, |puts|);
      RingRefinesHistory(puts[..|puts| - 1], j);
    }
  }

  lemma {:induction false} UnreachedSlotKept(puts: seq<Entry>, i: nat)
    requires i < CACHE_BUF_MAX && |puts| < (if i == 0 then CACHE_BUF_MAX else i)
    ensures AfterPuts(puts).slots[i] == ZeroSlot()
    decreases puts
  {
    if puts == [] {
    } else {
      NextSlot(|puts| - 1);
      assert |puts| % CACHE_BUF_MAX != i;
      UnreachedSlotKept(puts[..|puts| - 1], i);
    }
  }

  /** A slot that no Put has reached yet is still zero. */
  lemma UnreachedSlotIsZero(puts: seq<Entry>, i: nat)
    requires i < 15 && |puts| < (if i == 0 then 15 else i)
    ensures var slot := AfterPuts(puts).slots[i];
            && slot.timestamp == 0 && slot.crc == 0
            && |slot.info| == 2464 && forall b :: 0 <= b < 2464 ==> slot.info[b] == 0
  {
    UnreachedSlotKept(puts, i);
  }

  /** A Get after any number of Puts returns the last one exactly while it is fresh. */
  lemma GetReturnsLastPut(puts: seq<Entry>, before: Payload, now: uint32, range: uint32)
    requires puts != []
    ensures var last := puts[|puts| - 1];
            GetSpec(AfterPuts(puts), before, now, range)
            == if Fresh(now, last.time, range) then GetResult(0, last.payload) else GetResult(-1, before)
  {
    RingRefinesHistory(puts, |puts|);
    FreshIsAge(now, puts[|puts| - 1].time, range);
  }

  // ---------------------------------------------------------------------------
  // Damage
  // ---------------------------------------------------------------------------

  /** The ring after `puts`, with the newest payload overwritten. */
  function DamageNewest(puts: seq<Entry>, damaged: Payload): (r: Ring)
    ensures WellFormed(r) && r.index == |puts| % CACHE_BUF_MAX
  {
    var r := AfterPuts(puts);
    r.(slots := r.slots[r.index := r.slots[r.index].(info := damaged)])
  }

  lemma DamageSparesOthers(puts: seq<Entry>, damaged: Payload)
    requires puts != []
    ensures var r := DamageNewest(puts, damaged);
            && r.slots[r.index] == SlotOf(puts[|puts| - 1]).(info := damaged)
            && forall i :: 0 <= i < CACHE_BUF_MAX && i != r.index ==> r.slots[i] == AfterPuts(puts).slots[i]
  {
    RingRefinesHistory(puts, |puts|);
  }

  lemma PreviousIsKept(puts: seq<Entry>, damaged: Payload)
    requires |puts| >= 2
    ensures var r := DamageNewest(puts, damaged);
            r.slots[Former(r.index)] == SlotOf(puts[|puts| - 2])
  {
    var k := |puts|;
    DamageSparesOthers(puts, damaged);
    FormerSlot(k);
    SlotsDistinct(k - 1, k);
    RingRefinesHistory(puts, k - 1);
  }

  /** A Get whose index names slot s, with t in the slot before. */
  lemma GetFromTwoSlots(r: Ring, s: Slot, t: Slot, before: Payload, now: uint32, range: uint32)
    requires WellFormed(r) && r.index < CACHE_BUF_MAX && r.slots[r.index] == s && r.slots[Former(r.index)] == t
    ensures GetSpec(r, before, now, range)
            == if !Fresh(now, s.timestamp, range) then GetResult(-1, before)
               else if Crc(s.info) == s.crc then GetResult(0, s.info)
               else if !Fresh(now, t.timestamp, range) then GetResult(-1, s.info)
               else if Crc(t.info) == t.crc then GetResult(0, t.info)
               else GetResult(-1, t.info)
  {
    FreshIsAge(now, s.timestamp, range);
    FreshIsAge(now, t.timestamp, range);
  }

  /** Whatever was written over the newest payload, the outcome is decided by its checksum. */
  lemma GetAfterDamage(puts: seq<Entry>, damaged: Payload, before: Payload, now: uint32, range: uint32)
    requires |puts| >= 2
    ensures var newest, previous := puts[|puts| - 1], puts[|puts| - 2];
            GetSpec(DamageNewest(puts, damaged), before, now, range)
            == if !Fresh(now, newest.time, range) then GetResult(-1, before)
               else if Crc(damaged) == Crc(newest.payload) then GetResult(0, damaged)
               else if !Fresh(now, previous.time, range) then GetResult(-1, damaged)
               else GetResult(0, previous.payload)
  {
    var s, t := SlotOf(puts[|puts| - 1]).(info := damaged), SlotOf(puts[|puts| - 2]);
    DamageSparesOthers(puts, damaged);
    PreviousIsKept(puts, damaged);
    GetFromTwoSlots(DamageNewest(puts, damaged), s, t, before, now, range);
  }

  /** A burst of up to 32 bits in the newest payload is noticed, and the previous Put returned. */
  lemma CorruptionRecovered(puts: seq<Entry>, damaged: Payload, before: Payload, now: uint32, range: uint32)
    requires |puts| >= 2
    requires DifferWithinBurst(puts[|puts| - 1].payload, damaged)
    requires Fresh(now, puts[|puts| - 1].time, range) && Fresh(now, puts[|puts| - 2].time, range)
    ensures GetSpec(DamageNewest(puts, damaged), before, now, range) == GetResult(0, puts[|puts| - 2].payload)
  {
    BurstDetected(puts[|puts| - 1].payload, damaged);
    GetAfterDamage(puts, damaged, before, now, range);
  }

  /** With a single Put there is nothing to fall back to but the zeroed slot 0. */
  lemma OnlyPutDamaged(puts: seq<Entry>, damaged: Payload, before: Payload, now: uint32, range: uint32)
    requires |puts| == 1 && DifferWithinBurst(puts[0].payload, damaged)
    requires now > range
    ensures GetSpec(DamageNewest(puts, damaged), before, now, range).ret == -1
  {
    BurstDetected(puts[0].payload, damaged);
    DamageSparesOthers(puts, damaged);
    UnreachedSlotKept(puts, 0);
    var s := SlotOf(puts[0]).(info := damaged);
    GetFromTwoSlots(DamageNewest(puts, damaged), s, ZeroSlot(), before, now, range);
  }

  /** The slot was written as `truth`; its payload is intact or damaged within a burst. */
  ghost predicate IntactOrBurst(s: Slot, truth: Payload) {
    s.crc == Crc(truth) && (s.info == truth || DifferWithinBurst(truth, s.info))
  }

  /** With every slot burst-damaged at will, a Get that returns 0 returns a payload some Put wrote. */
  lemma NoBurstEscapes(r: Ring, truth: seq<Payload>, before: Payload, now: uint32, range: uint32)
    requires WellFormed(r) && r.index < CACHE_BUF_MAX && |truth| == CACHE_BUF_MAX
    requires forall i :: 0 <= i < CACHE_BUF_MAX ==> IntactOrBurst(r.slots[i], truth[i])
    ensures var g := GetSpec(r, before, now, range);
            g.ret == 0 ==>
              || (g.payload == truth[r.index] && r.slots[r.index].info == truth[r.index])
              || (g.payload == truth[Former(r.index)] && r.slots[r.index].info != truth[r.index])
  {
    var i, j := r.index, Former(r.index);
    assert IntactOrBurst(r.slots[i], truth[i]) && IntactOrBurst(r.slots[j], truth[j]);
    if r.slots[i].info != truth[i] {
      BurstDetected(truth[i], r.slots[i].info);
    }
    if r.slots[j].info != truth[j] {
      BurstDetected(truth[j], r.slots[j].info);
    }
  }
}
