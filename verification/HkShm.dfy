/**
 The ring in memory, updated in place. `Abs` is the ring value the memory holds; `Put` and
 `Get` are proved to be `PutSpec` and `GetSpec` on it.
 */
module HkShm {
  import opened Words
  import Crc32
  import opened RingSpec

  const TAG1: uint32 := 0x5A5A5A5A
  const TAG2: uint32 := 0xA5A5A5A5
  const VERSION: uint32 := 1

  /** What the mapped region held when it was opened. */
  datatype Image = Image(tag1: uint32, version: uint32, tag2: uint32, ring: Ring)

  /** Slot i's payload among the bytes of all of them. */
  function InfoAt(infos: seq<uint8>, i: nat): Payload
    requires |infos| == CACHE_BUF_MAX * INFO_SIZE && i < CACHE_BUF_MAX
  {
    infos[i * INFO_SIZE..i * INFO_SIZE + INFO_SIZE]
  }

  /** The ring that the words and bytes of the region hold. */
  function RingOf(index: uint32, timestamps: seq<uint32>, crcs: seq<uint32>, infos: seq<uint8>): (r: Ring)
    requires |timestamps| == |crcs| == CACHE_BUF_MAX && |infos| == CACHE_BUF_MAX * INFO_SIZE
    ensures WellFormed(r) && r.index == index
    ensures forall i :: 0 <= i < CACHE_BUF_MAX ==>
      r.slots[i] == Slot(timestamps[i], crcs[i], InfoAt(infos, i))
  {
    Ring(index, seq(CACHE_BUF_MAX, i requires 0 <= i < CACHE_BUF_MAX =>
      Slot(timestamps[i], crcs[i], InfoAt(infos, i))))
  }

  function Splice(infos: seq<uint8>, i: nat, p: Payload): (r: seq<uint8>)
    requires |infos| == CACHE_BUF_MAX * INFO_SIZE && i < CACHE_BUF_MAX
    ensures |r| == |infos|
  {
    infos[..i * INFO_SIZE] + p + infos[i * INFO_SIZE + INFO_SIZE..]
  }

  lemma InfoAfterSplice(infos: seq<uint8>, i: nat, p: Payload, j: nat)
    requires |infos| == CACHE_BUF_MAX * INFO_SIZE && i < CACHE_BUF_MAX && j < CACHE_BUF_MAX
    ensures InfoAt(Splice(infos, i, p), j) == if j == i then p else InfoAt(infos, j)
  {
    var at := i * INFO_SIZE;
    var head, tail := infos[..at], infos[at + INFO_SIZE..];
    if j < i {
      assert j * INFO_SIZE + INFO_SIZE <= at;
    } else if i < j {
      assert at + INFO_SIZE <= j * INFO_SIZE;
    }
  }

  lemma RingOfPut(r: Ring, r': Ring, ts: seq<uint32>, crcs: seq<uint32>, infos: seq<uint8>, e: Entry)
    requires |ts| == |crcs| == CACHE_BUF_MAX && |infos| == CACHE_BUF_MAX * INFO_SIZE
    requires RingOf(r.index, ts, crcs, infos) == r
    requires 0 <= PutSlot(r.index) < CACHE_BUF_MAX
    requires var i := PutSlot(r.index);
             r' == RingOf(i, ts[i := e.time], crcs[i := Crc32.Crc(e.payload)], Splice(infos, i, e.payload))
    ensures r' == PutSpec(r, e)
  {
    var i := PutSlot(r.index);
    forall j | 0 <= j < CACHE_BUF_MAX
      ensures r'.slots[j] == if j == i then SlotOf(e) else r.slots[j]
    {
      InfoAfterSplice(infos, i, e.payload, j);
    }
    assert r'.slots == PutSpec(r, e).slots;
  }

  /** `memcpy` of one payload between distinct arrays. */
  method CopyBytes(src: array<uint8>, from: nat, dst: array<uint8>, to: nat)
    requires src != dst && from + INFO_SIZE <= src.Length && to + INFO_SIZE <= dst.Length
    modifies dst
    ensures dst[..] == old(dst[..])[..to] + old(src[from..from + INFO_SIZE]) + old(dst[..])[to + INFO_SIZE..]
  {
    for b := 0 to INFO_SIZE
      invariant dst[..] == old(dst[..])[..to] + src[from..from + b] + old(dst[..])[to + b..]
    {
      dst[to + b] := src[from + b];
      assert src[from..from + b + 1] == src[from..from + b] + [src[from + b]];
    }
  }

  lemma SlotOfByte(i: nat, b: nat)
    requires b < INFO_SIZE
    ensures (i * INFO_SIZE + b) / INFO_SIZE == i && (i * INFO_SIZE + b) % INFO_SIZE == b
  {
  }

  class Shm {
    var tag1: uint32
    var version: uint32
    var tag2: uint32
    var index: uint32
    const timestamps: array<uint32>
    const crcs: array<uint32>
    const infos: array<uint8>

    ghost predicate Valid()
      reads this
    {
      && timestamps.Length == CACHE_BUF_MAX
      && crcs.Length == CACHE_BUF_MAX
      && infos.Length == CACHE_BUF_MAX * INFO_SIZE
      && timestamps != crcs
    }

    ghost function Abs(): (r: Ring)
      requires Valid()
      reads this, timestamps, crcs, infos
      ensures WellFormed(r)
    {
      RingOf(index, timestamps[..], crcs[..], infos[..])
    }

    /** Maps the region, zeroing it unless it carries the expected tags. */
    constructor (found: Image)
      requires WellFormed(found.ring)
      ensures Valid() && fresh(timestamps) && fresh(crcs) && fresh(infos)
      ensures tag1 == 0x5A5A5A5A && tag2 == 0xA5A5A5A5 && version == 1
      ensures Abs() == if found.tag1 == 0x5A5A5A5A && found.version == 1 && found.tag2 == 0xA5A5A5A5 then found.ring
                       else ZeroRing()
    {
      var keep := !(found.tag1 != TAG1 || found.tag2 != TAG2 || found.version != VERSION);
      var ring := if keep then found.ring else ZeroRing();
      tag1, version, tag2, index := TAG1, VERSION, TAG2, ring.index;
      timestamps := new uint32[CACHE_BUF_MAX](i requires 0 <= i < CACHE_BUF_MAX => ring.slots[i].timestamp);
      crcs := new uint32[CACHE_BUF_MAX](i requires 0 <= i < CACHE_BUF_MAX => ring.slots[i].crc);
      infos := new uint8[CACHE_BUF_MAX * INFO_SIZE]
        (k requires 0 <= k < CACHE_BUF_MAX * INFO_SIZE => ring.slots[k / INFO_SIZE].info[k % INFO_SIZE]);
      new;
      forall i | 0 <= i < CACHE_BUF_MAX ensures InfoAt(infos[..], i) == ring.slots[i].info {
        forall b | 0 <= b < INFO_SIZE ensures InfoAt(infos[..], i)[b] == ring.slots[i].info[b] {
          SlotOfByte(i, b);
        }
      }
      assert Abs().slots == ring.slots;
    }

    method Put(agvMsg: array<uint8>, now: uint32) returns (ret: int)
      requires Valid() && PutSlot(index) >= 0
      requires agvMsg.Length == INFO_SIZE && agvMsg != infos
      modifies this`index, timestamps, crcs, infos
      ensures Valid() && ret == 0
      ensures Abs() == PutSpec(old(Abs()), Entry(old(agvMsg[..]), now))
    {
      assert agvMsg[..INFO_SIZE] == agvMsg[..];
      var crc := Crc32.Compute(agvMsg, INFO_SIZE);
      var slot := PutSlot(index);
      timestamps[slot] := now;
      crcs[slot] := crc;
      CopyBytes(agvMsg, 0, infos, slot * INFO_SIZE);
      index := slot;
      RingOfPut(old(Abs()), Abs(), old(timestamps[..]), old(crcs[..]), old(infos[..]), Entry(old(agvMsg[..]), now));
      return 0;
    }

    /** Copies slot i's payload out and checks the copy against the slot's checksum. */
    method CopyAndCheck(i: nat, payload: array<uint8>) returns (good: bool)
      requires Valid() && i < CACHE_BUF_MAX
      requires payload.Length == INFO_SIZE && payload != infos
      modifies payload
      ensures Valid() && Abs() == old(Abs())
      ensures var s := Abs().slots[i];
              payload[..] == s.info && (good <==> Crc32.Crc(s.info) == s.crc)
    {
      CopyBytes(infos, i * INFO_SIZE, payload, 0);
      assert payload[..] == payload[..INFO_SIZE] == InfoAt(infos[..], i);
      var crc := Crc32.Compute(payload, INFO_SIZE);
      return crc == crcs[i];
    }

    /** The branch of Get for a copy that fails its check. */
    method GetFormer(i: nat, payload: array<uint8>, now: uint32, timeRange: uint32) returns (ret: int)
      requires Valid() && i < CACHE_BUF_MAX
      requires payload.Length == INFO_SIZE && payload != infos
      modifies payload
      ensures Valid() && Abs() == old(Abs())
      ensures GetResult(ret, payload[..]) == FallBack(old(Abs()).slots[Former(i)], old(payload[..]), now, timeRange)
    {
      var retry: int;
      if i == 0 {
        retry := CACHE_BUF_MAX - 1;
      } else {
        retry := i - 1;
      }
      if Age(now, timestamps[retry]) > timeRange {
        return -1;
      }
      var good := CopyAndCheck(retry, payload);
      if !good {
        return -1;
      }
      return 0;
    }

    method Get(payload: array<uint8>, now: uint32, timeRange: uint32) returns (ret: int)
      requires Valid() && index < 0x8000_0000
      requires payload.Length == INFO_SIZE && payload != infos
      modifies payload
      ensures Valid() && Abs() == old(Abs())
      ensures GetResult(ret, payload[..]) == GetSpec(old(Abs()), old(payload[..]), now, timeRange)
    {
      var i := AsInt(index);
      if i >= CACHE_BUF_MAX {
        return -1;
      }
      if Age(now, timestamps[i]) > timeRange {
        return -1;
      }
      var good := CopyAndCheck(i, payload);
      if !good {
        ret := GetFormer(i, payload, now, timeRange);
        return ret;
      }
      return 0;
    }
  }
}
