/**
 The checksum of the shared-memory ring: the bit-at-a-time loop of `Hk_Shm::crc32`,
 the serial shift register it is, and the error-detection property `Get` relies on.
 */
module Crc32 {
  import opened Words

  const POLY: uint32 := 0xEDB88320

  // ---------------------------------------------------------------------------
  // The function computed by the source
  // ---------------------------------------------------------------------------

  function XorWord(a: uint32, b: uint32): uint32 {
    XorBelow32(a, b);
    Xor(a, b)
  }

  function Shift(c: uint32): uint32 {
    if c % 2 == 1 then XorWord(c / 2, POLY) else c / 2
  }

  function Shifts(c: uint32, n: nat): uint32
    decreases n
  {
    if n == 0 then c else Shift(Shifts(c, n - 1))
  }

  function Absorb(c: uint32, b: uint8): uint32 {
    Shifts(XorWord(c, b), 8)
  }

  function Update(c: uint32, data: seq<uint8>): uint32
    decreases data
  {
    if data == [] then c else Absorb(Update(c, data[..|data| - 1]), data[|data| - 1])
  }

  function Crc(data: seq<uint8>): uint32 {
    MAX32 - Update(MAX32, data)
  }

  /** The nested loops of the source; `length` is a 16-bit count. */
  method Compute(data: array<uint8>, length: uint16) returns (r: uint32)
    requires length <= data.Length
    ensures r == Crc(data[..length])
  {
    var left: int := length;
    var p := 0;
    var crc: uint32 := 0xffff_ffff;
    while left != 0
      invariant p + left == length && 0 <= left
      invariant crc == Update(MAX32, data[..p])
      decreases left
    {
      left := left - 1;
      crc := XorWord(crc, data[p]);
      ghost var start := crc;
      for i := 0 to 8
        invariant crc == Shifts(start, i)
      {
        if crc % 2 == 1 {
          crc := XorWord(crc / 2, 0xEDB88320);
        } else {
          crc := crc / 2;
        }
      }
      assert data[..p + 1][..p] == data[..p];
      p := p + 1;
    }
    return MAX32 - crc;
  }

  // ---------------------------------------------------------------------------
  // One step of the register: linear, injective, inverse to doubling
  // ---------------------------------------------------------------------------

  lemma ShiftLinear(a: uint32, b: uint32)
    ensures Shift(XorWord(a, b)) == XorWord(Shift(a), Shift(b))
  {
    XorHalf(a, b);
    var p := if a % 2 == 1 then POLY else 0;
    var q := if b % 2 == 1 then POLY else 0;
    XorCommutes(a / 2, 0);
    XorCommutes(b / 2, 0);
    XorCommutes(Xor(a / 2, b / 2), 0);
    XorSelf(POLY);
    assert Shift(a) == Xor(a / 2, p) && Shift(b) == Xor(b / 2, q);
    XorInterchange(a / 2, p, b / 2, q);
  }

  lemma {:induction false} ShiftsLinear(a: uint32, b: uint32, n: nat)
    ensures Shifts(XorWord(a, b), n) == XorWord(Shifts(a, n), Shifts(b, n))
    decreases n
  {
    if n == 0 {
    } else {
      ShiftsLinear(a, b, n - 1);
      ShiftLinear(Shifts(a, n - 1), Shifts(b, n - 1));
    }
  }

  lemma HighBitOfOddStep(c: uint32)
    ensures Shift(c) < 0x8000_0000 ==> c % 2 == 0
    ensures Shift(c) == 0 <==> c == 0
  {
    if c % 2 == 1 && Shift(c) < 0x8000_0000 {
      Pow2Of32();
      XorBelow(Shift(c), c / 2, 31);
      XorCommutes(c / 2, POLY);
      XorCancel(POLY, c / 2);
      assert false;
    }
  }

  lemma {:induction false} ShiftsKernel(a: uint32, n: nat)
    ensures Shifts(a, n) == 0 <==> a == 0
    decreases n
  {
    if n == 0 {
    } else {
      ShiftsKernel(a, n - 1);
      HighBitOfOddStep(Shifts(a, n - 1));
    }
  }

  // ---------------------------------------------------------------------------
  // The same register fed one bit at a time
  // ---------------------------------------------------------------------------

  function Bit(e: bool): uint32 {
    if e then 1 else 0
  }

  function LowBits(w: nat, n: nat): (bits: seq<bool>)
    ensures |bits| == n
    ensures forall k :: 0 <= k < n ==> (bits[k] <==> BitAt(w, k))
    decreases n
  {
    if n == 0 then [] else [w % 2 == 1] + LowBits(w / 2, n - 1)
  }

  /** The bits of a byte string in the order the register consumes them. */
  function Bits(data: seq<uint8>): (bits: seq<bool>)
    ensures |bits| == 8 * |data|
    decreases data
  {
    if data == [] then [] else Bits(data[..|data| - 1]) + LowBits(data[|data| - 1], 8)
  }

  lemma {:induction false} BitsAt(data: seq<uint8>, i: nat, k: nat)
    requires i < |data| && k < 8
    ensures Bits(data)[8 * i + k] <==> BitAt(data[i], k)
    decreases data
  {
    if i == |data| - 1 {
    } else {
      BitsAt(data[..|data| - 1], i, k);
    }
  }

  function Feed(c: uint32, bits: seq<bool>): uint32
    decreases bits
  {
    if bits == [] then c
    else Shift(XorWord(Feed(c, bits[..|bits| - 1]), Bit(bits[|bits| - 1])))
  }

  lemma {:induction false} FeedConcat(c: uint32, a: seq<bool>, b: seq<bool>)
    ensures Feed(c, a + b) == Feed(Feed(c, a), b)
    decreases b
  {
    if b == [] {
      assert a + b == a;
    } else {
      var m := |a + b| - 1;
      assert (a + b)[..m] == a + b[..|b| - 1];
      FeedConcat(c, a, b[..|b| - 1]);
    }
  }

  lemma {:induction false} ShiftsSnoc(c: uint32, n: nat)
    ensures Shifts(c, n + 1) == Shifts(Shift(c), n)
    decreases n
  {
    if n == 0 {
    } else {
      ShiftsSnoc(c, n - 1);
    }
  }

  lemma FeedOne(c: uint32, e: bool)
    ensures Feed(c, [e]) == Shift(XorWord(c, Bit(e)))
  {
    assert Feed(c, [e][..0]) == c;
  }

  /** A word waiting in front of the register may be fed bit by bit instead. */
  lemma WordStep(x: uint32, w: uint32)
    ensures Shift(XorWord(x, w)) == XorWord(Shift(XorWord(x, Bit(w % 2 == 1))), w / 2)
  {
    var e := Bit(w % 2 == 1);
    var rest: uint32 := w - e;
    assert Xor(e, rest) == w by {
      XorCommutes(0, rest / 2);
    }
    XorAssociates(x, e, rest);
    ShiftLinear(XorWord(x, e), rest);
    assert Shift(rest) == w / 2;
  }

  lemma {:induction false} WordSteps(x: uint32, w: uint32, n: nat)
    requires w < Pow2(n)
    ensures Shifts(XorWord(x, w), n) == Feed(x, LowBits(w, n))
    decreases n
  {
    if n == 0 {
      XorCommutes(x, 0);
    } else {
      var e := w % 2 == 1;
      var x' := Shift(XorWord(x, Bit(e)));
      WordStep(x, w);
      ShiftsSnoc(XorWord(x, w), n - 1);
      WordSteps(x', w / 2, n - 1);
      FeedOne(x, e);
      FeedConcat(x, [e], LowBits(w / 2, n - 1));
    }
  }

  lemma {:induction false} UpdateIsFeed(c: uint32, data: seq<uint8>)
    ensures Update(c, data) == Feed(c, Bits(data))
    decreases data
  {
    if data == [] {
    } else {
      var front, last := data[..|data| - 1], data[|data| - 1];
      UpdateIsFeed(c, front);
      assert Pow2(8) == 0x100;
      WordSteps(Update(c, front), last, 8);
      FeedConcat(c, Bits(front), LowBits(last, 8));
    }
  }

  // ---------------------------------------------------------------------------
  // The byte-at-a-time form of section 8 of RFC 1952
  // ---------------------------------------------------------------------------

  function TableEntry(n: uint8): uint32 {
    Shifts(n, 8)
  }

  function TableUpdate(c: uint32, data: seq<uint8>): uint32
    decreases data
  {
    if data == [] then c
    else
      var d := TableUpdate(c, data[..|data| - 1]);
      XorWord(TableEntry(XorWord(d, data[|data| - 1]) % 0x100), d / 0x100)
  }

  /** h shifted left n times, and a shifted right n times. */
  function Raise(h: nat, n: nat): nat
    decreases n
  {
    if n == 0 then h else 2 * Raise(h, n - 1)
  }

  function Drop(a: nat, n: nat): nat
    decreases n
  {
    if n == 0 then a else Drop(a / 2, n - 1)
  }

  lemma RaiseAndDropByte(a: nat)
    ensures Raise(a, 8) == a * 0x100 && Drop(a, 8) == a / 0x100
  {
    assert Raise(a, 4) == a * 0x10;
    assert Drop(a, 8) == Drop(a / 0x10, 4);
  }

  lemma {:induction false} ShiftsOfRaised(h: uint32, n: nat)
    requires Raise(h, n) < 0x1_0000_0000
    ensures Shifts(Raise(h, n), n) == h
    decreases n
  {
    if n == 0 {
    } else {
      ShiftsSnoc(Raise(h, n), n - 1);
      ShiftsOfRaised(h, n - 1);
    }
  }

  lemma {:induction false} XorSplit(low: nat, high: nat, n: nat)
    requires low < Pow2(n)
    ensures Xor(low, Raise(high, n)) == low + Raise(high, n)
    decreases n
  {
    if n == 0 {
    } else {
      XorSplit(low / 2, high, n - 1);
      XorHalf(low, Raise(high, n));
    }
  }

  lemma {:induction false} XorLowByte(a: nat, b: nat, n: nat)
    requires b < Pow2(n)
    ensures Drop(Xor(a, b), n) == Drop(a, n)
    decreases n
  {
    if n == 0 {
      XorCommutes(a, 0);
    } else {
      XorHalf(a, b);
      XorLowByte(a / 2, b / 2, n - 1);
    }
  }

  lemma ShiftsOfSplitWord(x: uint32, low: uint32, high: uint32, n: nat)
    requires low < Pow2(n) && x == low + Raise(high, n)
    ensures Shifts(x, n) == XorWord(Shifts(low, n), high)
  {
    XorSplit(low, high, n);
    ShiftsLinear(low, Raise(high, n), n);
    ShiftsOfRaised(high, n);
  }

  lemma TableStep(c: uint32, b: uint8)
    ensures Absorb(c, b) == XorWord(TableEntry(XorWord(c, b) % 0x100), c / 0x100)
  {
    var x := XorWord(c, b);
    assert Pow2(8) == 0x100;
    RaiseAndDropByte(x / 0x100);
    ShiftsOfSplitWord(x, x % 0x100, x / 0x100, 8);
    XorLowByte(c, b, 8);
    RaiseAndDropByte(c);
    RaiseAndDropByte(x);
  }

  lemma {:induction false} TableDrivenAgrees(c: uint32, data: seq<uint8>)
    ensures Update(c, data) == TableUpdate(c, data)
    decreases data
  {
    if data == [] {
    } else {
      TableDrivenAgrees(c, data[..|data| - 1]);
      TableStep(Update(c, data[..|data| - 1]), data[|data| - 1]);
    }
  }

  // ---------------------------------------------------------------------------
  // Burst detection
  // ---------------------------------------------------------------------------

  function BitDiff(a: seq<bool>, b: seq<bool>): (d: seq<bool>)
    requires |a| == |b|
    ensures |d| == |a|
  {
    seq(|a|, i requires 0 <= i < |a| => a[i] != b[i])
  }

  lemma {:induction false} FeedLinear(x: uint32, y: uint32, a: seq<bool>, b: seq<bool>)
    requires |a| == |b|
    ensures XorWord(Feed(x, a), Feed(y, b)) == Feed(XorWord(x, y), BitDiff(a, b))
    decreases a
  {
    if a == [] {
    } else {
      var m := |a| - 1;
      FeedLinear(x, y, a[..m], b[..m]);
      assert BitDiff(a, b)[..m] == BitDiff(a[..m], b[..m]);
      var fa, fb := Feed(x, a[..m]), Feed(y, b[..m]);
      XorInterchange(fa, Bit(a[m]), fb, Bit(b[m]));
      ShiftLinear(XorWord(fa, Bit(a[m])), XorWord(fb, Bit(b[m])));
    }
  }

  predicate Quiet(bits: seq<bool>) {
    forall i :: 0 <= i < |bits| ==> !bits[i]
  }

  lemma {:induction false} FeedQuiet(c: uint32, bits: seq<bool>)
    requires Quiet(bits)
    ensures Feed(c, bits) == Shifts(c, |bits|)
    decreases bits
  {
    if bits == [] {
    } else {
      FeedQuiet(c, bits[..|bits| - 1]);
      XorCommutes(Feed(c, bits[..|bits| - 1]), 0);
    }
  }

  lemma {:induction false} Pow2Monotone(a: nat, b: nat)
    requires a <= b
    ensures Pow2(a) <= Pow2(b)
    decreases b
  {
    if a == b {
    } else {
      Pow2Monotone(a, b - 1);
    }
  }

  /**
   Running the register backwards from a value of j bits doubles it, so the first bit of a
   burst would have to come out of a state too wide for it.
   */
  lemma {:induction false} BurstLeavesMark(bits: seq<bool>, j: nat)
    requires bits != [] && bits[0]
    requires |bits| + j <= 32
    ensures Feed(0, bits) >= Pow2(j)
    decreases bits
  {
    var m := |bits| - 1;
    var d := Feed(0, bits);
    Pow2Monotone(j, 31);
    Pow2Of32();
    if m == 0 {
      FeedOne(0, true);
      assert bits == [true];
    } else if d < Pow2(j) {
      var prior, e := Feed(0, bits[..m]), Bit(bits[m]);
      var c := XorWord(prior, e);
      HighBitOfOddStep(c);
      assert c == 2 * d < Pow2(j + 1);
      XorBelow(c, e, j + 1);
      XorCancel(prior, e);
      BurstLeavesMark(bits[..m], j + 1);
      assert false;
    }
  }

  /** A difference confined to 32 consecutive bits never cancels. */
  lemma BurstNeverCancels(diff: seq<bool>, lo: nat)
    requires lo < |diff| && diff[lo]
    requires forall i :: 0 <= i < |diff| && !(lo <= i < lo + 32) ==> !diff[i]
    ensures Feed(0, diff) != 0
  {
    var hi := if lo + 32 <= |diff| then lo + 32 else |diff|;
    var before, burst, after := diff[..lo], diff[lo..hi], diff[hi..];
    assert diff == (before + burst) + after;
    FeedConcat(0, before + burst, after);
    FeedConcat(0, before, burst);
    FeedQuiet(0, before);
    ShiftsKernel(0, |before|);
    BurstLeavesMark(burst, 0);
    FeedQuiet(Feed(0, burst), after);
    ShiftsKernel(Feed(0, burst), |after|);
  }

  ghost predicate BurstWindow(a: seq<uint8>, b: seq<uint8>, lo: nat)
    requires |a| == |b|
  {
    forall i :: 0 <= i < 8 * |a| && !(lo <= i < lo + 32) ==> Bits(a)[i] == Bits(b)[i]
  }

  ghost predicate DifferWithinBurst(a: seq<uint8>, b: seq<uint8>) {
    && |a| == |b| && a != b
    && exists lo: nat :: BurstWindow(a, b, lo)
  }

  lemma {:induction false} SameBitsSameWord(a: nat, b: nat, n: nat)
    requires a < Pow2(n) && b < Pow2(n)
    requires forall k :: 0 <= k < n ==> (BitAt(a, k) <==> BitAt(b, k))
    ensures a == b
    decreases n
  {
    if n == 0 {
    } else {
      assert BitAt(a, 0) <==> BitAt(b, 0);
      forall k | 0 <= k < n - 1 ensures BitAt(a / 2, k) <==> BitAt(b / 2, k) {
        assert BitAt(a, k + 1) <==> BitAt(b, k + 1);
      }
      SameBitsSameWord(a / 2, b / 2, n - 1);
    }
  }

  lemma DifferentBytesDifferentBits(a: seq<uint8>, b: seq<uint8>) returns (i: nat)
    requires |a| == |b| && a != b
    ensures i < 8 * |a| && Bits(a)[i] != Bits(b)[i]
  {
    var p :| 0 <= p < |a| && a[p] != b[p];
    assert Pow2(8) == 0x100;
    if forall k :: 0 <= k < 8 ==> (BitAt(a[p], k) <==> BitAt(b[p], k)) {
      SameBitsSameWord(a[p], b[p], 8);
    }
    var k :| 0 <= k < 8 && BitAt(a[p], k) != BitAt(b[p], k);
    i := 8 * p + k;
    BitsAt(a, p, k);
    BitsAt(b, p, k);
  }

  function FirstMark(diff: seq<bool>): (i: nat)
    requires !Quiet(diff)
    ensures i < |diff| && diff[i] && Quiet(diff[..i])
    decreases diff
  {
    if diff[0] then 0
    else
      assert !Quiet(diff[1..]) by {
        var k :| 0 <= k < |diff| && diff[k];
        assert diff[1..][k - 1];
      }
      1 + FirstMark(diff[1..])
  }

  /** Strings that differ only inside a window of 32 consecutive bits have different checksums. */
  lemma BurstDetected(a: seq<uint8>, b: seq<uint8>)
    requires DifferWithinBurst(a, b)
    ensures Crc(a) != Crc(b)
  {
    var lo: nat :| BurstWindow(a, b, lo);
    var diff := BitDiff(Bits(a), Bits(b));
    var i := DifferentBytesDifferentBits(a, b);
    assert diff[i];
    var first := FirstMark(diff);
    assert lo <= first by {
      assert Bits(a)[first] != Bits(b)[first];
    }
    forall k | 0 <= k < |diff| && !(first <= k < first + 32) ensures !diff[k] {
      if k < first {
        assert !diff[..first][k];
      }
    }
    BurstNeverCancels(diff, first);
    FeedLinear(MAX32, MAX32, Bits(a), Bits(b));
    XorSelf(MAX32);
    UpdateIsFeed(MAX32, a);
    UpdateIsFeed(MAX32, b);
    XorZero(Update(MAX32, a), Update(MAX32, b));
  }

  /** The 33 bits of the generator, as the register consumes them. */
  function Generator(): (bits: seq<bool>)
    ensures |bits| == 33
  {
    [true] + LowBits(POLY, 32)
  }

  lemma GeneratorFeedsToZero()
    ensures Feed(0, Generator()) == 0
  {
    FeedOne(0, true);
    FeedConcat(0, [true], LowBits(POLY, 32));
    Pow2Of32();
    WordSteps(POLY, POLY, 32);
    XorSelf(POLY);
    ShiftsKernel(0, 32);
  }

  lemma PatternEscapes(c: uint32, a: seq<bool>, b: seq<bool>, before: seq<bool>, after: seq<bool>)
    requires |a| == |b| && Quiet(before) && Quiet(after) && BitDiff(a, b) == before + Generator() + after
    ensures Feed(c, a) == Feed(c, b)
  {
    FeedConcat(0, before + Generator(), after);
    FeedConcat(0, before, Generator());
    FeedQuiet(0, before);
    ShiftsKernel(0, |before|);
    GeneratorFeedsToZero();
    FeedQuiet(0, after);
    ShiftsKernel(0, |after|);
    FeedLinear(c, c, a, b);
    XorSelf(c);
    XorZero(Feed(c, a), Feed(c, b));
  }

  /**
   32 is the most that can be promised: strings that differ by exactly the 33 bits of the
   generator, wherever in the stream, have the same checksum.
   */
  lemma GeneratorEscapes(a: seq<uint8>, b: seq<uint8>, before: seq<bool>, after: seq<bool>)
    requires |a| == |b| && Quiet(before) && Quiet(after)
    requires BitDiff(Bits(a), Bits(b)) == before + Generator() + after
    ensures Crc(a) == Crc(b)
  {
    UpdateIsFeed(MAX32, a);
    UpdateIsFeed(MAX32, b);
    PatternEscapes(MAX32, Bits(a), Bits(b), before, after);
  }

  lemma DoubledIsEven(p: nat, high: nat, low: nat, w: nat)
    requires w == low + 2 * p * high
    ensures w % 2 == low % 2 && w / 2 == low / 2 + p * high
  {
    var x := p * high;
    assert 2 * p * high == 2 * x;
  }

  lemma {:induction false} LowBitsJoin(low: nat, high: nat, n: nat, m: nat, w: nat)
    requires low < Pow2(n) && w == low + Pow2(n) * high
    ensures LowBits(w, n + m) == LowBits(low, n) + LowBits(high, m)
    decreases n
  {
    if n == 0 {
      assert LowBits(low, 0) + LowBits(high, m) == LowBits(high, m);
    } else {
      DoubledIsEven(Pow2(n - 1), high, low, w);
      LowBitsJoin(low / 2, high, n - 1, m, w / 2);
      assert [low % 2 == 1] + LowBits(low / 2, n - 1) + LowBits(high, m)
          == [low % 2 == 1] + (LowBits(low / 2, n - 1) + LowBits(high, m));
    }
  }

  /** The number a byte string is, least significant byte first. */
  function LittleEndian(data: seq<uint8>): nat
    decreases data
  {
    if data == [] then 0
    else LittleEndian(data[..|data| - 1]) + Pow2(8 * (|data| - 1)) * data[|data| - 1]
  }

  lemma ByteStaysBelow(low: nat, p: nat, b: uint8)
    requires low < p
    ensures low + p * b < 0x100 * p
  {
    assert p * b <= p * 0xff;
  }

  lemma Pow2Eight(n: nat)
    ensures Pow2(n + 8) == 0x100 * Pow2(n)
  {
    Pow2Four(n);
    Pow2Four(n + 4);
  }

  lemma OneMoreByte(front: seq<uint8>, b: uint8, n: nat, low: nat, w: nat)
    requires low == LittleEndian(front) && n == 8 * |front| && low < Pow2(n) && Bits(front) == LowBits(low, n)
    requires w == low + Pow2(n) * b
    ensures w < Pow2(n + 8) && Bits(front) + LowBits(b, 8) == LowBits(w, n + 8)
  {
    Pow2Eight(n);
    ByteStaysBelow(low, Pow2(n), b);
    LowBitsJoin(low, b, n, 8, w);
  }

  lemma {:induction false} BitsOfNumber(data: seq<uint8>, n: nat, w: nat)
    requires n == 8 * |data| && w == LittleEndian(data)
    ensures w < Pow2(n) && Bits(data) == LowBits(w, n)
    decreases data
  {
    if data == [] {
    } else {
      var front, last := data[..|data| - 1], data[|data| - 1];
      var low := LittleEndian(front);
      BitsOfNumber(front, n - 8, low);
      OneMoreByte(front, last, n - 8, low, w);
    }
  }

  lemma PowersOf256()
    ensures Pow2(0) == 1 && Pow2(8) == 0x100 && Pow2(16) == 0x1_0000 && Pow2(24) == 0x100_0000
    ensures Pow2(32) == 0x1_0000_0000
  {
    Pow2Eight(0);
    Pow2Eight(8);
    Pow2Eight(16);
    Pow2Eight(24);
  }

  lemma FiveBytes(data: seq<uint8>)
    requires |data| == 5
    ensures LittleEndian(data)
            == data[0] as int + 0x100 * (data[1] as int) + 0x1_0000 * (data[2] as int) + 0x100_0000 * (data[3] as int) + 0x1_0000_0000 * (data[4] as int)
  {
    PowersOf256();
    var d4, d3, d2, d1 := data[..4], data[..3], data[..2], data[..1];
    assert d4[..3] == d3 && d3[..2] == d2 && d2[..1] == d1 && d1[..0] == [];
    assert LittleEndian(d1) == data[0];
    assert LittleEndian(d2) == data[0] as int + 0x100 * (data[1] as int);
    assert LittleEndian(d3) == LittleEndian(d2) + 0x1_0000 * (data[2] as int);
    assert LittleEndian(d4) == LittleEndian(d3) + 0x100_0000 * (data[3] as int);
  }

  lemma OddNumber(half: nat, n: nat, m: nat)
    requires half < Pow2(n)
    ensures LowBits(2 * half + 1, 1 + n + m) == [true] + LowBits(half, n) + LowBits(0, m)
  {
    LowBitsJoin(half, 0, n, m, half);
    assert [true] + (LowBits(half, n) + LowBits(0, m)) == [true] + LowBits(half, n) + LowBits(0, m);
  }

  lemma {:induction false} ZeroIsQuiet(n: nat)
    ensures Quiet(LowBits(0, n))
    decreases n
  {
    if n == 0 {
    } else {
      ZeroIsQuiet(n - 1);
    }
  }

  lemma QuietSide(a: seq<bool>, b: seq<bool>)
    requires |a| == |b| && Quiet(a)
    ensures BitDiff(a, b) == b
  {
  }

  lemma QuietString(a: seq<uint8>)
    requires a == [0, 0, 0, 0, 0]
    ensures Quiet(Bits(a))
  {
    FiveBytes(a);
    BitsOfNumber(a, 40, 0);
    ZeroIsQuiet(40);
  }

  lemma GeneratorString(b: seq<uint8>, n: nat, m: nat)
    requires b == [0x41, 0x06, 0x71, 0xDB, 0x01] && n == 32 && m == 7
    ensures Bits(b) == Generator() + LowBits(0, m)
  {
    FiveBytes(b);
    BitsOfNumber(b, 1 + n + m, LittleEndian(b));
    Pow2Of32();
    OddNumber(POLY, n, m);
  }

  lemma CollisionBits(a: seq<uint8>, b: seq<uint8>) returns (after: seq<bool>)
    requires a == [0, 0, 0, 0, 0] && b == [0x41, 0x06, 0x71, 0xDB, 0x01]
    ensures Quiet(after) && BitDiff(Bits(a), Bits(b)) == [] + Generator() + after
  {
    after := LowBits(0, 7);
    QuietString(a);
    GeneratorString(b, 32, 7);
    QuietSide(Bits(a), Bits(b));
    ZeroIsQuiet(7);
    assert [] + Generator() + after == Generator() + after;
  }

  /** Two strings of five bytes, 33 bits apart, that the checksum cannot tell from each other. */
  lemma CollisionExample(a: seq<uint8>, b: seq<uint8>)
    requires a == [0, 0, 0, 0, 0] && b == [0x41, 0x06, 0x71, 0xDB, 0x01]
    ensures Crc(a) == Crc(b)
  {
    var after := CollisionBits(a, b);
    GeneratorEscapes(a, b, [], after);
  }
}
