/**
 What the checksum is, independently of how it is computed: the remainder of a polynomial
 division over GF(2), with an all-ones preset and a final complement, for the generator

   x^32 + x^26 + x^23 + x^22 + x^16 + x^12 + x^11 + x^10 + x^8 + x^7 + x^5 + x^4 + x^2 + x + 1

 of the CRC-32 that RFC 1952 names in its section 8.
 */
module CrcRemainder {
  import opened Words
  import opened Crc32

  /** A polynomial is its coefficients, constant term first. */
  type Poly = seq<bool>

  predicate IsExponent(i: int) {
    || i == 32 || i == 26 || i == 23 || i == 22 || i == 16 || i == 12 || i == 11 || i == 10
    || i == 8 || i == 7 || i == 5 || i == 4 || i == 2 || i == 1 || i == 0
  }

  function Generator(): (g: Poly)
    ensures |g| == 33 && forall i :: 0 <= i < 33 ==> (g[i] <==> IsExponent(i))
  {
    seq(33, i => IsExponent(i))
  }

  predicate Coef(p: Poly, i: int) {
    0 <= i < |p| && p[i]
  }

  function Plus(p: Poly, q: Poly): (r: Poly)
    ensures forall i :: Coef(r, i) <==> Coef(p, i) != Coef(q, i)
  {
    var r := seq(if |p| < |q| then |q| else |p|, i => Coef(p, i) != Coef(q, i));
    assert forall i :: 0 <= i < |r| ==> (r[i] <==> Coef(p, i) != Coef(q, i));
    r
  }

  function TimesX(p: Poly): (r: Poly)
    ensures forall i :: Coef(r, i) <==> Coef(p, i - 1)
  {
    [false] + p
  }

  function Times(q: Poly, g: Poly): Poly
    decreases q
  {
    if q == [] then []
    else Plus(if q[0] then g else [], TimesX(Times(q[1..], g)))
  }

  /**
   The message is read first bit first as the highest power, moved up 32 places, and the
   all-ones preset is added to its first 32 bits.
   */
  predicate DividendCoef(bits: seq<bool>, i: int) {
    var n := |bits|;
    (32 <= i < n + 32 && bits[n - 1 - (i - 32)]) != (n <= i < n + 32)
  }

  /** The register as a polynomial: bit 31 is the constant term. */
  function Register(c: uint32): (r: Poly)
    ensures |r| == 32
  {
    seq(32, i requires 0 <= i < 32 => BitAt(c, 31 - i))
  }

  ghost predicate DividesWith(bits: seq<bool>, q: Poly, r: Poly) {
    forall i :: DividendCoef(bits, i) <==> Coef(Times(q, Generator()), i) != Coef(r, i)
  }

  ghost predicate IsRemainder(bits: seq<bool>, r: Poly) {
    |r| == 32 && exists q :: DividesWith(bits, q, r)
  }

  // ---------------------------------------------------------------------------
  // Bits of words
  // ---------------------------------------------------------------------------

  lemma {:induction false} BitBeyond(c: nat, n: nat, k: nat)
    requires c < Pow2(n) && n <= k
    ensures !BitAt(c, k)
    decreases k
  {
    if k == 0 {
    } else {
      BitBeyond(c / 2, if n == 0 then 0 else n - 1, k - 1);
    }
  }

  lemma {:induction false} AllOnes(n: nat, k: nat)
    requires k < n
    ensures BitAt(Pow2(n) - 1, k)
    decreases k
  {
    if k == 0 {
    } else {
      AllOnes(n - 1, k - 1);
    }
  }

  lemma {:induction false} BitOfDropped(c: nat, k: nat, n: nat)
    ensures BitAt(c, k + n) <==> BitAt(Drop(c, n), k)
    decreases n
  {
    if n == 0 {
    } else {
      BitOfDropped(c / 2, k, n - 1);
    }
  }

  lemma BitOfUpperByte(c: nat, k: nat)
    ensures BitAt(c, k + 8) <==> BitAt(c / 0x100, k)
  {
    BitOfDropped(c, k, 8);
    RaiseAndDropByte(c);
  }

  lemma BitsOfPolyBytes(k: nat)
    requires k < 8
    ensures BitAt(0x20, k) <==> k == 5
    ensures BitAt(0x83, k) <==> k == 0 || k == 1 || k == 7
    ensures BitAt(0xB8, k) <==> k == 3 || k == 4 || k == 5 || k == 7
    ensures BitAt(0xED, k) <==> k != 1 && k != 4
  {
  }

  lemma {:induction false} BitOfLowPart(c: nat, d: nat, k: nat, n: nat)
    requires k < n
    ensures BitAt(d + Raise(c, n), k) <==> BitAt(d, k)
    decreases k
  {
    if k == 0 {
    } else {
      BitOfLowPart(c, d / 2, k - 1, n - 1);
    }
  }

  lemma BitOfLowByte(c: nat, d: uint8, k: nat)
    requires k < 8
    ensures BitAt(c * 0x100 + d, k) <==> BitAt(d, k)
  {
    RaiseAndDropByte(c);
    BitOfLowPart(c, d, k, 8);
  }

  /** A word from its bytes, lowest first. */
  function FromBytes(bytes: seq<uint8>): nat
    decreases bytes
  {
    if bytes == [] then 0 else FromBytes(bytes[1..]) * 0x100 + bytes[0]
  }

  lemma {:induction false} BitOfBytes(bytes: seq<uint8>, i: nat, k: nat)
    requires i < |bytes| && k < 8
    ensures BitAt(FromBytes(bytes), 8 * i + k) <==> BitAt(bytes[i], k)
    decreases bytes
  {
    if i == 0 {
      BitOfLowByte(FromBytes(bytes[1..]), bytes[0], k);
    } else {
      BitOfUpperByte(FromBytes(bytes), 8 * (i - 1) + k);
      BitOfBytes(bytes[1..], i - 1, k);
    }
  }

  lemma PolyFromBytes(bytes: seq<uint8>)
    requires bytes == [0x20, 0x83, 0xB8, 0xED]
    ensures FromBytes(bytes) == POLY
  {
    assert bytes[1..] == [0x83, 0xB8, 0xED];
    assert bytes[1..][1..] == [0xB8, 0xED];
    assert FromBytes([0xB8, 0xED]) == 0xEDB8;
  }

  lemma GeneratorIsPoly(i: nat)
    requires i < 32
    ensures Generator()[i] <==> BitAt(POLY, 31 - i)
  {
    var bytes: seq<uint8> := [0x20, 0x83, 0xB8, 0xED];
    var j, k := (31 - i) / 8, (31 - i) % 8;
    PolyFromBytes(bytes);
    BitOfBytes(bytes, j, k);
    BitsOfPolyBytes(k);
  }

  // ---------------------------------------------------------------------------
  // One bit of message is one step of long division
  // ---------------------------------------------------------------------------

  lemma RegisterStep(c: uint32, e: bool, i: int)
    ensures var top := (c % 2 == 1) != e;
            Coef(Register(Shift(XorWord(c, Bit(e)))), i)
            <==> (Coef(Register(c), i - 1) != (i == 32 && e)) != (top && Coef(Generator(), i))
  {
    var z := XorWord(c, Bit(e));
    XorHalf(c, Bit(e));
    XorCommutes(c / 2, 0);
    assert z / 2 == c / 2;
    if 0 <= i < 32 {
      var k := 31 - i;
      GeneratorIsPoly(i);
      XorBit(c / 2, POLY, k);
      if i == 0 {
        Pow2Of32();
        BitBeyond(c / 2, 31, 31);
      } else {
        assert BitAt(c, k + 1) == BitAt(c / 2, k);
      }
    }
  }

  /** The quotient the register never keeps. */
  function Quotient(bits: seq<bool>): Poly
    decreases bits
  {
    if bits == [] then []
    else
      var front, e := bits[..|bits| - 1], bits[|bits| - 1];
      [(Feed(MAX32, front) % 2 == 1) != e] + Quotient(front)
  }

  lemma DividendStep(bits: seq<bool>, i: int)
    requires bits != []
    ensures DividendCoef(bits, i)
            <==> DividendCoef(bits[..|bits| - 1], i - 1) != (i == 32 && bits[|bits| - 1])
  {
  }

  lemma {:induction false} DivisionHolds(bits: seq<bool>, i: int)
    ensures DividendCoef(bits, i)
            <==> Coef(Times(Quotient(bits), Generator()), i) != Coef(Register(Feed(MAX32, bits)), i)
    decreases bits
  {
    if bits == [] {
      if 0 <= i < 32 {
        Pow2Of32();
        AllOnes(32, 31 - i);
      }
    } else {
      var m := |bits| - 1;
      var front, e := bits[..m], bits[m];
      var q := Quotient(bits);
      assert q[1..] == Quotient(front);
      DivisionHolds(front, i - 1);
      RegisterStep(Feed(MAX32, front), e, i);
      DividendStep(bits, i);
    }
  }

  // ---------------------------------------------------------------------------
  // The remainder is unique
  // ---------------------------------------------------------------------------

  lemma {:induction false} TimesAdds(p: Poly, q: Poly, g: Poly, i: int)
    ensures Coef(Times(Plus(p, q), g), i) <==> Coef(Times(p, g), i) != Coef(Times(q, g), i)
    decreases |p| + |q|
  {
    var s := Plus(p, q);
    if p == [] {
      assert s == q by { assert forall k :: 0 <= k < |q| ==> Coef(s, k) == Coef(q, k); }
    } else if q == [] {
      assert s == p by { assert forall k :: 0 <= k < |p| ==> Coef(s, k) == Coef(p, k); }
    } else {
      assert s[1..] == Plus(p[1..], q[1..]);
      TimesAdds(p[1..], q[1..], g, i - 1);
      assert Coef(s, 0) <==> p[0] != q[0];
    }
  }

  lemma {:induction false} TimesByNothing(q: Poly, g: Poly, i: int)
    requires forall k :: !Coef(q, k)
    ensures !Coef(Times(q, g), i)
    decreases q
  {
    if q == [] {
    } else {
      assert !Coef(q, 0);
      forall k ensures !Coef(q[1..], k) {
        assert !Coef(q, k + 1);
      }
      TimesByNothing(q[1..], g, i - 1);
    }
  }

  lemma {:induction false} LeadingTerm(q: Poly, k: nat)
    requires Coef(q, k) && forall j :: k < j ==> !Coef(q, j)
    ensures Coef(Times(q, Generator()), k + 32)
    decreases q
  {
    if k == 0 {
      forall j ensures !Coef(q[1..], j) {
        if j >= 0 {
          assert !Coef(q, j + 1);
        }
      }
      TimesByNothing(q[1..], Generator(), 31);
    } else {
      assert Coef(q[1..], k - 1);
      forall j | k - 1 < j ensures !Coef(q[1..], j) {
        assert !Coef(q, j + 1);
      }
      LeadingTerm(q[1..], k - 1);
    }
  }

  lemma {:induction false} HighestTerm(q: Poly, i: nat) returns (k: nat)
    requires Coef(q, i)
    ensures Coef(q, k) && forall j :: k < j ==> !Coef(q, j)
    decreases |q| - i
  {
    if j :| i < j && Coef(q, j) {
      k := HighestTerm(q, j);
    } else {
      k := i;
    }
  }

  lemma RemainderUnique(bits: seq<bool>, q1: Poly, r1: Poly, q2: Poly, r2: Poly)
    requires |r1| == |r2| == 32
    requires DividesWith(bits, q1, r1) && DividesWith(bits, q2, r2)
    ensures r1 == r2
  {
    var q := Plus(q1, q2);
    forall i ensures Coef(Times(q, Generator()), i) <==> Coef(r1, i) != Coef(r2, i) {
      TimesAdds(q1, q2, Generator(), i);
      assert DividendCoef(bits, i) <==> Coef(Times(q1, Generator()), i) != Coef(r1, i);
      assert DividendCoef(bits, i) <==> Coef(Times(q2, Generator()), i) != Coef(r2, i);
    }
    if i :| Coef(q, i) {
      var k := HighestTerm(q, i);
      LeadingTerm(q, k);
      assert false;
    }
    forall i | 0 <= i < 32 ensures r1[i] == r2[i] {
      TimesByNothing(q, Generator(), i);
      assert Coef(r1, i) == r1[i] && Coef(r2, i) == r2[i];
    }
  }

  lemma RegisterIsRemainder(bits: seq<bool>)
    ensures DividesWith(bits, Quotient(bits), Register(Feed(MAX32, bits)))
  {
    forall i
      ensures DividendCoef(bits, i)
              <==> Coef(Times(Quotient(bits), Generator()), i) != Coef(Register(Feed(MAX32, bits)), i)
    {
      DivisionHolds(bits, i);
    }
  }

  lemma OnlyRemainder(bits: seq<bool>, r: Poly)
    ensures IsRemainder(bits, r) <==> r == Register(Feed(MAX32, bits))
  {
    RegisterIsRemainder(bits);
    if IsRemainder(bits, r) {
      var q :| DividesWith(bits, q, r);
      RemainderUnique(bits, q, r, Quotient(bits), Register(Feed(MAX32, bits)));
    }
  }

  /** The complemented checksum is the remainder, and nothing else is. */
  lemma CrcIsTheRemainder(data: seq<uint8>, r: Poly)
    ensures IsRemainder(Bits(data), r) <==> r == Register(MAX32 - Crc(data))
  {
    UpdateIsFeed(MAX32, data);
    OnlyRemainder(Bits(data), r);
  }
}
