/**
 Number printing into a scratch array filled from its right end, as `itoa` does it.
 */
module Numerals {
  import opened Words

  const SCRATCH := 36

  function DigitChar(d: nat, caps: bool): char
    requires d < 16
  {
    if caps then "0123456789ABCDEF"[d] else "0123456789abcdef"[d]
  }

  /** Digits of a positive number, none for zero. */
  function Digits(num: nat, base: nat, caps: bool): seq<char>
    requires 2 <= base <= 16
    decreases num
  {
    if num == 0 then [] else Digits(num / base, base, caps) + [DigitChar(num % base, caps)]
  }

  function Plain(num: nat, base: nat, caps: bool): seq<char>
    requires 2 <= base <= 16
  {
    if num == 0 then ['0'] else Digits(num, base, caps)
  }

  function Repeat(c: char, n: int): (s: seq<char>)
    ensures |s| == (if n < 0 then 0 else n) && forall i :: 0 <= i < |s| ==> s[i] == c
    decreases n
  {
    if n <= 0 then [] else Repeat(c, n - 1) + [c]
  }

  lemma {:induction false} RepeatFront(c: char, n: nat)
    ensures Repeat(c, n + 1) == [c] + Repeat(c, n)
    decreases n
  {
    if n == 0 {
    } else {
      RepeatFront(c, n - 1);
    }
  }

  lemma ConcatAssociates(a: seq<char>, b: seq<char>, c: seq<char>)
    ensures a + b + c == a + (b + c)
  {
  }

  lemma NothingAdded(a: seq<char>)
    ensures a + [] == a && [] + a == a
  {
  }

  function Text(num: nat, base: nat, caps: bool, prec: int): seq<char>
    requires 2 <= base <= 16
  {
    var d := Plain(num, base, caps);
    Repeat('0', prec - |d|) + d
  }

  lemma DivShrinks(num: nat, base: nat)
    requires base >= 2
    ensures 0 <= num / base <= num / 2
  {
    var q := num / base;
    assert num == base * q + num % base;
    assert base * q >= 2 * q;
  }

  lemma {:induction false} DigitsFit(num: nat, base: nat, caps: bool, n: nat)
    requires 2 <= base <= 16 && num < Pow2(n)
    ensures |Digits(num, base, caps)| <= n
    decreases n
  {
    if num == 0 {
    } else {
      var q := num / base;
      DivShrinks(num, base);
      assert n > 0 && q < Pow2(n - 1);
      DigitsFit(q, base, caps, n - 1);
    }
  }

  lemma WordFits(num: uint32, base: nat, caps: bool)
    requires 2 <= base <= 16
    ensures 1 <= |Plain(num, base, caps)| <= 32
  {
    Pow2Of32();
    DigitsFit(num, base, caps, 32);
  }

  const END := SCRATCH - 1

  /** The scratch array's characters from s up to its closing NUL. */
  ghost predicate Holds(mem: seq<char>, s: int, text: seq<char>) {
    |mem| == SCRATCH && 0 <= s <= END && mem[END] == '\0' && mem[s..END] == text
  }

  lemma HoldsOneMore(mem: seq<char>, s: nat, text: seq<char>, c: char)
    requires 0 < s && Holds(mem, s, text)
    ensures Holds(mem[s - 1 := c], s - 1, [c] + text)
  {
  }

  /** `plain` is what is still to be printed of `num`, then what is printed already. */
  ghost predicate Printing(num: nat, base: nat, caps: bool, done: seq<char>, plain: seq<char>)
    requires 2 <= base <= 16
  {
    if done == [] then plain == Plain(num, base, caps) else plain == Digits(num, base, caps) + done
  }

  lemma PrintingOneMore(num: nat, base: nat, caps: bool, done: seq<char>, plain: seq<char>)
    requires 2 <= base <= 16 && Printing(num, base, caps, done, plain) && (num != 0 || done == [])
    ensures |done| < |plain|
    ensures Printing(num / base, base, caps, [DigitChar(num % base, caps)] + done, plain)
    ensures 0 <= num / base && (num / base < num || num == 0 == num / base)
  {
    var c := DigitChar(num % base, caps);
    DivShrinks(num, base);
    assert num == 0 ==> num % base == 0 && c == '0' && num / base == 0;
    assert Digits(num / base, base, caps) + [c] + done == Digits(num / base, base, caps) + ([c] + done);
  }

  /** The first loop: the digits, right to left, ending at the NUL already in place. */
  method PrintDigits(tmp: array<char>, num0: uint32, base: nat, caps: bool) returns (s: nat)
    requires 2 <= base <= 16 && Holds(tmp[..], END, [])
    modifies tmp
    ensures Holds(tmp[..], s, Plain(num0, base, caps))
  {
    var digits := if caps then "0123456789ABCDEF" else "0123456789abcdef";
    var num: nat := num0;
    ghost var plain, done: seq<char> := Plain(num0, base, caps), [];
    WordFits(num0, base, caps);
    s := END;
    while num != 0 || s == END
      invariant |done| == END - s && Holds(tmp[..], s, done)
      invariant Printing(num, base, caps, done, plain)
      decreases num, s
    {
      var r, q := num % base, num / base;
      var c := digits[r];
      ghost var mem := tmp[..];
      PrintingOneMore(num, base, caps, done, plain);
      assert c == DigitChar(r, caps);
      HoldsOneMore(mem, s, done, c);
      s := s - 1;
      tmp[s] := c;
      assert tmp[..] == mem[s := c];
      done := [c] + done;
      num := q;
    }
  }

  lemma ConcatZero(n: nat, plain: seq<char>)
    ensures ['0'] + (Repeat('0', n) + plain) == Repeat('0', n + 1) + plain
  {
    RepeatFront('0', n);
  }

  /** The second loop: zeros up to the precision. */
  method PrintZeros(tmp: array<char>, s0: nat, prec0: int, ghost plain: seq<char>) returns (s: nat)
    requires Holds(tmp[..], s0, plain) && prec0 <= s0
    modifies tmp
    ensures Holds(tmp[..], s, Repeat('0', prec0) + plain)
  {
    var prec := prec0;
    ghost var done := plain;
    s := s0;
    assert Repeat('0', 0) + plain == plain;
    while prec > 0
      invariant s0 - s == prec0 - prec && (if prec0 <= 0 then prec == prec0 else prec >= 0)
      invariant done == Repeat('0', s0 - s) + plain && Holds(tmp[..], s, done)
    {
      ghost var mem := tmp[..];
      ConcatZero(s0 - s, plain);
      HoldsOneMore(mem, s, done, '0');
      prec := prec - 1;
      s := s - 1;
      tmp[s] := '0';
      assert tmp[..] == mem[s := '0'];
      done := ['0'] + done;
    }
    assert Repeat('0', s0 - s) == Repeat('0', prec0);
  }

  lemma {:induction false} DigitsHaveNoNul(num: nat, base: nat, caps: bool)
    requires 2 <= base <= 16
    ensures '\0' !in Digits(num, base, caps)
    decreases num
  {
    if num == 0 {
    } else {
      DivShrinks(num, base);
      DigitsHaveNoNul(num / base, base, caps);
    }
  }

  lemma TextShape(num: uint32, base: nat, caps: bool, prec: int, plain: seq<char>, text: seq<char>)
    requires 2 <= base <= 16 && plain == Plain(num, base, caps) && text == Text(num, base, caps, prec)
    ensures |plain| <= 32 && '\0' !in text && text == Repeat('0', prec - |plain|) + plain
  {
    WordFits(num, base, caps);
    DigitsHaveNoNul(num, base, caps);
    assert '\0' !in plain;
  }

  /** The memory after n characters have been copied to `at`. */
  ghost function Copied(mem: seq<char>, at: nat, all: seq<char>, n: nat): seq<char>
    requires n <= |all| && at + n <= |mem|
  {
    mem[..at] + all[..n] + mem[at + n..]
  }

  lemma CopyOneMore(mem: seq<char>, at: nat, all: seq<char>, n: nat)
    requires n < |all| && at + n < |mem|
    ensures Copied(mem, at, all, n)[at + n := all[n]] == Copied(mem, at, all, n + 1)
  {
  }

  lemma CopiedAll(mem: seq<char>, at: nat, text: seq<char>)
    requires at + |text| < |mem|
    ensures Copied(mem, at, text + ['\0'], |text| + 1) == mem[..at] + text + ['\0'] + mem[at + |text| + 1..]
    ensures Copied(mem, at, text + ['\0'], 0) == mem
  {
    assert mem[..at] + (text + ['\0']) == mem[..at] + text + ['\0'];
  }

  lemma TextWithNul(mem: seq<char>, from: nat, text: seq<char>, k: nat)
    requires Holds(mem, from, text) && '\0' !in text && k <= |text|
    ensures from + k < |mem| && mem[from + k] == (text + ['\0'])[k]
    ensures mem[from + k] == '\0' <==> k == |text|
  {
    if k < |text| {
      assert mem[from..END][k] == mem[from + k];
    }
  }

  /** The closing do-while: copies up to and including the NUL. */
  method CopyString(src: array<char>, from: nat, dst: array<char>, at: nat, ghost text: seq<char>)
    requires src != dst && Holds(src[..], from, text) && '\0' !in text && at + |text| < dst.Length
    modifies dst
    ensures dst[..] == old(dst[..])[..at] + text + ['\0'] + old(dst[..])[at + |text| + 1..]
  {
    var s, p := from, at;
    ghost var all, mem := text + ['\0'], dst[..];
    CopiedAll(mem, at, text);
    while true
      invariant from <= s <= from + |text| && p - at == s - from
      invariant dst[..] == Copied(mem, at, all, s - from)
      decreases src.Length - s
    {
      TextWithNul(src[..], from, text, s - from);
      var c := src[s];
      ghost var before := dst[..];
      CopyOneMore(mem, at, all, s - from);
      dst[p] := c;
      assert dst[..] == before[p := c];
      p, s := p + 1, s + 1;
      if c == '\0' {
        break;
      }
    }
  }

  /** The source's `itoa(buf + at, ...)`. */
  method Itoa(buf: array<char>, at: nat, num: uint32, base: nat, caps: bool, prec: int)
    requires 2 <= base <= 16 && prec < SCRATCH
    requires at + |Text(num, base, caps, prec)| < buf.Length
    modifies buf
    ensures var t := Text(num, base, caps, prec);
            buf[..] == old(buf[..])[..at] + t + ['\0'] + old(buf[..])[at + |t| + 1..]
  {
    var tmp := new char[SCRATCH](_ => '\0');
    ghost var plain, text := Plain(num, base, caps), Text(num, base, caps, prec);
    TextShape(num, base, caps, prec, plain, text);
    var s := PrintDigits(tmp, num, base, caps);
    s := PrintZeros(tmp, s, prec - (END - s), plain);
    assert Holds(tmp[..], s, text);
    CopyString(tmp, s, buf, at, text);
  }

  // ---------------------------------------------------------------------------
  // Reading back
  // ---------------------------------------------------------------------------

  function DigitVal(c: char): int {
    if '0' <= c <= '9' then c as int - '0' as int
    else if 'a' <= c <= 'f' then c as int - 'a' as int + 10
    else if 'A' <= c <= 'F' then c as int - 'A' as int + 10
    else -1
  }

  /** Positional value of a digit string. */
  function Value(s: seq<char>, base: nat): int
    decreases s
  {
    if s == [] then 0 else Value(s[..|s| - 1], base) * base + DigitVal(s[|s| - 1])
  }

  predicate AllDigits(s: seq<char>, base: nat) {
    forall i :: 0 <= i < |s| ==> 0 <= DigitVal(s[i]) < base
  }

  lemma DigitReadsBack(d: nat, caps: bool)
    requires d < 16
    ensures DigitVal(DigitChar(d, caps)) == d
  {
  }

  lemma ValueOneMore(s: seq<char>, c: char, base: nat)
    ensures Value(s + [c], base) == Value(s, base) * base + DigitVal(c)
  {
    assert (s + [c])[..|s|] == s;
  }

  lemma DivModBack(num: nat, base: nat)
    requires base >= 2
    ensures num / base * base + num % base == num
    ensures num > 0 && num / base == 0 ==> num % base > 0
  {
  }

  lemma {:induction false} DigitsReadBack(num: nat, base: nat, caps: bool)
    requires 2 <= base <= 16
    ensures Value(Digits(num, base, caps), base) == num
    decreases num
  {
    if num == 0 {
    } else {
      var q, r := num / base, num % base;
      DivShrinks(num, base);
      DivModBack(num, base);
      DigitsReadBack(q, base, caps);
      DigitReadsBack(r, caps);
      ValueOneMore(Digits(q, base, caps), DigitChar(r, caps), base);
    }
  }

  /** No leading zero: the digit string is as short as it can be. */
  lemma {:induction false} DigitsAreMinimal(num: nat, base: nat, caps: bool)
    requires 2 <= base <= 16
    ensures AllDigits(Digits(num, base, caps), base)
    ensures num > 0 ==> Digits(num, base, caps) != [] && Digits(num, base, caps)[0] != '0'
    decreases num
  {
    if num == 0 {
    } else {
      var q, r := num / base, num % base;
      DivShrinks(num, base);
      DivModBack(num, base);
      DigitsAreMinimal(q, base, caps);
      DigitReadsBack(r, caps);
      assert Digits(num, base, caps) == Digits(q, base, caps) + [DigitChar(r, caps)];
    }
  }

  /** Digits above nine are letters of the case asked for. */
  predicate InCase(c: char, caps: bool) {
    '0' <= c <= '9' || (if caps then 'A' <= c <= 'F' else 'a' <= c <= 'f')
  }

  lemma {:induction false} DigitsCase(num: nat, base: nat, caps: bool)
    requires 2 <= base <= 16
    ensures forall i :: 0 <= i < |Digits(num, base, caps)| ==> InCase(Digits(num, base, caps)[i], caps)
    decreases num
  {
    if num == 0 {
    } else {
      DivShrinks(num, base);
      DigitsCase(num / base, base, caps);
    }
  }

  lemma CharOfDigit(c: char, d: char, caps: bool)
    requires InCase(c, caps) && InCase(d, caps) && DigitVal(c) == DigitVal(d)
    ensures c == d
  {
  }

  lemma LeadingDigitsDecide(q: int, r: int, q': int, r': int, base: nat)
    requires 0 <= r < base && 0 <= r' && q < q'
    ensures q * base + r < q' * base + r'
  {
    var d: nat := q' - q - 1;
    assert q' == q + 1 + d;
    assert q' * base == q * base + base + d * base;
  }

  lemma SameDigit(q: int, r: int, q': int, r': int, base: nat)
    requires 0 <= r < base && 0 <= r' < base && q * base + r == q' * base + r'
    ensures q == q' && r == r'
  {
    if q < q' {
      LeadingDigitsDecide(q, r, q', r', base);
    } else if q' < q {
      LeadingDigitsDecide(q', r', q, r, base);
    }
  }

  ghost predicate InBase(s: seq<char>, base: nat, caps: bool) {
    AllDigits(s, base) && forall i :: 0 <= i < |s| ==> InCase(s[i], caps)
  }

  lemma LastDigit(s: seq<char>, base: nat, caps: bool) returns (front: seq<char>, c: char)
    requires InBase(s, base, caps) && s != []
    ensures s == front + [c] && InBase(front, base, caps) && InCase(c, caps) && 0 <= DigitVal(c) < base
    ensures Value(s, base) == Value(front, base) * base + DigitVal(c)
  {
    front, c := s[..|s| - 1], s[|s| - 1];
  }

  /** With the case fixed no other digit string of the same length has the same value. */
  lemma {:induction false} DigitsUnique(s: seq<char>, t: seq<char>, base: nat, caps: bool)
    requires |s| == |t| && InBase(s, base, caps) && InBase(t, base, caps)
    requires Value(s, base) == Value(t, base)
    ensures s == t
    decreases |s|
  {
    if s == [] {
    } else {
      var a, c := LastDigit(s, base, caps);
      var b, d := LastDigit(t, base, caps);
      SameDigit(Value(a, base), DigitVal(c), Value(b, base), DigitVal(d), base);
      CharOfDigit(c, d, caps);
      DigitsUnique(a, b, base, caps);
    }
  }

  lemma {:induction false} LeadingZeros(n: nat, s: seq<char>, base: nat)
    ensures Value(Repeat('0', n) + s, base) == Value(s, base)
    decreases n + |s|
  {
    if s != [] {
      var front, c := s[..|s| - 1], s[|s| - 1];
      LeadingZeros(n, front, base);
      ValueOneMore(Repeat('0', n) + front, c, base);
      assert Repeat('0', n) + front + [c] == Repeat('0', n) + s;
    } else if n != 0 {
      LeadingZeros(n - 1, s, base);
      assert Repeat('0', n - 1) + s == Repeat('0', n - 1);
      ValueOneMore(Repeat('0', n - 1), '0', base);
      assert Repeat('0', n) + s == Repeat('0', n - 1) + ['0'];
    }
  }

  lemma PlainReadsBack(num: uint32, base: nat, caps: bool)
    requires 2 <= base <= 16
    ensures var t := Plain(num, base, caps);
            AllDigits(t, base) && '\0' !in t && Value(t, base) == num
  {
    DigitsReadBack(num, base, caps);
    DigitsAreMinimal(num, base, caps);
    DigitsHaveNoNul(num, base, caps);
    if num == 0 {
      ValueOneMore([], '0', base);
      assert [] + ['0'] == ['0'];
    }
  }

  /**
   A printed number has exactly max(minimal digits, precision) characters, all digits of the
   base, and reads back as the number.
   */
  lemma TextReadsBack(num: uint32, base: nat, caps: bool, prec: int)
    requires 2 <= base <= 16
    ensures var t := Text(num, base, caps, prec);
            var minimal := |Plain(num, base, caps)|;
            && |t| == (if prec > minimal then prec else minimal)
            && AllDigits(t, base) && '\0' !in t
            && Value(t, base) == num
  {
    var d := Plain(num, base, caps);
    PlainReadsBack(num, base, caps);
    LeadingZeros(if prec > |d| then prec - |d| else 0, d, base);
    assert prec <= |d| ==> Repeat('0', 0) + d == Repeat('0', prec - |d|) + d;
  }

  lemma TextCase(num: nat, base: nat, caps: bool, prec: int)
    requires 2 <= base <= 16
    ensures forall i :: 0 <= i < |Text(num, base, caps, prec)| ==> InCase(Text(num, base, caps, prec)[i], caps)
  {
    DigitsCase(num, base, caps);
  }

  /**
   The printed text is the only one: any string of its length with digits of the base in the
   right case that reads as the number is the text.
   */
  lemma TextIsTheOnlyOne(num: uint32, base: nat, caps: bool, prec: int, t: seq<char>)
    requires 2 <= base <= 16 && |t| == |Text(num, base, caps, prec)|
    requires InBase(t, base, caps)
    ensures Value(t, base) == num <==> t == Text(num, base, caps, prec)
  {
    TextReadsBack(num, base, caps, prec);
    TextCase(num, base, caps, prec);
    if Value(t, base) == num {
      DigitsUnique(t, Text(num, base, caps, prec), base, caps);
    }
  }
}
