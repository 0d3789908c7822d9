/**
 What a printed field means: it can be read back, it has the promised width, and exactly when
 the formatter breaks that promise.
 */
module FieldTheorems {
  import opened Words
  import opened Numerals
  import opened FormatSpec

  // ---------------------------------------------------------------------------
  // An independent reader
  // ---------------------------------------------------------------------------

  function TrimLeft(t: seq<char>): seq<char>
    decreases t
  {
    if t != [] && t[0] == ' ' then TrimLeft(t[1..]) else t
  }

  function TrimRight(t: seq<char>): seq<char>
    decreases t
  {
    if t != [] && t[|t| - 1] == ' ' then TrimRight(t[..|t| - 1]) else t
  }

  function ParseDigits(t: seq<char>, base: nat): Option<int> {
    if t != [] && AllDigits(t, base) then Some(Value(t, base)) else None
  }

  function ParseTrimmed(u: seq<char>, base: nat): Option<int> {
    if u != [] && u[0] == '-' then
      match ParseDigits(u[1..], base)
      case Some(v) => Some(-v)
      case None => None
    else if u != [] && u[0] == '+' then ParseDigits(u[1..], base)
    else ParseDigits(u, base)
  }

  /** Blanks, an optional sign, digits, blanks. */
  function Parse(t: seq<char>, base: nat): Option<int> {
    ParseTrimmed(TrimRight(TrimLeft(t)), base)
  }

  lemma {:induction false} TrimLeftBlanks(n: nat, x: seq<char>)
    requires x != [] && x[0] != ' '
    ensures TrimLeft(Repeat(' ', n) + x) == x
    decreases n
  {
    if n == 0 {
      assert Repeat(' ', 0) + x == x;
    } else {
      RepeatFront(' ', n - 1);
      assert (Repeat(' ', n) + x)[1..] == Repeat(' ', n - 1) + x;
      TrimLeftBlanks(n - 1, x);
    }
  }

  lemma {:induction false} TrimRightBlanks(n: nat, x: seq<char>)
    requires x != [] && x[|x| - 1] != ' '
    ensures TrimRight(x + Repeat(' ', n)) == x
    decreases n
  {
    if n == 0 {
      assert x + Repeat(' ', 0) == x;
    } else {
      assert (x + Repeat(' ', n))[..|x| + n - 1] == x + Repeat(' ', n - 1);
      TrimRightBlanks(n - 1, x);
    }
  }

  /** Blanks on either side do not matter. */
  lemma TrimBoth(left: nat, x: seq<char>, right: nat)
    requires x != [] && x[0] != ' ' && x[|x| - 1] != ' '
    ensures TrimRight(TrimLeft(Repeat(' ', left) + x + Repeat(' ', right))) == x
  {
    var y := x + Repeat(' ', right);
    assert Repeat(' ', left) + x + Repeat(' ', right) == Repeat(' ', left) + y;
    TrimLeftBlanks(left, y);
    TrimRightBlanks(right, x);
  }

  predicate IsSign(sign: seq<char>) {
    |sign| <= 1 && (sign != [] ==> sign[0] == '-' || sign[0] == '+')
  }

  predicate IsMinus(sign: seq<char>) {
    sign != [] && sign[0] == '-'
  }

  predicate SignFor(sign: seq<char>, num: int) {
    && |sign| <= 1 && (sign != [] ==> sign[0] == '-' || sign[0] == '+' || sign[0] == ' ')
    && (num < 0 <==> IsMinus(sign))
  }

  function Signed(num: int, value: int): int {
    if num < 0 then -value else value
  }

  lemma ParseSignAndDigits(sign: seq<char>, digits: seq<char>, base: nat, num: int)
    requires SignFor(sign, num) && IsSign(sign) && digits != [] && AllDigits(digits, base)
    ensures ParseTrimmed(sign + digits, base) == Some(Signed(num, Value(digits, base)))
  {
    assert DigitVal(digits[0]) >= 0;
    if sign == [] {
      assert sign + digits == digits;
    } else {
      assert (sign + digits)[1..] == digits;
    }
  }

  /** A sign and digits between blanks read as the signed value. */
  lemma ParseSigned(left: nat, sign: seq<char>, digits: seq<char>, right: nat, base: nat, num: int)
    requires SignFor(sign, num) && IsSign(sign) && digits != [] && AllDigits(digits, base)
    ensures Parse(Repeat(' ', left) + (sign + digits) + Repeat(' ', right), base)
            == Some(Signed(num, Value(digits, base)))
  {
    assert DigitVal(digits[0]) >= 0 && DigitVal(digits[|digits| - 1]) >= 0;
    TrimBoth(left, sign + digits, right);
    ParseSignAndDigits(sign, digits, base, num);
  }

  /** Blanks between the sign and the digits cannot be read. */
  lemma ParseDetached(sign: char, gap: nat, digits: seq<char>, base: nat)
    requires 2 <= base <= 16 && (sign == '-' || sign == '+') && gap > 0
    requires digits != [] && AllDigits(digits, base)
    ensures Parse([sign] + Repeat(' ', gap) + digits, base) == None
  {
    var x := [sign] + Repeat(' ', gap) + digits;
    assert DigitVal(digits[|digits| - 1]) >= 0 && x[|x| - 1] == digits[|digits| - 1];
    TrimBoth(0, x, 0);
    assert Repeat(' ', 0) + x + Repeat(' ', 0) == x;
    assert x[1..][0] == ' ';
  }

  // ---------------------------------------------------------------------------
  // Signed fields
  // ---------------------------------------------------------------------------

  function SignText(s: Spec, num: int): seq<char> {
    if num < 0 then "-"
    else if s.fillz then (if s.space then " " else if s.plus then "+" else "")
    else if s.plus then "+" else if s.space then " " else ""
  }

  /** The number the conversion works on: an int, or a short taken from it. */
  function Converted(s: Spec, n: int64): int {
    if s.half then Short(n) else n
  }

  /** `%h` takes the one 16-bit value that agrees with the argument modulo 2^16. */
  lemma HalfArgument(n: int, short: int, word: int)
    requires -0x8000 <= short < 0x8000 && 0 <= word < 0x1_0000
    ensures short == Short(n) <==> (n - short) % 0x1_0000 == 0
    ensures word == UShort(n) <==> (n - word) % 0x1_0000 == 0
  {
  }

  /** The digits of a signed conversion, precision included. */
  function SignedDigits(s: Spec, n: int64): seq<char> {
    Text(Word(Magnitude(Converted(s, n))), 10, false, s.prec)
  }

  /** What is printed of a number once `itoa` has run. */
  lemma PaddedNumber(p: Pending, ljust: bool)
    requires p.prec == X_INF && |p.text| <= 2 * SCRATCH
    ensures var pad := if p.width > |p.text| then p.width - |p.text| else 0;
            Padded(p, ljust) == if ljust then p.text + Repeat(' ', pad)
                                else Repeat(if p.fillz then '0' else ' ', pad) + p.text
  {
    assert p.text[..|p.text|] == p.text;
  }

  function Blank(n: int): nat {
    if n > 0 then n else 0
  }

  /** Sign stored at once, digits in the scratch array. */
  lemma FieldAfterSign(p: Pending, ljust: bool, sign: seq<char>, width: int)
    requires p.prec == X_INF && |p.text| <= 2 * SCRATCH && p.stored == sign && |sign| <= 1
    requires p.width == if sign != [] && width > 0 then width - 1 else width
    ensures var pad := Blank(width - |sign| - |p.text|);
            Field(p, ljust) == if ljust then sign + p.text + Repeat(' ', pad)
                               else sign + Repeat(if p.fillz then '0' else ' ', pad) + p.text
  {
    PaddedNumber(p, ljust);
    var pad := Blank(width - |sign| - |p.text|);
    var fill := Repeat(if p.fillz then '0' else ' ', pad);
    assert sign + (p.text + Repeat(' ', pad)) == sign + p.text + Repeat(' ', pad);
    assert sign + (fill + p.text) == sign + fill + p.text;
  }

  /** Everything in the scratch array. */
  lemma FieldInScratch(p: Pending, ljust: bool)
    requires p.prec == X_INF && |p.text| <= 2 * SCRATCH && p.stored == []
    ensures var pad := Blank(p.width - |p.text|);
            Field(p, ljust) == if ljust then p.text + Repeat(' ', pad)
                               else Repeat(if p.fillz then '0' else ' ', pad) + p.text
  {
    PaddedNumber(p, ljust);
    assert [] + Padded(p, ljust) == Padded(p, ljust);
  }

  lemma SignedPending(s: Spec, n: int64, p: Pending)
    requires ConvertNumber(s, 'd', n) == Some(p)
    ensures var sign, digits := SignText(s, Converted(s, n)), SignedDigits(s, n);
            && p.prec == X_INF && |p.text| <= 2 * SCRATCH && |sign| <= 1
            && (s.fillz ==>
                  p.stored == sign && p.text == digits && p.fillz == (s.prec == 0)
                  && p.width == (if sign != [] && s.width > 0 then s.width - 1 else s.width))
            && (!s.fillz ==> p.stored == [] && p.text == sign + digits && !p.fillz && p.width == s.width)
  {
    var digits := SignedDigits(s, n);
    assert [] + digits == digits;
  }

  /**
   The exact layout of a signed field. With zero-fill the sign comes first; the padding that
   follows it is zeros without a precision and blanks with one.
   */
  ghost predicate SignedForm(s: Spec, t: seq<char>, sign: seq<char>, digits: seq<char>) {
    var pad := Blank(s.width - |sign| - |digits|);
    t == if s.ljust then sign + digits + Repeat(' ', pad)
         else if s.fillz then sign + Repeat(if s.prec == 0 then '0' else ' ', pad) + digits
         else Repeat(' ', pad) + (sign + digits)
  }

  lemma PendingForm(s: Spec, p: Pending, sign: seq<char>, digits: seq<char>)
    requires p.prec == X_INF && |p.text| <= 2 * SCRATCH && |sign| <= 1
    requires s.fillz ==>
               p.stored == sign && p.text == digits && p.fillz == (s.prec == 0)
               && p.width == (if sign != [] && s.width > 0 then s.width - 1 else s.width)
    requires !s.fillz ==> p.stored == [] && p.text == sign + digits && !p.fillz && p.width == s.width
    ensures SignedForm(s, Field(p, s.ljust), sign, digits)
  {
    if s.fillz {
      FieldAfterSign(p, s.ljust, sign, s.width);
    } else {
      FieldInScratch(p, s.ljust);
    }
  }

  lemma SignedLayout(s: Spec, n: int64, p: Pending)
    requires ConvertNumber(s, 'd', n) == Some(p)
    ensures SignedForm(s, Field(p, s.ljust), SignText(s, Converted(s, n)), SignedDigits(s, n))
  {
    SignedPending(s, n, p);
    PendingForm(s, p, SignText(s, Converted(s, n)), SignedDigits(s, n));
  }

  /** Blanks separate the sign from the digits. */
  predicate SignDetached(s: Spec, n: int64) {
    && s.fillz && s.prec != 0 && !s.ljust && s.width > |SignText(s, Converted(s, n))| + |SignedDigits(s, n)|
    && (Converted(s, n) < 0 || (s.plus && !s.space))
  }

  /** The field is as wide as asked for, and wider only if the number is. */
  lemma SignedLength(s: Spec, n: int64, p: Pending)
    requires ConvertNumber(s, 'd', n) == Some(p)
    ensures |Field(p, s.ljust)| == Max(s.width, |SignText(s, Converted(s, n))| + |SignedDigits(s, n)|)
  {
    SignedLayout(s, n, p);
  }

  lemma BlankSign(left: nat, digits: seq<char>, right: nat)
    ensures Repeat(' ', left) + ([' '] + digits) + Repeat(' ', right)
            == Repeat(' ', left + 1) + ([] + digits) + Repeat(' ', right)
  {
    assert [] + digits == digits;
    assert Repeat(' ', left) + ([' '] + digits) == Repeat(' ', left + 1) + digits;
  }

  lemma ParseBlankSign(left: nat, sign: seq<char>, digits: seq<char>, right: nat, num: int)
    requires SignFor(sign, num) && !IsSign(sign) && digits != [] && AllDigits(digits, 10)
    ensures Parse(Repeat(' ', left) + (sign + digits) + Repeat(' ', right), 10)
            == Some(Signed(num, Value(digits, 10)))
  {
    assert sign == [' '];
    BlankSign(left, digits, right);
    ParseSigned(left + 1, [], digits, right, 10, num);
  }

  /** Blanks, sign, digits, blanks, where the sign may itself be a blank. */
  lemma ParseAround(left: nat, sign: seq<char>, digits: seq<char>, right: nat, num: int)
    requires SignFor(sign, num) && digits != [] && AllDigits(digits, 10)
    ensures Parse(Repeat(' ', left) + (sign + digits) + Repeat(' ', right), 10)
            == Some(Signed(num, Value(digits, 10)))
  {
    if IsSign(sign) {
      ParseSigned(left, sign, digits, right, 10, num);
    } else {
      ParseBlankSign(left, sign, digits, right, num);
    }
  }

  lemma ParseLeftJustified(sign: seq<char>, digits: seq<char>, right: nat, num: int)
    requires SignFor(sign, num) && digits != [] && AllDigits(digits, 10)
    ensures Parse(sign + digits + Repeat(' ', right), 10) == Some(Signed(num, Value(digits, 10)))
  {
    assert Repeat(' ', 0) + (sign + digits) == sign + digits;
    ParseAround(0, sign, digits, right, num);
  }

  lemma ParseRightJustified(left: nat, sign: seq<char>, digits: seq<char>, num: int)
    requires SignFor(sign, num) && digits != [] && AllDigits(digits, 10)
    ensures Parse(Repeat(' ', left) + (sign + digits), 10) == Some(Signed(num, Value(digits, 10)))
  {
    var t := Repeat(' ', left) + (sign + digits);
    assert t + Repeat(' ', 0) == t;
    ParseAround(left, sign, digits, 0, num);
  }

  lemma AllDigitsAfterZeros(zeros: nat, digits: seq<char>, base: nat)
    requires AllDigits(digits, base) && base > 0
    ensures AllDigits(Repeat('0', zeros) + digits, base)
  {
  }

  lemma JoinRight(a: seq<char>, b: seq<char>, c: seq<char>)
    ensures a + b + c == Repeat(' ', 0) + (a + (b + c))
  {
  }

  lemma ParseZeroFilled(sign: seq<char>, zeros: nat, digits: seq<char>, num: int)
    requires SignFor(sign, num) && digits != [] && AllDigits(digits, 10)
    ensures Parse(sign + Repeat('0', zeros) + digits, 10) == Some(Signed(num, Value(digits, 10)))
  {
    LeadingZeros(zeros, digits, 10);
    AllDigitsAfterZeros(zeros, digits, 10);
    JoinRight(sign, Repeat('0', zeros), digits);
    ParseRightJustified(0, sign, Repeat('0', zeros) + digits, num);
  }

  lemma BlankFilledForm(sign: seq<char>, gap: nat, digits: seq<char>)
    requires gap == 0 || sign == [] || (|sign| == 1 && sign[0] == ' ')
    ensures sign + Repeat(' ', gap) + digits == Repeat(' ', gap) + (sign + digits)
  {
    if sign != [] && gap > 0 {
      assert sign == [' '];
      RepeatFront(' ', gap);
      assert sign + Repeat(' ', gap) == Repeat(' ', gap) + [' '];
      assert Repeat(' ', gap) + [' '] + digits == Repeat(' ', gap) + ([' '] + digits);
    }
  }

  lemma ParseBlankFilled(sign: seq<char>, gap: nat, digits: seq<char>, num: int)
    requires SignFor(sign, num) && digits != [] && AllDigits(digits, 10)
    ensures Parse(sign + Repeat(' ', gap) + digits, 10)
            == if gap > 0 && sign != [] && sign[0] != ' ' then None else Some(Signed(num, Value(digits, 10)))
  {
    if gap > 0 && sign != [] && sign[0] != ' ' {
      assert sign == [sign[0]];
      ParseDetached(sign[0], gap, digits, 10);
    } else {
      BlankFilledForm(sign, gap, digits);
      ParseRightJustified(gap, sign, digits, num);
    }
  }

  lemma FormReads(s: Spec, t: seq<char>, sign: seq<char>, digits: seq<char>, num: int)
    requires SignedForm(s, t, sign, digits) && SignFor(sign, num)
    requires digits != [] && AllDigits(digits, 10)
    ensures Parse(t, 10)
            == if s.fillz && s.prec != 0 && !s.ljust && s.width > |sign| + |digits| && sign != [] && sign[0] != ' '
               then None else Some(Signed(num, Value(digits, 10)))
  {
    var pad := Blank(s.width - |sign| - |digits|);
    if s.ljust {
      ParseLeftJustified(sign, digits, pad, num);
    } else if !s.fillz {
      ParseRightJustified(pad, sign, digits, num);
    } else if s.prec == 0 {
      ParseZeroFilled(sign, pad, digits, num);
    } else {
      ParseBlankFilled(sign, pad, digits, num);
    }
  }

  lemma SignedReads(s: Spec, n: int64, p: Pending)
    requires ConvertNumber(s, 'd', n) == Some(p)
    ensures var num := Converted(s, n);
            Parse(Field(p, s.ljust), 10)
            == if SignDetached(s, n) then None else Some(Signed(num, Word(Magnitude(num))))
  {
    var num := Converted(s, n);
    var digits := SignedDigits(s, n);
    SignedLayout(s, n, p);
    TextReadsBack(Word(Magnitude(num)), 10, false, s.prec);
    WordFits(Word(Magnitude(num)), 10, false);
    FormReads(s, Field(p, s.ljust), SignText(s, num), digits, num);
  }

  lemma WordKeeps(num: int)
    ensures Signed(num, Word(Magnitude(num))) == num <==> Magnitude(num) < 0x1_0000_0000
  {
  }

  /**
   Reading a signed field back gives the argument if and only if its magnitude fits 32 bits and
   the field does not put blanks between sign and digits; in that last case nothing is read.
   Without a precision, in particular, every int survives every mix of flags and width.
   */
  lemma SignedRoundTrip(s: Spec, n: int64, p: Pending)
    requires ConvertNumber(s, 'd', n) == Some(p)
    ensures var parsed := Parse(Field(p, s.ljust), 10);
            var num := Converted(s, n);
            && (parsed == None <==> SignDetached(s, n))
            && (parsed == Some(num) <==> !SignDetached(s, n) && Magnitude(num) < 0x1_0000_0000)
  {
    SignedReads(s, n, p);
    WordKeeps(Converted(s, n));
  }

  /** `i` is `d`. */
  lemma LettersForSigned(s: Spec, n: int64)
    ensures ConvertNumber(s, 'i', n) == ConvertNumber(s, 'd', n)
  {
  }

  /** The scratch array decides which signed conversions the source can take. */
  lemma SignedAllowed(s: Spec, n: int64)
    ensures ConvertNumber(s, 'd', n).Some?
            <==> (s.half || n != -0x8000_0000_0000_0000)
                 && s.prec < SCRATCH && (s.fillz || |SignText(s, Converted(s, n))| + s.prec < SCRATCH)
  {
    WordFits(Word(Magnitude(Converted(s, n))), 10, false);
    TextReadsBack(Word(Magnitude(Converted(s, n))), 10, false, s.prec);
  }

  // ---------------------------------------------------------------------------
  // Unsigned fields and strings
  // ---------------------------------------------------------------------------

  function BaseOf(letter: char): nat
    requires IsNumeric(letter) && !IsSigned(letter)
  {
    if letter == 'u' then 10 else if letter == 'o' || letter == 'O' then 8 else 16
  }

  function UnsignedArgument(s: Spec, n: int64): int {
    if s.half then UShort(n) else n
  }

  function UnsignedDigits(s: Spec, letter: char, n: int64): seq<char>
    requires IsNumeric(letter) && !IsSigned(letter)
  {
    Text(Word(UnsignedArgument(s, n)), BaseOf(letter), letter == 'X', s.prec)
  }

  lemma BlankSides(t: seq<char>, pad: nat)
    ensures t + Repeat(' ', pad) == Repeat(' ', 0) + ([] + t) + Repeat(' ', pad)
    ensures Repeat(' ', pad) + t == Repeat(' ', pad) + ([] + t) + Repeat(' ', 0)
  {
    assert [] + t == t;
  }

  lemma ParsePlain(digits: seq<char>, pad: nat, base: nat)
    requires digits != [] && AllDigits(digits, base)
    ensures Parse(digits + Repeat(' ', pad), base) == Some(Value(digits, base))
    ensures Parse(Repeat(' ', pad) + digits, base) == Some(Value(digits, base))
  {
    BlankSides(digits, pad);
    ParseSigned(0, [], digits, pad, base, 0);
    ParseSigned(pad, [], digits, 0, base, 0);
  }

  lemma ParsePlainZeroFilled(digits: seq<char>, zeros: nat, base: nat)
    requires base > 0 && digits != [] && AllDigits(digits, base)
    ensures Parse(Repeat('0', zeros) + digits, base) == Some(Value(digits, base))
  {
    var all := Repeat('0', zeros) + digits;
    LeadingZeros(zeros, digits, base);
    AllDigitsAfterZeros(zeros, digits, base);
    assert Repeat(' ', 0) + all == all;
    ParsePlain(all, 0, base);
  }

  lemma ParsePlainField(p: Pending, ljust: bool, base: nat)
    requires p.prec == X_INF && 0 < |p.text| <= 2 * SCRATCH && p.stored == [] && base > 0 && AllDigits(p.text, base)
    ensures |Field(p, ljust)| == Max(p.width, |p.text|)
    ensures Parse(Field(p, ljust), base) == Some(Value(p.text, base))
  {
    FieldInScratch(p, ljust);
    var pad := Blank(p.width - |p.text|);
    if !ljust && p.fillz {
      ParsePlainZeroFilled(p.text, pad, base);
    } else {
      ParsePlain(p.text, pad, base);
    }
  }

  lemma UnsignedPending(s: Spec, letter: char, n: int64, p: Pending)
    requires IsNumeric(letter) && !IsSigned(letter) && (!s.altform || letter == 'u' || letter == 'p')
    requires ConvertNumber(s, letter, n) == Some(p)
    ensures p.stored == [] && p.prec == X_INF && p.width == s.width && |p.text| <= 2 * SCRATCH
    ensures p.text == UnsignedDigits(s, letter, n)
  {
    NothingAdded(UnsignedDigits(s, letter, n));
  }

  /** Unsigned letters without the alternative form print the low 32 bits of the argument. */
  lemma UnsignedRoundTrip(s: Spec, letter: char, n: int64, p: Pending)
    requires IsNumeric(letter) && !IsSigned(letter) && (!s.altform || letter == 'u' || letter == 'p')
    requires ConvertNumber(s, letter, n) == Some(p)
    ensures var t := Field(p, s.ljust);
            && |t| == Max(s.width, |UnsignedDigits(s, letter, n)|)
            && Parse(t, BaseOf(letter)) == Some(Word(UnsignedArgument(s, n)))
  {
    WordFits(Word(UnsignedArgument(s, n)), BaseOf(letter), letter == 'X');
    TextReadsBack(Word(UnsignedArgument(s, n)), BaseOf(letter), letter == 'X', s.prec);
    UnsignedPending(s, letter, n, p);
    ParsePlainField(p, s.ljust, BaseOf(letter));
  }

  /** What a precision keeps of a string; 0 means nearly everything. */
  function Kept(text: seq<char>, prec: int): seq<char> {
    var limit := if prec == 0 then 0x7fff_fff0 else prec;
    if limit >= |text| then text else if limit > 0 then text[..limit] else []
  }

  /** How much padding a string gets: a negative precision widens it by as much. */
  function StringPad(text: seq<char>, width: int, prec: int): nat {
    Blank(width - (if prec < 0 then prec else |Kept(text, prec)|))
  }

  /**
   A string field: a positive precision keeps that many characters, precision 0 keeps them all,
   and a negative one keeps none but widens the padding by as much.
   */
  lemma StringField(s: Spec, text: CString, p: Pending)
    requires ConvertString(s, text) == Some(p)
    ensures var kept, pad := Kept(text, s.prec), StringPad(text, s.width, s.prec);
            Field(p, s.ljust) == if s.ljust then kept + Repeat(' ', pad)
                                 else Repeat(if s.fillz then '0' else ' ', pad) + kept
  {
    var plen := PrintedLength(p);
    assert text[..|text|] == text && text[..0] == [];
    assert p.text[..Max(plen, 0)] == Kept(text, s.prec);
    assert Max(p.width, plen) - plen == StringPad(text, s.width, s.prec);
    NothingAdded(Padded(p, s.ljust));
  }

  /** What `#` puts before a number, and by how much it raises the precision. */
  function AltPrefix(letter: char): CString
    requires letter in "xXoO"
  {
    if letter == 'o' || letter == 'O' then "0" else ['0', letter]
  }

  /** The digits of the alternative form: its prefix raises the precision. */
  function AltDigits(s: Spec, letter: char, n: int64): seq<char>
    requires letter in "xXoO"
  {
    Text(Word(UnsignedArgument(s, n)), BaseOf(letter), letter == 'X', s.prec + |AltPrefix(letter)|)
  }

  lemma AltPending(s: Spec, letter: char, n: int64, p: Pending)
    requires letter in "xXoO" && s.altform && ConvertNumber(s, letter, n) == Some(p)
    ensures p.stored == [] && p.prec == X_INF && p.width == s.width && |p.text| <= 2 * SCRATCH
    ensures p.text == AltPrefix(letter) + AltDigits(s, letter, n)
    ensures p.fillz <==> s.fillz && s.prec + |AltPrefix(letter)| == 0
  {
  }

  /** The digits read as the low 32 bits and number at least the precision plus the prefix. */
  lemma AlternativeDigits(s: Spec, letter: char, n: int64)
    requires letter in "xXoO"
    ensures var digits := AltDigits(s, letter, n);
            var num := Word(UnsignedArgument(s, n));
            && Value(digits, BaseOf(letter)) == num && AllDigits(digits, BaseOf(letter))
            && |digits| == Max(s.prec + |AltPrefix(letter)|, |Plain(num, BaseOf(letter), letter == 'X')|)
  {
    TextReadsBack(Word(UnsignedArgument(s, n)), BaseOf(letter), letter == 'X', s.prec + |AltPrefix(letter)|);
  }

  /** The alternative form prints a prefix and the digits; zeros fill it only if the raised precision is 0. */
  lemma AlternativeForm(s: Spec, letter: char, n: int64, p: Pending)
    requires letter in "xXoO" && s.altform && ConvertNumber(s, letter, n) == Some(p)
    ensures var text := AltPrefix(letter) + AltDigits(s, letter, n);
            var pad := Blank(s.width - |text|);
            Field(p, s.ljust)
            == if s.ljust then text + Repeat(' ', pad)
               else Repeat(if s.fillz && s.prec + |AltPrefix(letter)| == 0 then '0' else ' ', pad) + text
  {
    AltPending(s, letter, n, p);
    FieldInScratch(p, s.ljust);
  }

  /** A field that asks for no width is not padded. */
  lemma NarrowField(p: Pending, ljust: bool)
    requires p.width <= 0 <= PrintedLength(p)
    ensures Field(p, ljust) == p.stored + p.text[..PrintedLength(p)]
  {
    NothingAdded(p.text[..PrintedLength(p)]);
  }

  /** A field of a text with no precision to cut it. */
  lemma WholeField(p: Pending, ljust: bool)
    requires p.stored == [] && p.prec >= |p.text|
    ensures var pad := Blank(p.width - |p.text|);
            Field(p, ljust) == if ljust then p.text + Repeat(' ', pad)
                               else Repeat(if p.fillz then '0' else ' ', pad) + p.text
  {
    assert p.text[..|p.text|] == p.text;
    NothingAdded(Padded(p, ljust));
  }
}
