/**
 Theorems about formats that start with a directive: what it prints, for every directive of the
 conventional grammar and every argument list.
 */
module DirectiveTheorems {
  import opened Words
  import opened Numerals
  import opened FormatSpec
  import opened FieldTheorems
  import opened FormatTheorems

  /** Text and arguments left, once widths and precisions are known. */
  function Print(s: Spec, letter: char, args: seq<Arg>): Option<(seq<char>, seq<Arg>)> {
    if !IsKnown(letter) then Some(([letter], args))
    else
      match Convert(s, letter, args)
      case None => None
      case Some((p, rest)) => Some((Field(p, s.ljust), rest))
  }

  /** Fetches what the stars stand for, then prints. */
  function FetchAndPrint(s: Spec, letter: char, args: seq<Arg>): Option<(seq<char>, seq<Arg>)> {
    match FetchStar(s.width, args)
    case None => None
    case Some((width, args1)) =>
      match FetchStar(s.prec, args1)
      case None => None
      case Some((prec, args2)) => Print(s.(width := width, prec := prec), letter, args2)
  }

  function PrintThen(s: Spec, letter: char, more: CString, args: seq<Arg>): Option<seq<char>> {
    match FetchAndPrint(s, letter, args)
    case None => None
    case Some((text, rest)) =>
      match Render(more, rest)
      case None => None
      case Some(tail) => Some(text + tail)
  }

  lemma ConversionPrints(fmt: CString, i: nat, s: Spec, letter: char, next: nat, args: seq<Arg>)
    requires i <= |fmt| && Scan(fmt, i, BLANK) == Scanned(s, letter, next) && letter != '\0'
    ensures match FetchAndPrint(s, letter, args)
            case None => Conversion(fmt, i, args) == None
            case Some((text, rest)) => Conversion(fmt, i, args) == Some(Step(text, next, rest))
  {
  }

  /** A directive prints the field its meaning gives, and what follows it prints itself. */
  lemma RenderDirective(fmt: CString, d: Directive, s: Spec, more: CString, args: seq<Arg>)
    requires WellFormedDirective(d) && s == Meaning(d) && fmt == ['%'] + Show(d) + more
    ensures Render(fmt, args) == PrintThen(s, d.letter, more, args)
  {
    var front: CString := ['%'] + Show(d);
    assert fmt[1..1 + |Show(d)|] == Show(d);
    ScanReadsDirective(fmt, 1, d);
    ConversionPrints(fmt, 1, s, d.letter, |front|, args);
    match FetchAndPrint(s, d.letter, args)
    case None =>
    case Some((text, rest)) =>
      assert fmt == Join(front, more);
      RenderShifts(front, more, 0, rest);
      if Render(more, rest).Some? {
        RenderConversion(fmt, 0, args, Step(text, |front|, rest), Render(more, rest).value);
      }
  }

  // ---------------------------------------------------------------------------
  // Directives without stars, alone
  // ---------------------------------------------------------------------------

  predicate Starless(d: Directive) {
    d.width.Fixed? && (d.prec.Some? ==> d.prec.value.Fixed?)
  }

  lemma NothingToFetch(s: Spec, letter: char, args: seq<Arg>)
    requires s.width != -1 && s.prec != -1
    ensures FetchAndPrint(s, letter, args) == Print(s, letter, args)
  {
    assert s.(width := s.width, prec := s.prec) == s;
  }

  lemma RenderNoMore(text: seq<char>)
    ensures Render([], []) == Some([]) && text + [] == text
  {
  }

  lemma RenderAlone(fmt: CString, d: Directive, s: Spec, args: seq<Arg>, text: seq<char>)
    requires WellFormedDirective(d) && Starless(d) && s == Meaning(d) && fmt == ['%'] + Show(d)
    requires Print(s, d.letter, args) == Some((text, []))
    ensures Render(fmt, args) == Some(text)
  {
    NothingToFetch(s, d.letter, args);
    NothingAdded(fmt);
    RenderNoMore(text);
    RenderDirective(fmt, d, s, [], args);
  }

  predicate IsArgument(s: Spec, arg: Arg, n: int64) {
    if s.tlong == 0 then arg.Int? && arg.n == n else arg.Long? && arg.l == n
  }

  lemma ConvertSigned(s: Spec, letter: char, arg: Arg, n: int64, p: Pending)
    requires IsSigned(letter) && IsArgument(s, arg, n) && ConvertNumber(s, 'd', n) == Some(p)
    ensures Convert(s, letter, [arg]) == Some((p, []))
  {
    LettersForSigned(s, n);
    assert [arg][1..] == [];
  }

  /** An int or a long printed with `d` or `i`. */
  lemma RenderSigned(fmt: CString, d: Directive, s: Spec, arg: Arg, n: int64, p: Pending)
    requires WellFormedDirective(d) && Starless(d) && s == Meaning(d) && fmt == ['%'] + Show(d) && IsSigned(d.letter)
    requires IsArgument(s, arg, n) && ConvertNumber(s, 'd', n) == Some(p)
    ensures Render(fmt, [arg]) == Some(Field(p, s.ljust))
  {
    ConvertSigned(s, d.letter, arg, n, p);
    RenderAlone(fmt, d, s, [arg], Field(p, s.ljust));
  }

  /** Any flags and width, no precision, letter d or i. */
  predicate IsPlainInt(d: Directive) {
    WellFormedDirective(d) && d.width.Fixed? && d.prec == None && d.length == NoLength && IsSigned(d.letter)
  }

  lemma PlainIntAllowed(s: Spec, n: int32)
    requires s.prec == 0 && !s.half
    ensures ConvertNumber(s, 'd', n).Some?
  {
    SignedAllowed(s, n);
  }

  lemma PlainIntReads(s: Spec, n: int32, p: Pending)
    requires s.prec == 0 && !s.half && ConvertNumber(s, 'd', n) == Some(p)
    ensures Parse(Field(p, s.ljust), 10) == Some(n)
  {
    SignedRoundTrip(s, n, p);
    assert !SignDetached(s, n) && Converted(s, n) == n;
  }

  lemma PlainIntDigits(s: Spec, n: int32)
    requires s.prec == 0 && !s.half
    ensures |SignedDigits(s, n)| == |Plain(Magnitude(n), 10, false)|
  {
    assert Word(Magnitude(n)) == Magnitude(n);
    WordFits(Magnitude(n), 10, false);
    TextReadsBack(Magnitude(n), 10, false, 0);
  }

  lemma PlainIntWidth(s: Spec, n: int32, p: Pending)
    requires s.prec == 0 && !s.half && ConvertNumber(s, 'd', n) == Some(p)
    ensures |Field(p, s.ljust)| == Max(s.width, |SignText(s, n)| + |Plain(Magnitude(n), 10, false)|)
  {
    SignedLength(s, n, p);
    PlainIntDigits(s, n);
  }

  /**
   Printing any int with any flags and width gives a field that is as wide as asked, or as the
   signed number if that is wider, and that reads back as the int.
   */
  lemma PrintedIntReadsBack(fmt: CString, d: Directive, n: int32)
    requires IsPlainInt(d) && fmt == ['%'] + Show(d)
    ensures var r := Render(fmt, [Int(n)]);
            && r.Some? && Parse(r.value, 10) == Some(n)
            && |r.value| == Max(d.width.n, |SignText(Meaning(d), n)| + |Plain(Magnitude(n), 10, false)|)
  {
    PlainIntAllowed(Meaning(d), n);
    var p := ConvertNumber(Meaning(d), 'd', n).value;
    RenderSigned(fmt, d, Meaning(d), Int(n), n, p);
    PlainIntReads(Meaning(d), n, p);
    PlainIntWidth(Meaning(d), n, p);
  }

  // ---------------------------------------------------------------------------
  // Where a number does not read back
  // ---------------------------------------------------------------------------

  lemma OneDigit(n: nat, prec: int)
    requires n < 10 && prec <= 1
    ensures Plain(n, 10, false) == Text(n, 10, false, prec) == [DigitChar(n, false)]
  {
    if n > 0 {
      assert Digits(n, 10, false) == Digits(0, 10, false) + [DigitChar(n, false)];
    }
    NothingAdded([DigitChar(n, false)]);
  }

  lemma DetachedForm(s: Spec, t: seq<char>, sign: seq<char>, digits: seq<char>)
    requires s == Spec(6, false, true, false, false, 1, false, 0, true)
    requires SignedForm(s, t, sign, digits) && sign == "+" && digits == "3"
    ensures t == "+    3"
  {
    assert Repeat(' ', 4) == "    ";
  }

  lemma DetachedDigits(s: Spec)
    requires s == Spec(6, false, true, false, false, 1, false, 0, true)
    ensures SignText(s, Converted(s, 3)) == "+" && SignedDigits(s, 3) == "3"
  {
    assert Word(Magnitude(3)) == 3;
    OneDigit(3, 1);
  }

  lemma DetachedField(s: Spec) returns (p: Pending)
    requires s == Spec(6, false, true, false, false, 1, false, 0, true)
    ensures ConvertNumber(s, 'd', 3) == Some(p) && Field(p, s.ljust) == "+    3"
  {
    SignedAllowed(s, 3);
    p := ConvertNumber(s, 'd', 3).value;
    SignedLayout(s, 3, p);
    DetachedDigits(s);
    DetachedForm(s, Field(p, s.ljust), SignText(s, Converted(s, 3)), SignedDigits(s, 3));
  }

  lemma DetachedDirective(d: Directive, s: Spec)
    requires d == Directive("+0", Fixed(6), Some(Fixed(1)), NoLength, 'd')
    requires s == Spec(6, false, true, false, false, 1, false, 0, true)
    ensures WellFormedDirective(d) && Show(d) == "+06.1d" && Meaning(d) == s
  {
    OneDigit(6, 0);
    OneDigit(1, 0);
  }

  lemma DetachedUnread()
    ensures Parse("+    3", 10) == None
  {
    ParseDetached('+', 4, "3", 10);
    assert ['+'] + Repeat(' ', 4) + "3" == "+    3";
  }

  /** Zero-fill, a sign and a precision at once put blanks between the sign and the digits. */
  lemma DetachedExample(fmt: CString)
    requires fmt == "%+06.1d"
    ensures Render(fmt, [Int(3)]) == Some("+    3") && Parse("+    3", 10) == None
  {
    var d := Directive("+0", Fixed(6), Some(Fixed(1)), NoLength, 'd');
    var s := Spec(6, false, true, false, false, 1, false, 0, true);
    DetachedDirective(d, s);
    var p := DetachedField(s);
    RenderSigned(fmt, d, s, Int(3), 3, p);
    DetachedUnread();
  }

  lemma LongForm(s: Spec, t: seq<char>, sign: seq<char>, digits: seq<char>)
    requires s == Spec(0, false, false, false, false, 0, false, 1, false)
    requires SignedForm(s, t, sign, digits) && sign == [] && digits == "0"
    ensures t == "0"
  {
    NothingAdded(digits);
  }

  lemma LongDigits(s: Spec, n: int64)
    requires s == Spec(0, false, false, false, false, 0, false, 1, false) && n == 0x1_0000_0000
    ensures SignText(s, Converted(s, n)) == [] && SignedDigits(s, n) == "0"
  {
    assert Word(Magnitude(n)) == 0;
    OneDigit(0, 0);
  }

  lemma LongField(s: Spec, n: int64) returns (p: Pending)
    requires s == Spec(0, false, false, false, false, 0, false, 1, false) && n == 0x1_0000_0000
    ensures ConvertNumber(s, 'd', n) == Some(p) && Field(p, s.ljust) == "0"
  {
    SignedAllowed(s, n);
    p := ConvertNumber(s, 'd', n).value;
    SignedLayout(s, n, p);
    LongDigits(s, n);
    LongForm(s, Field(p, s.ljust), SignText(s, Converted(s, n)), SignedDigits(s, n));
  }

  lemma LongDirective(d: Directive, s: Spec)
    requires d == Directive([], Fixed(0), None, L, 'd')
    requires s == Spec(0, false, false, false, false, 0, false, 1, false)
    ensures WellFormedDirective(d) && Starless(d) && Show(d) == "ld" && Meaning(d) == s
  {
  }

  /** A 64-bit argument loses its upper half. */
  lemma LongExample(fmt: CString)
    requires fmt == "%ld"
    ensures Render(fmt, [Long(0x1_0000_0000)]) == Some("0")
  {
    var d := Directive([], Fixed(0), None, L, 'd');
    var s := Spec(0, false, false, false, false, 0, false, 1, false);
    var n: int64 := 0x1_0000_0000;
    LongDirective(d, s);
    var p := LongField(s, n);
    RenderSigned(fmt, d, s, Long(n), n, p);
  }

  // ---------------------------------------------------------------------------
  // Widths and precisions from arguments
  // ---------------------------------------------------------------------------

  /** `fmt` starts with the directive. */
  predicate StartsWith(fmt: CString, d: Directive, more: CString) {
    WellFormedDirective(d) && fmt == ['%'] + Show(d) + more
  }

  lemma FetchFirst(n: int32, args: seq<Arg>)
    ensures FetchStar(-1, [Int(n)] + args) == Some((n as int, args))
  {
  }

  lemma StarWidthFetches(s: Spec, w: int32, letter: char, args: seq<Arg>)
    requires s.width == w && w >= 0
    ensures FetchAndPrint(s.(width := -1), letter, [Int(w)] + args) == FetchAndPrint(s, letter, args)
  {
    FetchFirst(w, args);
    if FetchStar(s.prec, args).Some? {
      var prec := FetchStar(s.prec, args).value.0;
      assert s.(width := -1).(width := w, prec := prec) == s.(width := w, prec := prec);
    }
  }

  /** A width of 0 or more from an argument is that width written out. */
  lemma StarMeansWidth(f: CString, g: CString, d: Directive, more: CString, w: int32, args: seq<Arg>)
    requires d.width.Star? && w >= 0
    requires StartsWith(f, d, more) && StartsWith(g, d.(width := Fixed(w)), more)
    ensures Render(f, [Int(w)] + args) == Render(g, args)
  {
    var d' := d.(width := Fixed(w));
    assert Meaning(d) == Meaning(d').(width := -1);
    StarWidthFetches(Meaning(d'), w, d.letter, args);
    RenderDirective(f, d, Meaning(d), more, [Int(w)] + args);
    RenderDirective(g, d', Meaning(d'), more, args);
  }

  lemma NarrowNumber(s: Spec, w: int, letter: char, n: int64)
    requires IsNumeric(letter) && s.width == 0 && w <= 0
    ensures match ConvertNumber(s, letter, n)
            case None => ConvertNumber(s.(width := w), letter, n) == None
            case Some(p) => p.width == 0 && ConvertNumber(s.(width := w), letter, n) == Some(p.(width := w))
  {
    var s' := s.(width := w);
    var nb := NumberOf(s, letter, n);
    assert NumberOf(s', letter, n) == nb.(width := w) && nb.width == 0;
  }

  /** A width of 0 or less changes nothing but the padding. */
  lemma NarrowConverts(s: Spec, w: int, letter: char, args: seq<Arg>)
    requires IsKnown(letter) && s.width == 0 && w <= 0
    ensures match Convert(s, letter, args)
            case None => Convert(s.(width := w), letter, args) == None
            case Some((p, rest)) =>
              p.width == 0 && Convert(s.(width := w), letter, args) == Some((p.(width := w), rest))
  {
    var s' := s.(width := w);
    if IsNumeric(letter) && FetchNumber(s, args).Some? {
      assert FetchNumber(s', args) == FetchNumber(s, args);
      NarrowNumber(s, w, letter, FetchNumber(s, args).value.0);
    }
  }

  lemma PrintedLengthIsThere(s: Spec, letter: char, args: seq<Arg>)
    requires IsKnown(letter) && Convert(s, letter, args).Some? && (letter == 's' ==> s.prec >= 0)
    ensures PrintedLength(Convert(s, letter, args).value.0) >= 0
  {
  }

  lemma NarrowPrints(s: Spec, w: int, letter: char, args: seq<Arg>)
    requires s.width == 0 && w <= 0 && (letter == 's' ==> s.prec >= 0)
    ensures Print(s.(width := w), letter, args) == Print(s, letter, args)
  {
    if IsKnown(letter) && Convert(s, letter, args).Some? {
      var (p, _) := Convert(s, letter, args).value;
      NarrowConverts(s, w, letter, args);
      PrintedLengthIsThere(s, letter, args);
      NarrowField(p, s.ljust);
      NarrowField(p.(width := w), s.ljust);
    } else if IsKnown(letter) {
      NarrowConverts(s, w, letter, args);
    }
  }

  /** The precision that a directive finds in front of its other arguments is not negative. */
  predicate PrecNotNegative(d: Directive, args: seq<Arg>) {
    d.prec == Some(Star) && args != [] && args[0].Int? ==> args[0].n >= 0
  }

  lemma NarrowFetches(s: Spec, w: int32, letter: char, args: seq<Arg>)
    requires s.width == 0 && w <= 0 && s.prec >= -1
    requires letter == 's' && s.prec == -1 && args != [] && args[0].Int? ==> args[0].n >= 0
    ensures FetchAndPrint(s.(width := -1), letter, [Int(w)] + args) == FetchAndPrint(s, letter, args)
  {
    FetchFirst(w, args);
    if FetchStar(s.prec, args).Some? {
      var (prec, rest) := FetchStar(s.prec, args).value;
      var full := s.(prec := prec);
      NarrowPrints(full, w, letter, rest);
      assert full.(width := w) == s.(width := -1).(width := w, prec := prec) && full == s.(width := 0, prec := prec);
    }
  }

  /**
   A width of 0 or less from an argument is no width: such a field has no padding, with or
   without `-`. Only a string cut by a negative precision could still be padded.
   */
  lemma NegativeStarWidth(f: CString, g: CString, d: Directive, more: CString, w: int32, args: seq<Arg>)
    requires d.width.Star? && w <= 0 && (d.letter == 's' ==> PrecNotNegative(d, args))
    requires StartsWith(f, d, more) && StartsWith(g, d.(width := Fixed(0)), more)
    ensures Render(f, [Int(w)] + args) == Render(g, args)
  {
    var d' := d.(width := Fixed(0));
    assert Meaning(d) == Meaning(d').(width := -1);
    NarrowFetches(Meaning(d'), w, d.letter, args);
    RenderDirective(f, d, Meaning(d), more, [Int(w)] + args);
    RenderDirective(g, d', Meaning(d'), more, args);
  }

  /** The arguments that come before the precision: one for a star in the width. */
  predicate BeforePrec(d: Directive, first: seq<Arg>) {
    if d.width.Star? then |first| == 1 && first[0].Int? else first == []
  }

  lemma FetchWidthFirst(d: Directive, first: seq<Arg>, rest: seq<Arg>) returns (w: int)
    requires BeforePrec(d, first)
    ensures FetchStar(WidthOf(d.width), first + rest) == Some((w, rest))
    ensures forall other :: FetchStar(WidthOf(d.width), first + other) == Some((w, other))
  {
    w := if d.width.Star? then first[0].n else d.width.n;
    forall other ensures FetchStar(WidthOf(d.width), first + other) == Some((w, other)) {
      assert d.width.Star? ==> (first + other)[1..] == other;
      assert d.width.Fixed? ==> first + other == other;
    }
  }

  lemma PrecFetches(d: Directive, s: Spec, w: int, n: int32, m: nat, first: seq<Arg>, args: seq<Arg>)
    requires BeforePrec(d, first) && s.width == WidthOf(d.width)
    requires Print(s.(width := w, prec := n), d.letter, args) == Print(s.(width := w, prec := m), d.letter, args)
    requires forall other :: FetchStar(s.width, first + other) == Some((w, other))
    ensures FetchAndPrint(s.(prec := -1), d.letter, first + ([Int(n)] + args))
            == FetchAndPrint(s.(prec := m), d.letter, first + args)
  {
    FetchFirst(n, args);
    assert FetchStar(s.width, first + ([Int(n)] + args)) == Some((w, [Int(n)] + args));
    assert s.(prec := -1).(width := w, prec := n) == s.(width := w, prec := n);
    assert s.(prec := m).(width := w, prec := m) == s.(width := w, prec := m);
  }

  /** A precision of 0 or more from an argument is that precision written out. */
  lemma StarMeansPrec(f: CString, g: CString, d: Directive, more: CString, first: seq<Arg>, n: int32, args: seq<Arg>)
    requires d.prec == Some(Star) && n >= 0 && BeforePrec(d, first)
    requires StartsWith(f, d, more) && StartsWith(g, d.(prec := Some(Fixed(n))), more)
    ensures Render(f, first + ([Int(n)] + args)) == Render(g, first + args)
  {
    var d' := d.(prec := Some(Fixed(n)));
    var w := FetchWidthFirst(d, first, args);
    assert Meaning(d') == Meaning(d).(prec := n) && Meaning(d) == Meaning(d).(prec := -1);
    PrecFetches(d, Meaning(d), w, n, n, first, args);
    RenderDirective(f, d, Meaning(d), more, first + ([Int(n)] + args));
    RenderDirective(g, d', Meaning(d'), more, first + args);
  }

  lemma NegativePrecText(num: nat, base: nat, caps: bool, n: int)
    requires 2 <= base <= 16 && n <= 1
    ensures Text(num, base, caps, n) == Text(num, base, caps, 1) == Plain(num, base, caps)
  {
    NothingAdded(Plain(num, base, caps));
    assert |Plain(num, base, caps)| >= 1;
  }

  lemma NegativePrecNumeral(s: Spec, n: int, letter: char, num: int64)
    requires IsNumeric(letter) && !(s.altform && letter in "xXoO")
    ensures NumberOf(s.(prec := n), letter, num) == NumberOf(s, letter, num).(prec := n)
  {
  }

  lemma NegativePrecPrinted(nb: Numeral, n: int, caps: bool, fillz: bool)
    requires 2 <= nb.base <= 16 && n < 0
    ensures PrintNumber(nb.(prec := n), caps, fillz) == PrintNumber(nb.(prec := 1), caps, fillz)
  {
    NegativePrecText(Word(nb.num), nb.base, caps, n);
  }

  lemma NegativePrecNumber(s: Spec, n: int, letter: char, num: int64)
    requires IsNumeric(letter) && n < 0 && !(s.altform && letter in "xXoO")
    ensures ConvertNumber(s.(prec := n), letter, num) == ConvertNumber(s.(prec := 1), letter, num)
  {
    NegativePrecNumeral(s, n, letter, num);
    NegativePrecNumeral(s, 1, letter, num);
    NegativePrecPrinted(NumberOf(s, letter, num), n, letter == 'X', s.fillz);
  }

  lemma NegativePrecConverts(s: Spec, n: int, letter: char, args: seq<Arg>)
    requires IsKnown(letter) && n < 0 && letter != 's' && !(s.altform && letter in "xXoO")
    ensures Convert(s.(prec := n), letter, args) == Convert(s.(prec := 1), letter, args)
  {
    assert FetchNumber(s.(prec := n), args) == FetchNumber(s, args) == FetchNumber(s.(prec := 1), args);
    if IsNumeric(letter) && FetchNumber(s, args).Some? {
      NegativePrecNumber(s, n, letter, FetchNumber(s, args).value.0);
    }
  }

  lemma NegativePrecPrints(s: Spec, n: int, letter: char, args: seq<Arg>)
    requires n < 0 && letter != 's' && !(s.altform && letter in "xXoO")
    ensures Print(s.(prec := n), letter, args) == Print(s.(prec := 1), letter, args)
  {
    if IsKnown(letter) {
      NegativePrecConverts(s, n, letter, args);
    }
  }

  /**
   A negative precision from an argument is a precision of 1, except for strings and for `#`: it
   adds no digits and cancels zero-fill.
   */
  lemma NegativeStarPrec(f: CString, g: CString, d: Directive, more: CString, first: seq<Arg>, n: int32, args: seq<Arg>)
    requires d.prec == Some(Star) && n < 0 && BeforePrec(d, first)
    requires d.letter != 's' && !('#' in d.flags && d.letter in "xXoO")
    requires StartsWith(f, d, more) && StartsWith(g, d.(prec := Some(Fixed(1))), more)
    ensures Render(f, first + ([Int(n)] + args)) == Render(g, first + args)
  {
    var d' := d.(prec := Some(Fixed(1)));
    var w := FetchWidthFirst(d, first, args);
    NegativePrecPrints(Meaning(d).(width := w), n, d.letter, args);
    assert Meaning(d') == Meaning(d).(prec := 1) && Meaning(d) == Meaning(d).(prec := -1);
    PrecFetches(d, Meaning(d), w, n, 1, first, args);
    RenderDirective(f, d, Meaning(d), more, first + ([Int(n)] + args));
    RenderDirective(g, d', Meaning(d'), more, first + args);
  }
}
