/**
 Theorems about formats: the scanner reads back the directives of the conventional grammar,
 stars included, and rendering distributes over concatenation of complete formats.
 */
module FormatTheorems {
  import opened Words
  import opened Numerals
  import opened FormatSpec

  // ---------------------------------------------------------------------------
  // The conventional grammar: %[flags][width][.precision][length]letter
  // ---------------------------------------------------------------------------

  datatype Length = NoLength | H | L | LL

  /** A number written out, or a star for one that is taken from an argument. */
  datatype Amount = Fixed(n: nat) | Star

  datatype Directive = Directive(flags: seq<char>, width: Amount, prec: Option<Amount>, length: Length, letter: char)

  predicate IsFlag(c: char) {
    c == '-' || c == '+' || c == ' ' || c == '0' || c == '#'
  }

  predicate IsScanned(c: char) {
    IsFlag(c) || IsDigit(c) || c == 'h' || c == 'l' || c == '*' || c == '.' || c == '\0'
  }

  predicate WellFormedDirective(d: Directive) {
    (forall i :: 0 <= i < |d.flags| ==> IsFlag(d.flags[i])) && !IsScanned(d.letter)
  }

  /** No width is a width of 0. */
  function ShowWidth(w: Amount): seq<char> {
    if w.Star? then ['*'] else if w.n == 0 then [] else Plain(w.n, 10, false)
  }

  function ShowPrec(p: Option<Amount>): seq<char> {
    match p
    case None => []
    case Some(Star) => ['.', '*']
    case Some(Fixed(n)) => ['.'] + Plain(n, 10, false)
  }

  function ShowLength(l: Length): seq<char> {
    match l
    case NoLength => []
    case H => ['h']
    case L => ['l']
    case LL => ['l', 'l']
  }

  /** What follows the percent sign. */
  function Show(d: Directive): seq<char> {
    d.flags + ShowWidth(d.width) + ShowPrec(d.prec) + ShowLength(d.length) + [d.letter]
  }

  function WidthOf(w: Amount): int {
    if w.Star? then -1 else w.n
  }

  function PrecOf(p: Option<Amount>): int {
    if p.None? then 0 else WidthOf(p.value)
  }

  /** What a directive means, without reference to any scanning. */
  function Meaning(d: Directive): Spec {
    Spec(WidthOf(d.width), '-' in d.flags, '+' in d.flags, ' ' in d.flags, '#' in d.flags,
         PrecOf(d.prec),
         d.length == H, if d.length == L then 1 else if d.length == LL then 2 else 0, '0' in d.flags)
  }

  // ---------------------------------------------------------------------------
  // Reading it back
  // ---------------------------------------------------------------------------

  predicate At(fmt: CString, i: nat, text: seq<char>) {
    i + |text| <= |fmt| && fmt[i..i + |text|] == text
  }

  lemma AtParts(fmt: CString, i: nat, a: seq<char>, b: seq<char>)
    requires At(fmt, i, a + b)
    ensures At(fmt, i, a) && At(fmt, i + |a|, b)
  {
    var t := fmt[i..i + |a + b|];
    assert t[..|a|] == a && t[|a|..] == b;
  }

  lemma FirstAt(fmt: CString, i: nat, text: seq<char>)
    requires At(fmt, i, text) && text != []
    ensures fmt[i] == text[0] && At(fmt, i + 1, text[1..]) && text == [text[0]] + text[1..]
  {
    assert text == [text[0]] + text[1..];
    AtParts(fmt, i, [text[0]], text[1..]);
    assert fmt[i..i + 1][0] == fmt[i];
  }

  function WithFlags(s: Spec, flags: seq<char>): Spec {
    s.(ljust := s.ljust || '-' in flags, plus := s.plus || '+' in flags, space := s.space || ' ' in flags,
       altform := s.altform || '#' in flags, fillz := s.fillz || '0' in flags)
  }

  lemma ScanOneFlag(fmt: CString, i: nat, s: Spec)
    requires i < |fmt| && IsFlag(fmt[i])
    ensures Scan(fmt, i, s) == Scan(fmt, i + 1, WithFlags(s, [fmt[i]]))
  {
  }

  lemma WithMoreFlags(s: Spec, c: char, rest: seq<char>, flags: seq<char>)
    requires flags == [c] + rest
    ensures WithFlags(WithFlags(s, [c]), rest) == WithFlags(s, flags)
  {
  }

  lemma {:induction false} ScanFlags(fmt: CString, i: nat, flags: seq<char>, s: Spec)
    requires At(fmt, i, flags) && forall k :: 0 <= k < |flags| ==> IsFlag(flags[k])
    ensures Scan(fmt, i, s) == Scan(fmt, i + |flags|, WithFlags(s, flags))
    decreases flags
  {
    if flags == [] {
    } else {
      var c, rest := flags[0], flags[1..];
      FirstAt(fmt, i, flags);
      ScanOneFlag(fmt, i, s);
      ScanFlags(fmt, i + 1, rest, WithFlags(s, [c]));
      WithMoreFlags(s, c, rest, flags);
    }
  }

  /** Left-to-right reading, as the digit loop does it. */
  function ValueFrom(acc: int, digits: seq<char>): int
    decreases digits
  {
    if digits == [] then acc else ValueFrom(acc * 10 + DigitVal(digits[0]), digits[1..])
  }

  lemma {:induction false} NumberOfDigits(fmt: CString, i: nat, digits: seq<char>, acc: int)
    requires At(fmt, i, digits) && AllDigits(digits, 10)
    requires forall k :: 0 <= k < |digits| ==> IsDigit(digits[k])
    requires !IsDigit(Peek(fmt, i + |digits|))
    ensures Number(fmt, i, acc) == (ValueFrom(acc, digits), i + |digits|)
    decreases digits
  {
    if digits == [] {
    } else {
      var c, rest := digits[0], digits[1..];
      assert digits == [c] + rest;
      AtParts(fmt, i, [c], rest);
      assert fmt[i] == c by {
        assert fmt[i..i + 1][0] == c;
      }
      NumberOfDigits(fmt, i + 1, rest, acc * 10 + DigitVal(c));
    }
  }

  lemma {:induction false} ValueFromSnoc(acc: int, digits: seq<char>, c: char)
    ensures ValueFrom(acc, digits + [c]) == ValueFrom(acc, digits) * 10 + DigitVal(c)
    decreases digits
  {
    var all := digits + [c];
    if digits == [] {
      assert all[1..] == [];
    } else {
      assert all[1..] == digits[1..] + [c];
      ValueFromSnoc(acc * 10 + DigitVal(digits[0]), digits[1..], c);
    }
  }

  lemma {:induction false} ValueFromIsValue(digits: seq<char>)
    ensures ValueFrom(0, digits) == Value(digits, 10)
    decreases digits
  {
    if digits == [] {
    } else {
      var front, c := digits[..|digits| - 1], digits[|digits| - 1];
      assert digits == front + [c];
      ValueFromIsValue(front);
      ValueFromSnoc(0, front, c);
      ValueOneMore(front, c, 10);
    }
  }

  lemma DecimalDigits(n: nat)
    ensures var t := Plain(n, 10, false);
            && t != [] && AllDigits(t, 10) && (n > 0 ==> t[0] != '0')
            && (forall k :: 0 <= k < |t| ==> IsDigit(t[k])) && ValueFrom(0, t) == n
  {
    var t := Plain(n, 10, false);
    DigitsReadBack(n, 10, false);
    DigitsAreMinimal(n, 10, false);
    ValueFromIsValue(t);
    if n == 0 {
      ValueOneMore([], '0', 10);
      assert [] + ['0'] == t;
    }
    forall k | 0 <= k < |t| ensures IsDigit(t[k]) {
      assert 0 <= DigitVal(t[k]) < 10;
    }
  }

  lemma NumberReadsDecimal(fmt: CString, i: nat, n: nat)
    requires At(fmt, i, Plain(n, 10, false)) && !IsDigit(Peek(fmt, i + |Plain(n, 10, false)|))
    ensures Number(fmt, i, 0) == (n as int, i + |Plain(n, 10, false)|)
  {
    DecimalDigits(n);
    NumberOfDigits(fmt, i, Plain(n, 10, false), 0);
  }

  lemma ScanLetter(fmt: CString, i: nat, s: Spec)
    requires i < |fmt| && !IsScanned(fmt[i])
    ensures Scan(fmt, i, s) == Scanned(s, fmt[i], i + 1)
  {
  }

  // ---------------------------------------------------------------------------
  // Parts in any order and number
  // ---------------------------------------------------------------------------

  /** A precision without an amount is a point alone. */
  datatype Item = Flag(c: char) | Width(w: Amount) | Prec(p: Option<Amount>) | Size(l: Length)

  predicate WellFormedItem(x: Item) {
    match x
    case Flag(c) => IsFlag(c)
    case Width(w) => w.Fixed? ==> w.n > 0
    case Prec(_) => true
    case Size(l) => l != NoLength
  }

  function ShowItem(x: Item): (t: seq<char>)
    requires WellFormedItem(x)
  {
    match x
    case Flag(c) => [c]
    case Width(w) => ShowWidth(w)
    case Prec(p) => if p == None then ['.'] else ShowPrec(p)
    case Size(l) => ShowLength(l)
  }

  /** The later of two parts that set the same thing counts. */
  function Applied(s: Spec, x: Item): Spec {
    match x
    case Flag(c) => WithFlags(s, [c])
    case Width(w) => s.(width := WidthOf(w))
    case Prec(p) => s.(prec := PrecOf(p))
    case Size(l) => if l == H then s.(half := true) else s.(tlong := if l == LL then 2 else 1)
  }

  /** The character after a part must not read as more of it. */
  predicate Ends(x: Item, c: char) {
    match x
    case Flag(_) => true
    case Width(w) => w.Fixed? ==> !IsDigit(c)
    case Prec(p) => (p != Some(Star) ==> !IsDigit(c)) && (p == None ==> c != '*')
    case Size(l) => l == L ==> c != 'l'
  }

  lemma ScanItemWidth(fmt: CString, i: nat, w: Amount, s: Spec)
    requires (w.Fixed? ==> w.n > 0) && At(fmt, i, ShowWidth(w))
    requires w.Fixed? ==> !IsDigit(Peek(fmt, i + |ShowWidth(w)|))
    ensures Scan(fmt, i, s) == Scan(fmt, i + |ShowWidth(w)|, s.(width := WidthOf(w)))
  {
    var t := ShowWidth(w);
    if w.Fixed? {
      DecimalDigits(w.n);
      NumberReadsDecimal(fmt, i, w.n);
    }
    assert fmt[i..i + |t|][0] == fmt[i];
  }

  lemma ScanPointDigits(fmt: CString, i: nat, n: nat, digits: seq<char>, next: nat, s: Spec)
    requires digits == Plain(n, 10, false) && At(fmt, i, ['.'] + digits) && next == i + 1 + |digits|
    requires !IsDigit(Peek(fmt, next))
    ensures Scan(fmt, i, s) == Scan(fmt, next, s.(prec := n))
  {
    AtParts(fmt, i, ['.'], digits);
    DecimalDigits(n);
    NumberReadsDecimal(fmt, i + 1, n);
    FirstAt(fmt, i + 1, digits);
    FirstAt(fmt, i, ['.']);
  }

  lemma ScanPoint(fmt: CString, i: nat, s: Spec)
    requires i < |fmt| && fmt[i] == '.'
    ensures Peek(fmt, i + 1) == '*' ==> Scan(fmt, i, s) == Scan(fmt, i + 2, s.(prec := -1))
    ensures Peek(fmt, i + 1) != '*' && !IsDigit(Peek(fmt, i + 1)) ==> Scan(fmt, i, s) == Scan(fmt, i + 1, s.(prec := 0))
  {
  }

  lemma ScanItemPrec(fmt: CString, i: nat, p: Option<Amount>, s: Spec)
    requires var x := Prec(p); At(fmt, i, ShowItem(x)) && Ends(x, Peek(fmt, i + |ShowItem(x)|))
    ensures Scan(fmt, i, s) == Scan(fmt, i + |ShowItem(Prec(p))|, s.(prec := PrecOf(p)))
  {
    match p
    case None =>
      FirstAt(fmt, i, ['.']);
      ScanPoint(fmt, i, s);
    case Some(Star) =>
      AtParts(fmt, i, ['.'], ['*']);
      FirstAt(fmt, i, ['.']);
      FirstAt(fmt, i + 1, ['*']);
      ScanPoint(fmt, i, s);
    case Some(Fixed(n)) =>
      var digits := Plain(n, 10, false);
      ScanPointDigits(fmt, i, n, digits, i + 1 + |digits|, s);
  }

  lemma ScanSize(fmt: CString, i: nat, l: Length, s: Spec)
    requires var x := Size(l); WellFormedItem(x) && At(fmt, i, ShowItem(x)) && Ends(x, Peek(fmt, i + |ShowItem(x)|))
    ensures Scan(fmt, i, s) == Scan(fmt, i + |ShowLength(l)|, Applied(s, Size(l)))
  {
    FirstAt(fmt, i, ShowLength(l));
    if l == LL {
      FirstAt(fmt, i + 1, ['l']);
    }
  }

  lemma ScanItem(fmt: CString, i: nat, x: Item, s: Spec)
    requires WellFormedItem(x) && At(fmt, i, ShowItem(x)) && Ends(x, Peek(fmt, i + |ShowItem(x)|))
    ensures Scan(fmt, i, s) == Scan(fmt, i + |ShowItem(x)|, Applied(s, x))
  {
    match x
    case Flag(c) =>
      FirstAt(fmt, i, [c]);
      ScanOneFlag(fmt, i, s);
    case Width(w) => ScanItemWidth(fmt, i, w, s);
    case Prec(p) => ScanItemPrec(fmt, i, p, s);
    case Size(l) => ScanSize(fmt, i, l, s);
  }

  predicate WellFormedItems(xs: seq<Item>) {
    forall i :: 0 <= i < |xs| ==> WellFormedItem(xs[i])
  }

  /** The parts and the letter that ends them. */
  function ShowItems(xs: seq<Item>, letter: char): (t: seq<char>)
    requires WellFormedItems(xs)
    ensures t != []
    decreases xs
  {
    if xs == [] then [letter] else ShowItem(xs[0]) + ShowItems(xs[1..], letter)
  }

  /** Every part ends where the next one starts. */
  predicate Separate(xs: seq<Item>, letter: char)
    requires WellFormedItems(xs)
    decreases xs
  {
    xs == [] || (Ends(xs[0], ShowItems(xs[1..], letter)[0]) && Separate(xs[1..], letter))
  }

  function AppliedAll(s: Spec, xs: seq<Item>): Spec
    decreases xs
  {
    if xs == [] then s else AppliedAll(Applied(s, xs[0]), xs[1..])
  }

  /** Flags, widths, precisions and lengths are scanned in any order and any number. */
  lemma {:induction false} ScanReadsItems(fmt: CString, i: nat, xs: seq<Item>, letter: char, s: Spec)
    requires WellFormedItems(xs) && !IsScanned(letter) && Separate(xs, letter) && At(fmt, i, ShowItems(xs, letter))
    ensures Scan(fmt, i, s) == Scanned(AppliedAll(s, xs), letter, i + |ShowItems(xs, letter)|)
    decreases xs
  {
    if xs == [] {
      FirstAt(fmt, i, [letter]);
      ScanLetter(fmt, i, s);
    } else {
      var front, rest := ShowItem(xs[0]), ShowItems(xs[1..], letter);
      AtParts(fmt, i, front, rest);
      FirstAt(fmt, i + |front|, rest);
      ScanItem(fmt, i, xs[0], s);
      ScanReadsItems(fmt, i + |front|, xs[1..], letter, Applied(s, xs[0]));
    }
  }

  // ---------------------------------------------------------------------------
  // Reading a directive back
  // ---------------------------------------------------------------------------

  function SizeItems(d: Directive): seq<Item> {
    if d.length == NoLength then [] else [Size(d.length)]
  }

  function PrecItems(d: Directive): seq<Item> {
    if d.prec == None then SizeItems(d) else [Prec(d.prec)] + SizeItems(d)
  }

  /** The parts of a directive after its flags. */
  function AmountItems(d: Directive): seq<Item> {
    if d.width == Fixed(0) then PrecItems(d) else [Width(d.width)] + PrecItems(d)
  }

  lemma OneMoreItem(x: Item, xs: seq<Item>, letter: char, s: Spec)
    requires WellFormedItem(x) && WellFormedItems(xs)
    ensures var all := [x] + xs;
            && WellFormedItems(all) && ShowItems(all, letter) == ShowItem(x) + ShowItems(xs, letter)
            && (Separate(all, letter) <==> Ends(x, ShowItems(xs, letter)[0]) && Separate(xs, letter))
            && AppliedAll(s, all) == AppliedAll(Applied(s, x), xs)
  {
    var all := [x] + xs;
    assert all[0] == x && all[1..] == xs;
  }

  lemma SizeReads(d: Directive, s: Spec)
    requires !IsScanned(d.letter) && !s.half && s.tlong == 0
    ensures WellFormedItems(SizeItems(d)) && Separate(SizeItems(d), d.letter)
    ensures ShowItems(SizeItems(d), d.letter) == ShowLength(d.length) + [d.letter]
    ensures AppliedAll(s, SizeItems(d))
            == s.(half := d.length == H, tlong := if d.length == L then 1 else if d.length == LL then 2 else 0)
    ensures !IsDigit(ShowItems(SizeItems(d), d.letter)[0])
  {
    NothingAdded([d.letter]);
    if d.length != NoLength {
      OneMoreItem(Size(d.length), [], d.letter, s);
      assert [Size(d.length)] + [] == [Size(d.length)];
    }
  }

  lemma PrecReads(d: Directive, s: Spec)
    requires !IsScanned(d.letter) && !s.half && s.tlong == 0 && s.prec == 0
    ensures WellFormedItems(PrecItems(d)) && Separate(PrecItems(d), d.letter)
    ensures ShowItems(PrecItems(d), d.letter) == ShowPrec(d.prec) + (ShowLength(d.length) + [d.letter])
    ensures AppliedAll(s, PrecItems(d)) == AppliedAll(s.(prec := PrecOf(d.prec)), SizeItems(d))
    ensures !IsDigit(ShowItems(PrecItems(d), d.letter)[0])
  {
    SizeReads(d, s.(prec := PrecOf(d.prec)));
    if d.prec == None {
      NothingAdded(ShowItems(SizeItems(d), d.letter));
    } else {
      OneMoreItem(Prec(d.prec), SizeItems(d), d.letter, s);
    }
  }

  lemma AmountsRead(d: Directive, s: Spec)
    requires !IsScanned(d.letter) && !s.half && s.tlong == 0 && s.width == 0 && s.prec == 0
    ensures WellFormedItems(AmountItems(d)) && Separate(AmountItems(d), d.letter)
    ensures ShowItems(AmountItems(d), d.letter)
            == ShowWidth(d.width) + (ShowPrec(d.prec) + (ShowLength(d.length) + [d.letter]))
    ensures AppliedAll(s, AmountItems(d))
            == AppliedAll(s.(width := WidthOf(d.width), prec := PrecOf(d.prec)), SizeItems(d))
  {
    PrecReads(d, s.(width := WidthOf(d.width)));
    if d.width == Fixed(0) {
      NothingAdded(ShowItems(PrecItems(d), d.letter));
    } else {
      OneMoreItem(Width(d.width), PrecItems(d), d.letter, s);
    }
  }

  lemma ShowInParts(d: Directive)
    ensures Show(d) == d.flags + (ShowWidth(d.width) + (ShowPrec(d.prec) + (ShowLength(d.length) + [d.letter])))
  {
    var w, p, l, e := ShowWidth(d.width), ShowPrec(d.prec), ShowLength(d.length), [d.letter];
    ConcatAssociates(d.flags + w + p, l, e);
    ConcatAssociates(d.flags + w, p, l + e);
    ConcatAssociates(d.flags, w, p + (l + e));
  }

  lemma DirectiveInItems(d: Directive) returns (xs: seq<Item>, rest: seq<char>, s: Spec)
    requires WellFormedDirective(d)
    ensures WellFormedItems(xs) && Separate(xs, d.letter) && rest == ShowItems(xs, d.letter)
    ensures Show(d) == d.flags + rest && s == WithFlags(BLANK, d.flags) && AppliedAll(s, xs) == Meaning(d)
  {
    xs, s := AmountItems(d), WithFlags(BLANK, d.flags);
    rest := ShowItems(xs, d.letter);
    ShowInParts(d);
    AmountsRead(d, s);
    SizeReads(d, s.(width := WidthOf(d.width), prec := PrecOf(d.prec)));
  }

  /** The scanner gets from a written directive exactly what it means. */
  lemma ScanReadsDirective(fmt: CString, i: nat, d: Directive)
    requires WellFormedDirective(d) && At(fmt, i, Show(d))
    ensures Scan(fmt, i, BLANK) == Scanned(Meaning(d), d.letter, i + |Show(d)|)
  {
    var xs, rest, s := DirectiveInItems(d);
    AtParts(fmt, i, d.flags, rest);
    ScanFlags(fmt, i, d.flags, BLANK);
    ScanReadsItems(fmt, i + |d.flags|, xs, d.letter, s);
  }

  // ---------------------------------------------------------------------------
  // Rendering a concatenation
  // ---------------------------------------------------------------------------

  function Join(f: CString, g: CString): CString {
    f + g
  }

  /** Every conversion of the format is closed, and the arguments are used up exactly. */
  predicate Complete(f: CString, i: nat, args: seq<Arg>)
    requires i <= |f|
    decreases |f| - i
  {
    if i == |f| then args == []
    else if f[i] != '%' then Complete(f, i + 1, args)
    else
      match Conversion(f, i + 1, args)
      case None => false
      case Some(st) => Scan(f, i + 1, BLANK).letter != '\0' && Complete(f, st.next, st.args)
  }

  lemma {:induction false} NumberExtends(f: CString, g: CString, i: nat, acc: int)
    requires i <= |f| && Number(f, i, acc).1 < |f|
    ensures Number(Join(f, g), i, acc) == Number(f, i, acc)
    decreases |f| - i
  {
    if !IsDigit(Peek(f, i)) {
    } else {
      NumberExtends(f, g, i + 1, acc * 10 + (f[i] as int - '0' as int));
    }
  }

  lemma ScanAtEnd(f: CString, s: Spec)
    ensures Scan(f, |f|, s).letter == '\0'
  {
  }

  /** What follows a closed conversion does not change it. */
  lemma {:induction false} ScanExtends(f: CString, g: CString, i: nat, s: Spec)
    requires i <= |f| && Scan(f, i, s).letter != '\0'
    ensures Scan(Join(f, g), i, s) == Scan(f, i, s)
    decreases |f| - i
  {
    ScanAtEnd(f, s);
    var c := f[i];
    if IsFlag(c) {
      ScanExtends(f, g, i + 1, WithFlags(s, [c]));
      ScanOneFlag(f, i, s);
      ScanOneFlag(Join(f, g), i, s);
    } else if c == 'h' {
      ScanExtends(f, g, i + 1, s.(half := true));
    } else if c == '*' {
      ScanExtends(f, g, i + 1, s.(width := -1));
    } else if c == 'l' {
      ScanExtendsL(f, g, i, s);
    } else if c == '.' {
      ScanExtendsPoint(f, g, i, s);
    } else if '1' <= c <= '9' {
      var (value, next) := Number(f, i, 0);
      ScanAtEnd(f, s.(width := value));
      NumberExtends(f, g, i, 0);
      ScanExtends(f, g, next, s.(width := value));
    }
  }

  lemma {:induction false} ScanExtendsL(f: CString, g: CString, i: nat, s: Spec)
    requires i < |f| && f[i] == 'l' && Scan(f, i, s).letter != '\0'
    ensures Scan(Join(f, g), i, s) == Scan(f, i, s)
    decreases |f| - i, 0
  {
    ScanAtEnd(f, s.(tlong := 1));
    if Peek(f, i + 1) == 'l' {
      ScanExtends(f, g, i + 2, s.(tlong := 2));
    } else {
      ScanExtends(f, g, i + 1, s.(tlong := 1));
    }
  }

  lemma {:induction false} ScanExtendsPoint(f: CString, g: CString, i: nat, s: Spec)
    requires i < |f| && f[i] == '.' && Scan(f, i, s).letter != '\0'
    ensures Scan(Join(f, g), i, s) == Scan(f, i, s)
    decreases |f| - i, 0
  {
    if Peek(f, i + 1) == '*' {
      ScanExtends(f, g, i + 2, s.(prec := -1));
    } else {
      var (value, next) := Number(f, i + 1, 0);
      ScanAtEnd(f, s.(prec := value));
      NumberExtends(f, g, i + 1, 0);
      ScanExtends(f, g, next, s.(prec := value));
    }
  }

  lemma {:induction false} NumberShifts(f: CString, g: CString, k: nat, acc: int)
    requires k <= |g|
    ensures var (value, next) := Number(g, k, acc); Number(Join(f, g), |f| + k, acc) == (value, |f| + next)
    decreases |g| - k
  {
    if !IsDigit(Peek(g, k)) {
    } else {
      NumberShifts(f, g, k + 1, acc * 10 + (g[k] as int - '0' as int));
    }
  }

  function Shifted(sc: Scanned, n: nat): Scanned {
    sc.(next := n + sc.next)
  }

  /** What precedes a conversion only moves it. */
  lemma {:induction false} ScanShifts(f: CString, g: CString, k: nat, s: Spec)
    requires k <= |g|
    ensures Scan(Join(f, g), |f| + k, s) == Shifted(Scan(g, k, s), |f|)
    decreases |g| - k, 1
  {
    var c := Peek(g, k);
    assert Peek(Join(f, g), |f| + k) == c;
    if IsFlag(c) {
      ScanShifts(f, g, k + 1, WithFlags(s, [c]));
      ScanOneFlag(g, k, s);
      ScanOneFlag(Join(f, g), |f| + k, s);
    } else if c == 'h' {
      ScanShifts(f, g, k + 1, s.(half := true));
    } else if c == '*' {
      ScanShifts(f, g, k + 1, s.(width := -1));
    } else if c == 'l' {
      ScanShiftsL(f, g, k, s);
    } else if c == '.' {
      ScanShiftsPoint(f, g, k, s);
    } else if '1' <= c <= '9' {
      ScanShiftsWidth(f, g, k, s);
    }
  }

  lemma {:induction false} ScanShiftsL(f: CString, g: CString, k: nat, s: Spec)
    requires k < |g| && g[k] == 'l'
    ensures Scan(Join(f, g), |f| + k, s) == Shifted(Scan(g, k, s), |f|)
    decreases |g| - k, 0
  {
    assert Peek(Join(f, g), |f| + k) == 'l';
    assert Peek(Join(f, g), |f| + k + 1) == Peek(g, k + 1);
    if Peek(g, k + 1) == 'l' {
      ScanShifts(f, g, k + 2, s.(tlong := 2));
    } else {
      ScanShifts(f, g, k + 1, s.(tlong := 1));
    }
  }

  lemma {:induction false} ScanShiftsWidth(f: CString, g: CString, k: nat, s: Spec)
    requires k < |g| && '1' <= g[k] <= '9'
    ensures Scan(Join(f, g), |f| + k, s) == Shifted(Scan(g, k, s), |f|)
    decreases |g| - k, 0
  {
    var (value, next) := Number(g, k, 0);
    assert Peek(Join(f, g), |f| + k) == g[k];
    NumberShifts(f, g, k, 0);
    ScanShifts(f, g, next, s.(width := value));
  }

  lemma {:induction false} ScanShiftsPoint(f: CString, g: CString, k: nat, s: Spec)
    requires k < |g| && g[k] == '.'
    ensures Scan(Join(f, g), |f| + k, s) == Shifted(Scan(g, k, s), |f|)
    decreases |g| - k, 0
  {
    assert Peek(Join(f, g), |f| + k) == '.';
    assert Peek(Join(f, g), |f| + k + 1) == Peek(g, k + 1);
    if Peek(g, k + 1) == '*' {
      ScanShifts(f, g, k + 2, s.(prec := -1));
    } else {
      var (value, next) := Number(g, k + 1, 0);
      NumberShifts(f, g, k + 1, 0);
      ScanShifts(f, g, next, s.(prec := value));
    }
  }

  lemma FetchStarExtends(value: int, args: seq<Arg>, more: seq<Arg>)
    requires FetchStar(value, args).Some?
    ensures var (v, rest) := FetchStar(value, args).value; FetchStar(value, args + more) == Some((v, rest + more))
  {
    if value == -1 {
      assert (args + more)[1..] == args[1..] + more;
    }
  }

  lemma ConvertExtends(s: Spec, letter: char, args: seq<Arg>, more: seq<Arg>)
    requires IsKnown(letter) && Convert(s, letter, args).Some?
    ensures var (p, rest) := Convert(s, letter, args).value; Convert(s, letter, args + more) == Some((p, rest + more))
  {
    if letter != '%' {
      assert (args + more)[1..] == args[1..] + more;
    }
  }

  lemma ConversionExtends(f: CString, g: CString, i: nat, args: seq<Arg>, more: seq<Arg>)
    requires i <= |f| && Conversion(f, i, args).Some? && Scan(f, i, BLANK).letter != '\0'
    ensures var st := Conversion(f, i, args).value;
            Conversion(Join(f, g), i, args + more) == Some(Step(st.text, st.next, st.args + more))
  {
    var sc := Scan(f, i, BLANK);
    ScanExtends(f, g, i, BLANK);
    FetchStarExtends(sc.spec.width, args, more);
    var (width, args1) := FetchStar(sc.spec.width, args).value;
    FetchStarExtends(sc.spec.prec, args1, more);
    var (prec, args2) := FetchStar(sc.spec.prec, args1).value;
    if IsKnown(sc.letter) {
      ConvertExtends(sc.spec.(width := width, prec := prec), sc.letter, args2, more);
    }
  }

  lemma ConversionShifts(f: CString, g: CString, k: nat, args: seq<Arg>)
    requires k <= |g|
    ensures Conversion(Join(f, g), |f| + k, args)
            == match Conversion(g, k, args)
               case None => None
               case Some(st) => Some(st.(next := |f| + st.next))
  {
    ScanShifts(f, g, k, BLANK);
  }

  lemma {:induction false} RenderShifts(f: CString, g: CString, k: nat, args: seq<Arg>)
    requires k <= |g|
    ensures RenderFrom(Join(f, g), |f| + k, args) == RenderFrom(g, k, args)
    decreases |g| - k
  {
    if k == |g| {
    } else {
      assert Join(f, g)[|f| + k] == g[k];
      if g[k] != '%' {
        RenderShifts(f, g, k + 1, args);
      } else {
        ConversionShifts(f, g, k + 1, args);
        match Conversion(g, k + 1, args)
        case None =>
        case Some(st) => RenderShifts(f, g, st.next, st.args);
      }
    }
  }

  lemma RenderLiteral(f: CString, i: nat, args: seq<Arg>, rest: seq<char>)
    requires i < |f| && f[i] != '%' && RenderFrom(f, i + 1, args) == Some(rest)
    ensures RenderFrom(f, i, args) == Some([f[i]] + rest)
  {
  }

  lemma RenderConversion(f: CString, i: nat, args: seq<Arg>, st: Step, rest: seq<char>)
    requires i < |f| && f[i] == '%' && Conversion(f, i + 1, args) == Some(st)
    requires RenderFrom(f, st.next, st.args) == Some(rest)
    ensures RenderFrom(f, i, args) == Some(st.text + rest)
  {
  }

  lemma RenderNothing(f: CString, g: CString, args: seq<Arg>, more: seq<Arg>, tail: seq<char>)
    requires Render(g, more) == Some(tail) && args == []
    ensures RenderFrom(f, |f|, args) == Some([])
    ensures RenderFrom(Join(f, g), |f|, args + more) == Some([] + tail)
  {
    RenderShifts(f, g, 0, more);
    NothingAdded(tail);
    assert args + more == more;
  }

  lemma {:induction false} RenderFromConcat(f: CString, g: CString, i: nat, args: seq<Arg>, more: seq<Arg>)
    requires i <= |f| && Complete(f, i, args) && Render(g, more).Some?
    ensures RenderFrom(f, i, args).Some?
    ensures RenderFrom(Join(f, g), i, args + more) == Some(RenderFrom(f, i, args).value + Render(g, more).value)
    decreases |f| - i
  {
    var tail := Render(g, more).value;
    if i == |f| {
      RenderNothing(f, g, args, more, tail);
    } else if f[i] != '%' {
      RenderFromConcat(f, g, i + 1, args, more);
      var rest := RenderFrom(f, i + 1, args).value;
      RenderLiteral(f, i, args, rest);
      RenderLiteral(Join(f, g), i, args + more, rest + tail);
      ConcatAssociates([f[i]], rest, tail);
    } else {
      var st := Conversion(f, i + 1, args).value;
      ConversionExtends(f, g, i + 1, args, more);
      RenderFromConcat(f, g, st.next, st.args, more);
      var rest := RenderFrom(f, st.next, st.args).value;
      RenderConversion(f, i, args, st, rest);
      RenderConversion(Join(f, g), i, args + more, Step(st.text, st.next, st.args + more), rest + tail);
      ConcatAssociates(st.text, rest, tail);
    }
  }

  /** A complete format renders the same before any other, and the other the same after it. */
  lemma RenderConcat(f: CString, g: CString, args: seq<Arg>, more: seq<Arg>)
    requires Complete(f, 0, args) && Render(g, more).Some?
    ensures Render(f, args).Some?
    ensures Render(Join(f, g), args + more) == Some(Render(f, args).value + Render(g, more).value)
  {
    RenderFromConcat(f, g, 0, args, more);
  }

  /** A format that ends inside a conversion prints what comes before it. */
  lemma UnfinishedConversion(f: CString, args: seq<Arg>)
    requires f != [] && f[0] == '%' && Scan(f, 1, BLANK).letter == '\0' && Render(f, args).Some?
    ensures Render(f, args) == Some([])
  {
    var st := Conversion(f, 1, args).value;
    assert RenderFrom(f, |f|, st.args) == Some([]);
    RenderConversion(f, 0, args, st, []);
    assert st.text == [] && st.text + [] == [];
  }
}
