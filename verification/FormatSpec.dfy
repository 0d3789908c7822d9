/**
 What `vsnprintf_asyncsignalsafe` writes when nothing is cut off: the scan of a conversion,
 the text it produces, and the rendering of a whole format. `None` stands for a call the
 source does not allow (a missing or mistyped argument, an overrun of the scratch array,
 an overflowing negation) or does not model here (%f, %n).
 */
module FormatSpec {
  import opened Words
  import opened Numerals

  type CString = s: seq<char> | '\0' !in s

  /** One variadic argument, by the type `va_arg` asks for. `long` and `long long` are 64 bits. */
  datatype Arg = Int(n: int32) | Long(l: int64) | Str(s: CString)

  const X_INF := 0x7fff_fff0

  // ---------------------------------------------------------------------------
  // Scanning a conversion
  // ---------------------------------------------------------------------------

  /** The locals the scanner sets; -1 in `width` or `prec` marks a value still to be fetched. */
  datatype Spec = Spec(width: int, ljust: bool, plus: bool, space: bool, altform: bool,
                       prec: int, half: bool, tlong: nat, fillz: bool)

  const BLANK := Spec(0, false, false, false, false, 0, false, 0, false)

  /** The scan's outcome: the spec, the letter that ended it, and where to read on. */
  datatype Scanned = Scanned(spec: Spec, letter: char, next: nat)

  /** Reading one character; only the terminating NUL may be read past the text. */
  function Peek(fmt: CString, i: nat): char
    requires i <= |fmt|
  {
    if i < |fmt| then fmt[i] else '\0'
  }

  predicate IsDigit(c: char) {
    '0' <= c <= '9'
  }

  /** A decimal number from position i on: its value, and the position of the first other character. */
  function Number(fmt: CString, i: nat, acc: int): (r: (int, nat))
    requires i <= |fmt|
    ensures i <= r.1 <= |fmt|
    ensures IsDigit(Peek(fmt, i)) ==> i < r.1
    decreases |fmt| - i
  {
    if IsDigit(Peek(fmt, i)) then Number(fmt, i + 1, acc * 10 + (fmt[i] as int - '0' as int))
    else (acc, i)
  }

  function Scan(fmt: CString, i: nat, s: Spec): (r: Scanned)
    requires i <= |fmt|
    ensures r.letter == '\0' || i < r.next <= |fmt|
    ensures i < r.next <= |fmt| + 1
    decreases |fmt| - i
  {
    var c := Peek(fmt, i);
    match c
    case 'h' => Scan(fmt, i + 1, s.(half := true))
    case 'l' =>
      if Peek(fmt, i + 1) == 'l' then Scan(fmt, i + 2, s.(tlong := 2))
      else Scan(fmt, i + 1, s.(tlong := 1))
    case '-' => Scan(fmt, i + 1, s.(ljust := true))
    case '+' => Scan(fmt, i + 1, s.(plus := true))
    case ' ' => Scan(fmt, i + 1, s.(space := true))
    case '0' => Scan(fmt, i + 1, s.(fillz := true))
    case '#' => Scan(fmt, i + 1, s.(altform := true))
    case '*' => Scan(fmt, i + 1, s.(width := -1))
    case '.' =>
      if Peek(fmt, i + 1) == '*' then Scan(fmt, i + 2, s.(prec := -1))
      else
        var (value, next) := Number(fmt, i + 1, 0);
        Scan(fmt, next, s.(prec := value))
    case _ =>
      if '1' <= c <= '9' then
        var (value, next) := Number(fmt, i, 0);
        Scan(fmt, next, s.(width := value))
      else Scanned(s, c, i + 1)
  }

  // ---------------------------------------------------------------------------
  // Fetching arguments
  // ---------------------------------------------------------------------------

  function FetchStar(value: int, args: seq<Arg>): Option<(int, seq<Arg>)> {
    if value != -1 then Some((value, args))
    else if args != [] && args[0].Int? then Some((args[0].n, args[1..]))
    else None
  }

  function FetchNumber(s: Spec, args: seq<Arg>): Option<(int64, seq<Arg>)> {
    if args == [] then None
    else if s.tlong == 0 then (if args[0].Int? then Some((args[0].n, args[1..])) else None)
    else if args[0].Long? then Some((args[0].l, args[1..]))
    else None
  }

  function Short(n: int): int {
    (n + 0x8000) % 0x1_0000 - 0x8000
  }

  function UShort(n: int): int {
    n % 0x1_0000
  }

  function Word(n: int): uint32 {
    n % 0x1_0000_0000
  }

  // ---------------------------------------------------------------------------
  // One conversion
  // ---------------------------------------------------------------------------

  /**
   What the switch on the letter leaves for the padding code: characters stored at once, the
   string `p` points to, and the width, precision and fill flag as they stand then.
   */
  datatype Pending = Pending(stored: seq<char>, text: CString, width: int, prec: int, fillz: bool)

  /**
   A numeric conversion just before `itoa`: characters stored at once, characters put in the
   scratch array, and the number, base, width and precision as they stand then.
   */
  datatype Numeral = Numeral(stored: seq<char>, prefix: CString, num: int, base: nat, width: int, prec: int)

  function SignChar(num: int, s: Spec): char {
    if num < 0 then '-' else if s.space then ' ' else '+'
  }

  /** Without zero-fill the sign goes to the scratch array, and `+` wins over space. */
  function SignPrefix(num: int, s: Spec): CString {
    if num < 0 then "-" else if s.plus then "+" else if s.space then " " else ""
  }

  function Magnitude(num: int): nat {
    if num < 0 then -num else num
  }

  /** With zero-fill the sign is stored at once, left of the zeros, and takes a column. */
  function SignedNumber(s: Spec, num: int): Numeral {
    if s.fillz then
      if num < 0 || s.plus || s.space then
        Numeral([SignChar(num, s)], "", Magnitude(num), 10, if s.width > 0 then s.width - 1 else s.width, s.prec)
      else Numeral([], "", num, 10, s.width, s.prec)
    else Numeral([], SignPrefix(num, s), Magnitude(num), 10, s.width, s.prec)
  }

  predicate IsNumeric(letter: char) {
    letter in "diuxXpoO"
  }

  predicate IsSigned(letter: char) {
    letter == 'd' || letter == 'i'
  }

  function UnsignedNumber(s: Spec, letter: char, num: int): Numeral
    requires IsNumeric(letter)
  {
    match letter
    case 'u' => Numeral([], "", num, 10, s.width, s.prec)
    case 'o' =>
      if s.altform then Numeral([], "0", num, 8, s.width, s.prec + 1) else Numeral([], "", num, 8, s.width, s.prec)
    case 'O' =>
      if s.altform then Numeral([], "0", num, 8, s.width, s.prec + 1) else Numeral([], "", num, 8, s.width, s.prec)
    case 'p' => Numeral([], "", num, 16, s.width, s.prec)
    case _ =>
      if s.altform then Numeral([], ['0', letter], num, 16, s.width, s.prec + 2)
      else Numeral([], "", num, 16, s.width, s.prec)
  }

  function NumberOf(s: Spec, letter: char, n: int64): Numeral
    requires IsNumeric(letter)
  {
    if IsSigned(letter) then SignedNumber(s, if s.half then Short(n) else n)
    else UnsignedNumber(s, letter, if s.half then UShort(n) else n)
  }

  /** `itoa` prints the low 32 bits after the prefix; a precision cancels the zero-fill. */
  function PrintNumber(nb: Numeral, caps: bool, fillz: bool): Option<Pending>
    requires 2 <= nb.base <= 16
  {
    var t := Text(Word(nb.num), nb.base, caps, nb.prec);
    TextReadsBack(Word(nb.num), nb.base, caps, nb.prec);
    if nb.prec >= SCRATCH || |nb.prefix| + |t| >= SCRATCH then None
    else Some(Pending(nb.stored, nb.prefix + t, nb.width, X_INF, fillz && nb.prec == 0))
  }

  /** The minimum of a 64-bit `long` cannot be negated. */
  function ConvertNumber(s: Spec, letter: char, n: int64): Option<Pending>
    requires IsNumeric(letter)
  {
    if IsSigned(letter) && !s.half && n == -0x8000_0000_0000_0000 then None
    else PrintNumber(NumberOf(s, letter, n), letter == 'X', s.fillz)
  }

  function ConvertString(s: Spec, text: CString): Option<Pending> {
    if |text| > INT_MAX then None
    else Some(Pending([], text, s.width, if s.prec == 0 then X_INF else s.prec, s.fillz))
  }

  /** The character is truncated to a byte; a NUL byte makes an empty string of it. */
  function ByteString(n: int): CString {
    if n % 0x100 == 0 then "" else [(n % 0x100) as char]
  }

  /** `None` where the padding code is not reached: an unknown letter is stored as it is. */
  predicate IsKnown(letter: char) {
    letter in "diuxXpoOscfn%"
  }

  function Convert(s: Spec, letter: char, args: seq<Arg>): Option<(Pending, seq<Arg>)>
    requires IsKnown(letter)
  {
    if letter == '%' then Some((Pending([], "%", s.width, 1, s.fillz), args))
    else if letter == 'c' then
      if args != [] && args[0].Int? then
        Some((Pending([], ByteString(args[0].n), s.width, 1, s.fillz), args[1..]))
      else None
    else if letter == 's' then
      if args != [] && args[0].Str? then
        match ConvertString(s, args[0].s)
        case Some(p) => Some((p, args[1..]))
        case None => None
      else None
    else if letter == 'f' || letter == 'n' then None
    else
      match FetchNumber(s, args)
      case None => None
      case Some((n, rest)) =>
        match ConvertNumber(s, letter, n)
        case Some(p) => Some((p, rest))
        case None => None
  }

  // ---------------------------------------------------------------------------
  // Padding
  // ---------------------------------------------------------------------------

  /** Printed length; a negative precision makes it negative. */
  function PrintedLength(p: Pending): int {
    if |p.text| > p.prec then p.prec else |p.text|
  }

  function Padded(p: Pending, ljust: bool): seq<char> {
    var plen := PrintedLength(p);
    var pad := Max(p.width, plen) - plen;
    var body := p.text[..Max(plen, 0)];
    if ljust then body + Repeat(' ', pad) else Repeat(if p.fillz then '0' else ' ', pad) + body
  }

  function Field(p: Pending, ljust: bool): seq<char> {
    p.stored + Padded(p, ljust)
  }

  // ---------------------------------------------------------------------------
  // A whole format
  // ---------------------------------------------------------------------------

  /** The output of one conversion and where it leaves the format and the arguments. */
  datatype Step = Step(text: seq<char>, next: nat, args: seq<Arg>)

  /** `i` is just after the percent sign. A format that ends inside the conversion ends the loop. */
  function Conversion(fmt: CString, i: nat, args: seq<Arg>): (r: Option<Step>)
    requires i <= |fmt|
    ensures r.Some? ==> i <= r.value.next <= |fmt|
  {
    var sc := Scan(fmt, i, BLANK);
    match FetchStar(sc.spec.width, args)
    case None => None
    case Some((width, args1)) =>
      match FetchStar(sc.spec.prec, args1)
      case None => None
      case Some((prec, args2)) =>
        if sc.letter == '\0' then Some(Step([], |fmt|, args2))
        else if !IsKnown(sc.letter) then Some(Step([sc.letter], sc.next, args2))
        else
          match Convert(sc.spec.(width := width, prec := prec), sc.letter, args2)
          case None => None
          case Some((p, args3)) => Some(Step(Field(p, sc.spec.ljust), sc.next, args3))
  }

  function RenderFrom(fmt: CString, i: nat, args: seq<Arg>): Option<seq<char>>
    requires i <= |fmt|
    decreases |fmt| - i
  {
    if i == |fmt| then Some([])
    else if fmt[i] != '%' then
      match RenderFrom(fmt, i + 1, args)
      case None => None
      case Some(rest) => Some([fmt[i]] + rest)
    else
      match Conversion(fmt, i + 1, args)
      case None => None
      case Some(st) =>
        match RenderFrom(fmt, st.next, st.args)
        case None => None
        case Some(rest) => Some(st.text + rest)
  }

  function Render(fmt: CString, args: seq<Arg>): Option<seq<char>> {
    RenderFrom(fmt, 0, args)
  }
}
