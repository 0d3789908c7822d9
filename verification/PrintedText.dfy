/**
 The printed text of every directive, spelled out: flags, width and precision, written or taken
 from arguments, with any rest of the format and any further arguments.
 */
module PrintedText {
  import opened Words
  import opened Numerals
  import opened FormatSpec
  import opened FieldTheorems
  import opened FormatTheorems
  import opened DirectiveTheorems

  /** `text`, and then what the rest of the format renders to, if it does. */
  function Then(text: seq<char>, rest: Option<seq<char>>): Option<seq<char>> {
    match rest
    case None => None
    case Some(t) => Some(text + t)
  }

  /** `taken` are the arguments that a width or precision uses up, and v is its value. */
  predicate Takes(a: Option<Amount>, taken: seq<Arg>, v: int) {
    match a
    case None => taken == [] && v == 0
    case Some(Fixed(m)) => taken == [] && v == m
    case Some(Star) => |taken| == 1 && taken[0].Int? && taken[0].n == v
  }

  /** The format starts with the directive, whose width is w and whose precision is n. */
  predicate Begins(fmt: CString, d: Directive, more: CString, ws: seq<Arg>, w: int, ns: seq<Arg>, n: int) {
    StartsWith(fmt, d, more) && Takes(Some(d.width), ws, w) && Takes(d.prec, ns, n)
  }

  lemma FetchTaken(a: Option<Amount>, taken: seq<Arg>, v: int, args: seq<Arg>)
    requires Takes(a, taken, v)
    ensures FetchStar(PrecOf(a), taken + args) == Some((v, args))
  {
    match a
    case Some(Star) => assert (taken + args)[1..] == args;
    case _ => assert taken + args == args;
  }

  /** The directive with its amounts filled in. */
  function SpecOf(d: Directive, w: int, n: int): Spec {
    Meaning(d).(width := w, prec := n)
  }

  lemma RenderTaken(fmt: CString, d: Directive, more: CString, ws: seq<Arg>, w: int, ns: seq<Arg>, n: int, args: seq<Arg>)
    requires Begins(fmt, d, more, ws, w, ns, n)
    ensures Render(fmt, ws + (ns + args))
            == match Print(SpecOf(d, w, n), d.letter, args)
               case None => None
               case Some((text, rest)) => Then(text, Render(more, rest))
  {
    FetchTaken(Some(d.width), ws, w, ns + args);
    FetchTaken(d.prec, ns, n, args);
    RenderDirective(fmt, d, Meaning(d), more, ws + (ns + args));
  }

  lemma RenderPrints(fmt: CString, d: Directive, more: CString, ws: seq<Arg>, w: int, ns: seq<Arg>, n: int, args: seq<Arg>,
                     text: seq<char>, rest: seq<Arg>)
    requires Begins(fmt, d, more, ws, w, ns, n) && Print(SpecOf(d, w, n), d.letter, args) == Some((text, rest))
    ensures Render(fmt, ws + (ns + args)) == Then(text, Render(more, rest))
  {
    RenderTaken(fmt, d, more, ws, w, ns, n, args);
  }

  // ---------------------------------------------------------------------------
  // Text, percent signs, characters and strings
  // ---------------------------------------------------------------------------

  /** What is not a percent sign is copied. */
  lemma {:induction false} PlainFrom(f: CString, g: CString, i: nat, args: seq<Arg>)
    requires '%' !in f && i <= |f|
    ensures RenderFrom(Join(f, g), i, args) == Then(f[i..], Render(g, args))
    decreases |f| - i
  {
    if i == |f| {
      RenderShifts(f, g, 0, args);
      assert f[i..] == [];
      if Render(g, args).Some? {
        NothingAdded(Render(g, args).value);
      }
    } else {
      PlainFrom(f, g, i + 1, args);
      assert Join(f, g)[i] == f[i] && f[i..] == [f[i]] + f[i + 1..];
      if Render(g, args).Some? {
        ConcatAssociates([f[i]], f[i + 1..], Render(g, args).value);
      }
    }
  }

  lemma PrintedPlain(f: CString, more: CString, args: seq<Arg>)
    requires '%' !in f
    ensures Render(Join(f, more), args) == Then(f, Render(more, args))
    ensures Render(f, args) == Some(f)
  {
    PlainFrom(f, more, 0, args);
    PlainFrom(f, [], 0, args);
    NothingAdded(f);
    assert f[0..] == f && Render([], args) == Some([]);
  }

  /** A text in a field: blanks on the right under `-`, otherwise blanks or zeros on the left. */
  function Filled(d: Directive, pad: int, zeros: bool, text: seq<char>): seq<char> {
    if '-' in d.flags then text + Repeat(' ', pad)
    else Repeat(if zeros then '0' else ' ', pad) + text
  }

  lemma FilledBlank(d: Directive, pad: int, zeros: bool, text: seq<char>)
    ensures Filled(d, pad, zeros, text) == Filled(d, Blank(pad), zeros, text)
  {
    assert pad <= 0 ==> Repeat(' ', pad) == Repeat(' ', 0) && Repeat('0', pad) == Repeat('0', 0);
  }

  lemma PercentPrints(s: Spec, args: seq<Arg>)
    ensures var pad := Blank(s.width - 1);
            Print(s, '%', args)
            == Some((if s.ljust then "%" + Repeat(' ', pad) else Repeat(if s.fillz then '0' else ' ', pad) + "%", args))
  {
    WholeField(Pending([], "%", s.width, 1, s.fillz), s.ljust);
  }

  /** `%%` prints a percent sign, padded as asked, and takes no argument. */
  lemma PrintedPercent(fmt: CString, d: Directive, more: CString, ws: seq<Arg>, w: int, ns: seq<Arg>, n: int, args: seq<Arg>)
    requires Begins(fmt, d, more, ws, w, ns, n) && d.letter == '%'
    ensures Render(fmt, ws + (ns + args)) == Then(Filled(d, w - 1, '0' in d.flags, "%"), Render(more, args))
  {
    PercentPrints(SpecOf(d, w, n), args);
    FilledBlank(d, w - 1, '0' in d.flags, "%");
    RenderPrints(fmt, d, more, ws, w, ns, n, args, Filled(d, w - 1, '0' in d.flags, "%"), args);
  }

  /** The character with the code of the low eight bits, none for a NUL. */
  function ByteText(c: int): seq<char> {
    if c % 0x100 == 0 then [] else [(c % 0x100) as char]
  }

  lemma CharPrints(s: Spec, c: int32, text: CString, args: seq<Arg>)
    requires text == ByteText(c)
    ensures var pad := Blank(s.width - |text|);
            Print(s, 'c', [Int(c)] + args)
            == Some((if s.ljust then text + Repeat(' ', pad) else Repeat(if s.fillz then '0' else ' ', pad) + text, args))
  {
    assert ([Int(c)] + args)[1..] == args;
    WholeField(Pending([], text, s.width, 1, s.fillz), s.ljust);
  }

  lemma CharInField(d: Directive, w: int, n: int, c: int32, text: CString, args: seq<Arg>)
    requires text == ByteText(c)
    ensures Print(SpecOf(d, w, n), 'c', [Int(c)] + args) == Some((Filled(d, w - |text|, '0' in d.flags, text), args))
  {
    CharPrints(SpecOf(d, w, n), c, text, args);
    FilledBlank(d, w - |text|, '0' in d.flags, text);
  }

  /** `%c` prints the byte of its argument's low eight bits, or nothing for a NUL. */
  lemma PrintedChar(fmt: CString, d: Directive, more: CString, ws: seq<Arg>, w: int, ns: seq<Arg>, n: int,
                    c: int32, args: seq<Arg>)
    requires Begins(fmt, d, more, ws, w, ns, n) && d.letter == 'c'
    ensures Render(fmt, ws + (ns + ([Int(c)] + args)))
            == Then(Filled(d, w - |ByteText(c)|, '0' in d.flags, ByteText(c)), Render(more, args))
  {
    var text := ByteText(c);
    var field := Filled(d, w - |text|, '0' in d.flags, text);
    CharInField(d, w, n, c, text, args);
    RenderPrints(fmt, d, more, ws, w, ns, n, [Int(c)] + args, field, args);
  }

  lemma StringConverts(s: Spec, text: CString, args: seq<Arg>, p: Pending)
    requires ConvertString(s, text) == Some(p)
    ensures Convert(s, 's', [Str(text)] + args) == Some((p, args))
  {
    assert ([Str(text)] + args)[1..] == args;
  }

  lemma StringPrints(s: Spec, text: CString, args: seq<Arg>, p: Pending)
    requires ConvertString(s, text) == Some(p)
    ensures Print(s, 's', [Str(text)] + args) == Some((Field(p, s.ljust), args))
  {
    StringConverts(s, text, args, p);
  }

  lemma StringInField(d: Directive, w: int, n: int, text: CString, kept: seq<char>, pad: int, args: seq<Arg>)
    requires |text| <= INT_MAX && kept == Kept(text, n) && pad == w - (if n < 0 then n else |kept|)
    ensures Print(SpecOf(d, w, n), 's', [Str(text)] + args) == Some((Filled(d, pad, '0' in d.flags, kept), args))
  {
    var s := SpecOf(d, w, n);
    var p := ConvertString(s, text).value;
    StringPrints(s, text, args, p);
    StringField(s, text, p);
    assert StringPad(text, s.width, s.prec) == Blank(pad);
    FilledBlank(d, pad, '0' in d.flags, kept);
  }

  /** `%s` prints what the precision keeps of its argument, which is the only one it takes. */
  lemma PrintedString(fmt: CString, d: Directive, more: CString, ws: seq<Arg>, w: int, ns: seq<Arg>, n: int,
                      text: CString, args: seq<Arg>)
    requires Begins(fmt, d, more, ws, w, ns, n) && d.letter == 's' && |text| <= INT_MAX
    ensures var kept := Kept(text, n);
            Render(fmt, ws + (ns + ([Str(text)] + args)))
            == Then(Filled(d, w - (if n < 0 then n else |kept|), '0' in d.flags, kept), Render(more, args))
  {
    var pad := w - (if n < 0 then n else |Kept(text, n)|);
    var field := Filled(d, pad, '0' in d.flags, Kept(text, n));
    StringInField(d, w, n, text, Kept(text, n), pad, args);
    RenderPrints(fmt, d, more, ws, w, ns, n, [Str(text)] + args, field, args);
  }

  /** A letter that names no conversion is printed itself and takes no argument. */
  lemma UnknownLetter(fmt: CString, d: Directive, more: CString, ws: seq<Arg>, w: int, ns: seq<Arg>, n: int, args: seq<Arg>)
    requires Begins(fmt, d, more, ws, w, ns, n) && d.letter !in "diuxXpoOscfn%"
    ensures Render(fmt, ws + (ns + args)) == Then([d.letter], Render(more, args))
  {
    RenderPrints(fmt, d, more, ws, w, ns, n, args, [d.letter], args);
  }

  // ---------------------------------------------------------------------------
  // Numbers
  // ---------------------------------------------------------------------------

  /** `l` and `ll` take a long, all else an int. */
  predicate IsNumber(d: Directive, arg: Arg, v: int64) {
    if d.length == L || d.length == LL then arg == Long(v) else -0x8000_0000 <= v < 0x8000_0000 && arg == Int(v)
  }

  lemma NumberConverts(s: Spec, letter: char, arg: Arg, v: int64, args: seq<Arg>)
    requires IsNumeric(letter) && IsArgument(s, arg, v)
    ensures Convert(s, letter, [arg] + args)
            == match ConvertNumber(s, letter, v)
               case None => None
               case Some(p) => Some((p, args))
  {
    assert ([arg] + args)[1..] == args;
    assert FetchNumber(s, [arg] + args) == Some((v, args));
  }

  lemma NumberPrints(s: Spec, letter: char, arg: Arg, v: int64, args: seq<Arg>)
    requires IsNumeric(letter) && IsArgument(s, arg, v)
    ensures Print(s, letter, [arg] + args)
            == match ConvertNumber(s, letter, v)
               case None => None
               case Some(p) => Some((Field(p, s.ljust), args))
  {
    NumberConverts(s, letter, arg, v, args);
  }

  lemma RenderNumber(fmt: CString, d: Directive, more: CString, ws: seq<Arg>, w: int, ns: seq<Arg>, n: int,
                     arg: Arg, v: int64, args: seq<Arg>)
    requires Begins(fmt, d, more, ws, w, ns, n) && IsNumeric(d.letter) && IsNumber(d, arg, v)
    ensures Render(fmt, ws + (ns + ([arg] + args)))
            == match ConvertNumber(SpecOf(d, w, n), d.letter, v)
               case None => None
               case Some(p) => Then(Field(p, '-' in d.flags), Render(more, args))
  {
    var s := SpecOf(d, w, n);
    assert IsArgument(s, arg, v) && s.ljust == ('-' in d.flags);
    NumberPrints(s, d.letter, arg, v, args);
    RenderTaken(fmt, d, more, ws, w, ns, n, [arg] + args);
  }

  /** The base is the letter's own. */
  function LetterBase(letter: char): nat {
    if letter == 'u' then 10 else if letter == 'o' || letter == 'O' then 8 else 16
  }

  /** `#` puts a prefix before x, X, o and O. */
  function Prefix(d: Directive): seq<char> {
    if '#' !in d.flags then ""
    else if d.letter == 'x' then "0x"
    else if d.letter == 'X' then "0X"
    else if d.letter == 'o' || d.letter == 'O' then "0" else ""
  }

  /** The low 16 bits for `h`, the low 32 bits for all else. */
  function LowWord(d: Directive, v: int64): uint32 {
    if d.length == H then v % 0x1_0000 else v % 0x1_0000_0000
  }

  lemma UnsignedNumeral(d: Directive, w: int, n: int, v: int64)
    requires d.letter in "uxXoOp"
    ensures var nb := NumberOf(SpecOf(d, w, n), d.letter, v);
            && Word(nb.num) == LowWord(d, v) && nb.stored == [] && nb.prefix == Prefix(d)
            && nb.base == LetterBase(d.letter) && nb.width == w && nb.prec == n + |Prefix(d)|
  {
  }

  lemma UnsignedConverts(d: Directive, w: int, n: int, v: int64, prec: int, text: seq<char>)
    requires d.letter in "uxXoOp" && prec == n + |Prefix(d)|
    requires text == Prefix(d) + Text(LowWord(d, v), LetterBase(d.letter), d.letter == 'X', prec)
    ensures match ConvertNumber(SpecOf(d, w, n), d.letter, v)
            case None => prec >= 36 || |text| >= 36
            case Some(p) =>
              && prec < 36 && |text| < 36
              && p.stored == [] && p.text == text && p.width == w && p.prec == X_INF
              && p.fillz == ('0' in d.flags && prec == 0)
  {
    UnsignedNumeral(d, w, n, v);
  }

  lemma UnsignedInField(d: Directive, w: int, prec: int, text: seq<char>, p: Pending)
    requires p.stored == [] && p.text == text && p.width == w && p.prec == X_INF && |text| < 36
    requires p.fillz == ('0' in d.flags && prec == 0)
    ensures Field(p, '-' in d.flags) == Filled(d, w - |text|, '0' in d.flags && prec == 0, text)
  {
    WholeField(p, '-' in d.flags);
    FilledBlank(d, w - |text|, p.fillz, text);
  }

  /**
   What an unsigned letter prints: the low bits of the argument in the letter's base after the
   prefix, which also raises the precision. Zeros fill the field only if that leaves it 0. A number
   that overruns the scratch array of 36 characters is not allowed.
   */
  function UnsignedField(d: Directive, w: int, n: int, v: int64): Option<seq<char>>
    requires d.letter in "uxXoOp"
  {
    var prec := n + |Prefix(d)|;
    var text := Prefix(d) + Text(LowWord(d, v), LetterBase(d.letter), d.letter == 'X', prec);
    if prec >= 36 || |text| >= 36 then None
    else Some(Filled(d, w - |text|, '0' in d.flags && prec == 0, text))
  }

  lemma UnsignedFields(d: Directive, w: int, n: int, v: int64)
    requires d.letter in "uxXoOp"
    ensures UnsignedField(d, w, n, v)
            == match ConvertNumber(SpecOf(d, w, n), d.letter, v)
               case None => None
               case Some(p) => Some(Field(p, '-' in d.flags))
  {
    var prec := n + |Prefix(d)|;
    var text := Prefix(d) + Text(LowWord(d, v), LetterBase(d.letter), d.letter == 'X', prec);
    UnsignedConverts(d, w, n, v, prec, text);
    if prec < 36 && |text| < 36 {
      UnsignedInField(d, w, prec, text, ConvertNumber(SpecOf(d, w, n), d.letter, v).value);
    }
  }

  /** The letters u, x, X, o, O and p print `UnsignedField` and take one argument. */
  lemma PrintedUnsigned(fmt: CString, d: Directive, more: CString, ws: seq<Arg>, w: int, ns: seq<Arg>, n: int,
                        arg: Arg, v: int64, args: seq<Arg>)
    requires Begins(fmt, d, more, ws, w, ns, n) && d.letter in "uxXoOp" && IsNumber(d, arg, v)
    ensures Render(fmt, ws + (ns + ([arg] + args)))
            == match UnsignedField(d, w, n, v)
               case None => None
               case Some(field) => Then(field, Render(more, args))
  {
    UnsignedFields(d, w, n, v);
    RenderNumber(fmt, d, more, ws, w, ns, n, arg, v, args);
  }

  lemma FilledReads(d: Directive, w: int, zeros: bool, digits: seq<char>, base: nat)
    requires base > 0 && digits != [] && AllDigits(digits, base)
    ensures var field := Filled(d, w - |digits|, zeros, digits);
            |field| == Max(w, |digits|) && Parse(field, base) == Some(Value(digits, base))
  {
    FilledBlank(d, w - |digits|, zeros, digits);
    ParsePlain(digits, Blank(w - |digits|), base);
    ParsePlainZeroFilled(digits, Blank(w - |digits|), base);
  }

  lemma UnsignedDigitsRead(num: uint32, base: nat, caps: bool, n: int, digits: seq<char>)
    requires 2 <= base <= 16 && n < 36 && digits == Text(num, base, caps, n)
    ensures 0 < |digits| < 36 && AllDigits(digits, base) && Value(digits, base) == num
  {
    WordFits(num, base, caps);
    TextReadsBack(num, base, caps, n);
  }

  lemma NoPrefixField(d: Directive, w: int, n: int, v: int64, digits: seq<char>)
    requires d.letter in "uxXoOp" && Prefix(d) == [] && n < 36 && |digits| < 36
    requires digits == Text(LowWord(d, v), LetterBase(d.letter), d.letter == 'X', n)
    ensures UnsignedField(d, w, n, v) == Some(Filled(d, w - |digits|, '0' in d.flags && n == 0, digits))
  {
    NothingAdded(digits);
  }

  /** Without a prefix it is as wide as asked, or as its digits, and reads back as the low bits. */
  lemma UnsignedReadsBack(d: Directive, w: int, n: int, v: int64)
    requires d.letter in "uxXoOp" && Prefix(d) == [] && n < 36
    ensures var digits := Text(LowWord(d, v), LetterBase(d.letter), d.letter == 'X', n);
            var field := UnsignedField(d, w, n, v);
            && field.Some? && |field.value| == Max(w, |digits|)
            && Parse(field.value, LetterBase(d.letter)) == Some(LowWord(d, v))
  {
    var base, digits := LetterBase(d.letter), Text(LowWord(d, v), LetterBase(d.letter), d.letter == 'X', n);
    UnsignedDigitsRead(LowWord(d, v), base, d.letter == 'X', n, digits);
    NoPrefixField(d, w, n, v, digits);
    FilledReads(d, w, '0' in d.flags && n == 0, digits, base);
  }

  /** The number a signed letter prints: for `h` the 16-bit value that agrees with the argument. */
  function SignedValue(d: Directive, v: int64): int {
    if d.length == H then (v + 0x8000) % 0x1_0000 - 0x8000 else v
  }

  /** A minus for a negative number; else what the flags ask for, where `0` makes a blank win over `+`. */
  function SignOf(d: Directive, num: int): seq<char> {
    if num < 0 then "-"
    else if '0' in d.flags && ' ' in d.flags then " "
    else if '+' in d.flags then "+"
    else if ' ' in d.flags then " " else ""
  }

  function SignedDigitsOf(d: Directive, n: int, v: int64): seq<char> {
    var num := SignedValue(d, v);
    Text((if num < 0 then -num else num) % 0x1_0000_0000, 10, false, n)
  }

  /** Sign and digits in a field: under `0` the padding stands between them, as zeros without a precision. */
  function SignedFilled(d: Directive, w: int, n: int, sign: seq<char>, digits: seq<char>): seq<char> {
    var pad := w - |sign| - |digits|;
    if '-' in d.flags then sign + digits + Repeat(' ', pad)
    else if '0' in d.flags then sign + Repeat(if n == 0 then '0' else ' ', pad) + digits
    else Repeat(' ', pad) + (sign + digits)
  }

  lemma SignedParts(d: Directive, w: int, n: int, v: int64)
    ensures var s := SpecOf(d, w, n);
            && Converted(s, v) == SignedValue(d, v)
            && SignText(s, Converted(s, v)) == SignOf(d, SignedValue(d, v))
            && SignedDigits(s, v) == SignedDigitsOf(d, n, v)
  {
  }

  lemma SignedFits(d: Directive, w: int, n: int, v: int64)
    ensures ConvertNumber(SpecOf(d, w, n), 'd', v).Some?
            <==> (d.length == H || v != -0x8000_0000_0000_0000) && n < 36
                 && ('0' in d.flags || |SignOf(d, SignedValue(d, v))| + n < 36)
  {
    SignedParts(d, w, n, v);
    SignedAllowed(SpecOf(d, w, n), v);
  }

  lemma SignedPad(d: Directive, w: int, n: int, sign: seq<char>, digits: seq<char>)
    ensures SignedForm(SpecOf(d, w, n), SignedFilled(d, w, n, sign, digits), sign, digits)
  {
    var pad := w - |sign| - |digits|;
    assert pad <= 0 ==> Repeat(' ', pad) == Repeat(' ', 0) && Repeat('0', pad) == Repeat('0', 0);
  }

  lemma SignedFields(d: Directive, w: int, n: int, v: int64, p: Pending)
    requires ConvertNumber(SpecOf(d, w, n), 'd', v) == Some(p)
    ensures Field(p, '-' in d.flags) == SignedFilled(d, w, n, SignOf(d, SignedValue(d, v)), SignedDigitsOf(d, n, v))
  {
    var sign, digits := SignOf(d, SignedValue(d, v)), SignedDigitsOf(d, n, v);
    SignedParts(d, w, n, v);
    SignedLayout(SpecOf(d, w, n), v, p);
    SignedPad(d, w, n, sign, digits);
  }

  /**
   `%d` and `%i` print the sign and the digits of their argument, for every flag, width, precision
   and length, unless the scratch array is too small or the number has no negation.
   */
  lemma PrintedSigned(fmt: CString, d: Directive, more: CString, ws: seq<Arg>, w: int, ns: seq<Arg>, n: int,
                      arg: Arg, v: int64, args: seq<Arg>)
    requires Begins(fmt, d, more, ws, w, ns, n) && (d.letter == 'd' || d.letter == 'i') && IsNumber(d, arg, v)
    ensures var sign, digits := SignOf(d, SignedValue(d, v)), SignedDigitsOf(d, n, v);
            Render(fmt, ws + (ns + ([arg] + args)))
            == if (d.length != H && v == -0x8000_0000_0000_0000) || n >= 36 || ('0' !in d.flags && |sign| + n >= 36)
               then None
               else Then(SignedFilled(d, w, n, sign, digits), Render(more, args))
  {
    var s := SpecOf(d, w, n);
    LettersForSigned(s, v);
    RenderNumber(fmt, d, more, ws, w, ns, n, arg, v, args);
    SignedFits(d, w, n, v);
    if ConvertNumber(s, 'd', v).Some? {
      SignedFields(d, w, n, v, ConvertNumber(s, 'd', v).value);
    }
  }
}
