/**
 `vsnprintf_asyncsignalsafe` on a window of a character array. The methods follow the source's
 loops over moving positions; they are proved against `FormatSpec.Render`.
 */
module Formatter {
  import opened Words
  import opened Numerals
  import opened FormatSpec

  // ---------------------------------------------------------------------------
  // The window
  // ---------------------------------------------------------------------------

  /** Memory after the characters `out` went through the store macro: all counted, few kept. */
  function Screen(orig: seq<char>, at: nat, size: nat, out: seq<char>): (r: seq<char>)
    requires size >= 1 && at + size <= |orig|
    ensures |r| == |orig|
  {
    var m := Min(|out|, size - 1);
    if |out| < size then orig[..at] + out[..m] + orig[at + m..]
    else orig[..at] + out[..m] + ['\0'] + orig[at + size..]
  }

  /** Memory when the function returns. */
  function Printed(orig: seq<char>, at: nat, size: nat, out: seq<char>): (r: seq<char>)
    requires size >= 1 && at + size <= |orig|
    ensures |r| == |orig|
  {
    var m := Min(|out|, size - 1);
    orig[..at] + out[..m] + ['\0'] + orig[at + m + 1..]
  }

  ghost predicate Shows(mem: seq<char>, orig: seq<char>, at: nat, size: nat, bp: nat, out: seq<char>) {
    && size >= 1 && at + size <= |orig|
    && bp == at + Min(|out|, size - 1)
    && mem == Screen(orig, at, size, out)
  }

  /** The macro X_STORE_PRT, without its count. */
  method Store(buf: array<char>, be: nat, bp0: nat, c: char,
               ghost orig: seq<char>, ghost at: nat, ghost out: seq<char>) returns (bp: nat)
    requires at <= be && Shows(buf[..], orig, at, be - at + 1, bp0, out)
    modifies buf
    ensures Shows(buf[..], orig, at, be - at + 1, bp, out + [c])
  {
    bp := bp0;
    ghost var size, out' := be - at + 1, out + [c];
    if bp < be {
      buf[bp] := c;
      bp := bp + 1;
      assert out'[..|out'|] == out' && out[..|out|] == out;
    } else if bp == be {
      buf[be] := '\0';
      assert out'[..size - 1] == out[..size - 1];
    }
  }

  /** The closing stores: a NUL after what was kept. */
  method Terminate(buf: array<char>, be: nat, bp: nat, ghost orig: seq<char>, ghost at: nat, ghost out: seq<char>)
    requires at <= be && Shows(buf[..], orig, at, be - at + 1, bp, out)
    modifies buf
    ensures buf[..] == Printed(orig, at, be - at + 1, out)
  {
    if bp < be {
      buf[bp] := '\0';
    } else {
      buf[be] := '\0';
    }
  }

  // ---------------------------------------------------------------------------
  // The scanner
  // ---------------------------------------------------------------------------

  /** The digit loop with its `fmt--`: `pos` is one past the first digit, already in `c0`. */
  method ReadNumber(fmt: CString, pos0: nat, c0: char) returns (value: int, pos: nat)
    requires 1 <= pos0 <= |fmt| + 1 && c0 == Peek(fmt, pos0 - 1)
    ensures pos <= |fmt| && (value, pos) == Number(fmt, pos0 - 1, 0)
  {
    var c := c0;
    pos := pos0;
    value := 0;
    while IsDigit(c)
      invariant 1 <= pos <= |fmt| + 1 && c == Peek(fmt, pos - 1)
      invariant Number(fmt, pos - 1, value) == Number(fmt, pos0 - 1, 0)
      decreases |fmt| + 1 - pos
    {
      value := value * 10 + (c as int - '0' as int);
      c := Peek(fmt, pos);
      pos := pos + 1;
    }
    pos := pos - 1;
  }

  /** The loop over flags, width, precision and length letters. */
  method ScanConversion(fmt: CString, pos0: nat) returns (s: Spec, c: char, pos: nat)
    requires pos0 <= |fmt|
    ensures Scanned(s, c, pos) == Scan(fmt, pos0, BLANK)
  {
    s := BLANK;
    pos := pos0;
    c := Peek(fmt, pos);
    pos := pos + 1;
    while true
      invariant 1 <= pos <= |fmt| + 1 && c == Peek(fmt, pos - 1)
      invariant Scan(fmt, pos - 1, s) == Scan(fmt, pos0, BLANK)
      decreases |fmt| + 1 - pos
    {
      match c {
        case 'h' => s := s.(half := true);
        case 'l' =>
          if Peek(fmt, pos) == 'l' {
            s := s.(tlong := 2);
            pos := pos + 1;
          } else {
            s := s.(tlong := 1);
          }
        case '-' => s := s.(ljust := true);
        case '+' => s := s.(plus := true);
        case ' ' => s := s.(space := true);
        case '0' => s := s.(fillz := true);
        case '#' => s := s.(altform := true);
        case '*' => s := s.(width := -1);
        case '.' =>
          c := Peek(fmt, pos);
          pos := pos + 1;
          if c == '*' {
            s := s.(prec := -1);
          } else {
            var value;
            value, pos := ReadNumber(fmt, pos, c);
            s := s.(prec := value);
          }
        case _ =>
          if '1' <= c <= '9' {
            var value;
            value, pos := ReadNumber(fmt, pos, c);
            s := s.(width := value);
          } else {
            break;
          }
      }
      c := Peek(fmt, pos);
      pos := pos + 1;
    }
  }

  // ---------------------------------------------------------------------------
  // Padding
  // ---------------------------------------------------------------------------

  lemma RepeatOneMore(out: seq<char>, c: char, n: nat)
    ensures out + Repeat(c, n) + [c] == out + Repeat(c, n + 1)
  {
  }

  lemma TakeOneMore(out: seq<char>, text: seq<char>, n: nat)
    requires n < |text|
    ensures out + text[..n] + [text[n]] == out + text[..n + 1]
  {
  }

  /** A padding loop, `while (pad-- > 0)`. */
  method PutPad(buf: array<char>, be: nat, bp0: nat, pad0: int, c: char,
                ghost orig: seq<char>, ghost at: nat, ghost out: seq<char>) returns (bp: nat, stored: nat)
    requires at <= be && Shows(buf[..], orig, at, be - at + 1, bp0, out)
    modifies buf
    ensures Shows(buf[..], orig, at, be - at + 1, bp, out + Repeat(c, pad0))
    ensures stored == |Repeat(c, pad0)|
  {
    var pad := pad0;
    ghost var shown := out;
    bp, stored := bp0, 0;
    assert out + Repeat(c, 0) == out;
    while pad > 0
      invariant if pad0 > 0 then 0 <= pad == pad0 - stored else pad == pad0 && stored == 0
      invariant shown == out + Repeat(c, stored) && Shows(buf[..], orig, at, be - at + 1, bp, shown)
    {
      pad := pad - 1;
      RepeatOneMore(out, c, stored);
      bp := Store(buf, be, bp, c, orig, at, shown);
      shown := shown + [c];
      stored := stored + 1;
    }
    assert Repeat(c, stored) == Repeat(c, pad0);
  }

  /** The body loop: `plen` characters of the text, within the width. */
  method PutBody(buf: array<char>, be: nat, bp0: nat, text: seq<char>, plen0: int, width0: int,
                 ghost orig: seq<char>, ghost at: nat, ghost out: seq<char>) returns (bp: nat, stored: nat)
    requires at <= be && Shows(buf[..], orig, at, be - at + 1, bp0, out)
    requires plen0 <= |text| && plen0 <= width0
    modifies buf
    ensures Shows(buf[..], orig, at, be - at + 1, bp, out + text[..Max(plen0, 0)])
    ensures stored == Max(plen0, 0)
  {
    var plen, width := plen0, width0;
    ghost var shown := out;
    bp, stored := bp0, 0;
    assert out + text[..0] == out;
    while plen > 0 && width > 0
      invariant 0 <= stored <= Max(plen0, 0) && plen == plen0 - stored && plen <= width
      invariant shown == out + text[..stored] && Shows(buf[..], orig, at, be - at + 1, bp, shown)
    {
      plen, width := plen - 1, width - 1;
      TakeOneMore(out, text, stored);
      bp := Store(buf, be, bp, text[stored], orig, at, shown);
      shown := shown + [text[stored]];
      stored := stored + 1;
    }
    assert stored == Max(plen0, 0);
  }

  /** A text of `pad` fill characters beside `plen` characters of the string. */
  ghost predicate Beside(field: seq<char>, text: seq<char>, plen: int, pad: int, fill: char, ljust: bool)
    requires plen <= |text|
  {
    var body := text[..Max(plen, 0)];
    field == if ljust then body + Repeat(' ', pad) else Repeat(fill, pad) + body
  }

  lemma PaddedParts(p: Pending, ljust: bool)
    ensures var plen := PrintedLength(p);
            plen <= |p.text|
            && Beside(Padded(p, ljust), p.text, plen, Max(p.width, plen) - plen, if p.fillz then '0' else ' ', ljust)
  {
  }

  /** Padding and body in the order asked for. */
  method PutParts(buf: array<char>, be: nat, bp0: nat, text: seq<char>, plen: int, width: int, fill: char, ljust: bool,
                  ghost orig: seq<char>, ghost at: nat, ghost out: seq<char>, ghost field: seq<char>)
      returns (bp: nat, stored: nat)
    requires at <= be && Shows(buf[..], orig, at, be - at + 1, bp0, out)
    requires plen <= |text| && plen <= width && Beside(field, text, plen, width - plen, fill, ljust)
    modifies buf
    ensures Shows(buf[..], orig, at, be - at + 1, bp, out + field)
    ensures stored == |field|
  {
    var pad := width - plen;
    ghost var body := text[..Max(plen, 0)];
    var more;
    if !ljust {
      ghost var blank := Repeat(fill, pad);
      bp, stored := PutPad(buf, be, bp0, pad, fill, orig, at, out);
      bp, more := PutBody(buf, be, bp, text, plen, width, orig, at, out + blank);
      ConcatAssociates(out, blank, body);
    } else {
      bp, stored := PutBody(buf, be, bp0, text, plen, width, orig, at, out);
      bp, more := PutPad(buf, be, bp, pad, ' ', orig, at, out + body);
      ConcatAssociates(out, body, Repeat(' ', pad));
    }
    stored := stored + more;
  }

  /** The padding code at the end of a conversion. */
  method PutField(buf: array<char>, be: nat, bp0: nat, p: Pending, ljust: bool,
                  ghost orig: seq<char>, ghost at: nat, ghost out: seq<char>) returns (bp: nat, stored: nat)
    requires at <= be && Shows(buf[..], orig, at, be - at + 1, bp0, out)
    modifies buf
    ensures Shows(buf[..], orig, at, be - at + 1, bp, out + Padded(p, ljust))
    ensures stored == |Padded(p, ljust)|
  {
    var plen: int := |p.text|;
    var width := p.width;
    if plen > p.prec {
      plen := p.prec;
    }
    if width < plen {
      width := plen;
    }
    PaddedParts(p, ljust);
    bp, stored := PutParts(buf, be, bp0, p.text, plen, width, if p.fillz then '0' else ' ', ljust,
                           orig, at, out, Padded(p, ljust));
  }

  // ---------------------------------------------------------------------------
  // Numeric conversions
  // ---------------------------------------------------------------------------

  /** The case for d and i: the sign goes out at once or into the scratch array. */
  method PrepareSigned(buf: array<char>, be: nat, bp0: nat, s: Spec, num0: int, tmp: array<char>,
                       ghost orig: seq<char>, ghost at: nat, ghost out: seq<char>)
      returns (bp: nat, stored: nat, num: int, width: int, p: nat)
    requires at <= be && Shows(buf[..], orig, at, be - at + 1, bp0, out)
    requires tmp.Length == SCRATCH && tmp != buf
    modifies buf, tmp
    ensures var nb := SignedNumber(s, num0);
            && num == nb.num && width == nb.width
            && p <= 1 && tmp[..p] == nb.prefix
            && stored == |nb.stored| && Shows(buf[..], orig, at, be - at + 1, bp, out + nb.stored)
  {
    bp, stored, num, width, p := bp0, 0, num0, s.width, 0;
    assert out + [] == out;
    if s.fillz && (num < 0 || s.plus || s.space) {
      bp := Store(buf, be, bp, if num < 0 then '-' else if s.space then ' ' else '+', orig, at, out);
      stored := 1;
      if width > 0 {
        width := width - 1;
      }
      if num < 0 {
        num := -num;
      }
    }
    if !s.fillz {
      if num < 0 {
        tmp[p] := '-';
        p := p + 1;
        num := -num;
      } else if s.plus {
        tmp[p] := '+';
        p := p + 1;
      } else if s.space {
        tmp[p] := ' ';
        p := p + 1;
      }
    }
  }

  /** The cases for the unsigned letters, from the alternative form on. */
  method PrepareUnsigned(s: Spec, letter: char, tmp: array<char>) returns (base: nat, prec: int, p: nat)
    requires IsNumeric(letter) && !IsSigned(letter)
    requires tmp.Length == SCRATCH
    modifies tmp
    ensures forall num :: var nb := UnsignedNumber(s, letter, num);
              base == nb.base && prec == nb.prec && nb.num == num && nb.width == s.width && nb.stored == []
              && p == |nb.prefix| <= 2 && tmp[..p] == nb.prefix
  {
    base, prec, p := 10, s.prec, 0;
    if letter == 'o' || letter == 'O' {
      if s.altform {
        prec := prec + 1;
        tmp[p] := '0';
        p := p + 1;
      }
      base := 8;
    } else if letter != 'u' {
      var altform := s.altform;
      if letter == 'p' {
        altform := false;
      }
      if altform {
        prec := prec + 2;
        tmp[p] := '0';
        p := p + 1;
        tmp[p] := letter;
        p := p + 1;
      }
      base := 16;
    }
  }

  method Strlen(tmp: array<char>, ghost text: CString) returns (len: nat)
    requires |text| < tmp.Length && tmp[..|text|] == text && tmp[|text|] == '\0'
    ensures len == |text|
  {
    len := 0;
    assert forall k :: 0 <= k < |text| ==> tmp[..|text|][k] == text[k] && text[k] in text;
    while tmp[len] != '\0'
      invariant len <= |text|
      decreases |text| - len
    {
      len := len + 1;
    }
  }

  /** The switch for a numeric letter, up to `break`. */
  method PrepareNumber(buf: array<char>, be: nat, bp0: nat, s: Spec, letter: char, n: int64, tmp: array<char>,
                       ghost orig: seq<char>, ghost at: nat, ghost out: seq<char>)
      returns (bp: nat, stored: nat, num: int, base: nat, width: int, prec: int, p: nat)
    requires at <= be && Shows(buf[..], orig, at, be - at + 1, bp0, out)
    requires IsNumeric(letter) && tmp.Length == SCRATCH && tmp != buf
    modifies buf, tmp
    ensures var nb := NumberOf(s, letter, n);
            && p <= 2 && nb.prefix == tmp[..p] && nb == Numeral(nb.stored, nb.prefix, num, base, width, prec)
            && stored == |nb.stored| && Shows(buf[..], orig, at, be - at + 1, bp, out + nb.stored)
  {
    num := n;
    if IsSigned(letter) {
      if s.half {
        num := Short(num);
      }
      base, prec := 10, s.prec;
      bp, stored, num, width, p := PrepareSigned(buf, be, bp0, s, num, tmp, orig, at, out);
    } else {
      if s.half {
        num := UShort(num);
      }
      bp, stored, width := bp0, 0, s.width;
      base, prec, p := PrepareUnsigned(s, letter, tmp);
      assert out + [] == out;
      assert UnsignedNumber(s, letter, num).num == num;
    }
  }

  /** `itoa` after the prefix, then `strlen` of the whole. */
  method PrintPrepared(tmp: array<char>, p: nat, num: uint32, base: nat, caps: bool, prec: int, ghost prefix: CString)
      returns (text: CString)
    requires tmp.Length == SCRATCH && p <= SCRATCH && tmp[..p] == prefix
    requires 2 <= base <= 16 && prec < SCRATCH && p + |Text(num, base, caps, prec)| < SCRATCH
    modifies tmp
    ensures text == prefix + Text(num, base, caps, prec)
  {
    ghost var t := Text(num, base, caps, prec);
    Itoa(tmp, p, num, base, caps, prec);
    TextReadsBack(num, base, caps, prec);
    assert tmp[..p + |t|] == prefix + t;
    var len := Strlen(tmp, prefix + t);
    text := tmp[..len];
  }

  /** A numeric conversion up to the padding code. */
  method ConvertNumeric(buf: array<char>, be: nat, bp0: nat, s: Spec, letter: char, n: int64,
                        ghost orig: seq<char>, ghost at: nat, ghost out: seq<char>)
      returns (bp: nat, stored: nat, pending: Pending)
    requires at <= be && Shows(buf[..], orig, at, be - at + 1, bp0, out)
    requires IsNumeric(letter) && ConvertNumber(s, letter, n).Some?
    modifies buf
    ensures var p := ConvertNumber(s, letter, n).value;
            && pending == p.(stored := []) && stored == |p.stored|
            && Shows(buf[..], orig, at, be - at + 1, bp, out + p.stored)
  {
    var tmp := new char[SCRATCH](_ => '\0');
    var num, base, width, prec, p;
    ghost var nb := NumberOf(s, letter, n);
    bp, stored, num, base, width, prec, p := PrepareNumber(buf, be, bp0, s, letter, n, tmp, orig, at, out);
    var text := PrintPrepared(tmp, p, Word(num), base, letter == 'X', prec, nb.prefix);
    var fillz := s.fillz;
    if prec != 0 {
      fillz := false;
    }
    pending := Pending([], text, width, X_INF, fillz);
  }

  // ---------------------------------------------------------------------------
  // The whole function
  // ---------------------------------------------------------------------------

  method FetchInt(value: int, args: seq<Arg>) returns (v: int, rest: seq<Arg>)
    requires FetchStar(value, args).Some?
    ensures (v, rest) == FetchStar(value, args).value
  {
    v, rest := value, args;
    if value == -1 {
      v, rest := args[0].n, args[1..];
    }
  }

  /** The switch on a known letter. */
  method ConvertArgument(buf: array<char>, be: nat, bp0: nat, s: Spec, letter: char, args: seq<Arg>,
                         ghost orig: seq<char>, ghost at: nat, ghost out: seq<char>)
      returns (bp: nat, stored: nat, pending: Pending, rest: seq<Arg>)
    requires at <= be && Shows(buf[..], orig, at, be - at + 1, bp0, out)
    requires IsKnown(letter) && Convert(s, letter, args).Some?
    modifies buf
    ensures var (p, r) := Convert(s, letter, args).value;
            && pending == p.(stored := []) && rest == r && stored == |p.stored|
            && Shows(buf[..], orig, at, be - at + 1, bp, out + p.stored)
  {
    bp, stored, rest := bp0, 0, args;
    assert out + [] == out;
    match letter {
      case 's' =>
        pending := Pending([], args[0].s, s.width, if s.prec == 0 then X_INF else s.prec, s.fillz);
        rest := args[1..];
      case 'c' =>
        pending := Pending([], ByteString(args[0].n), s.width, 1, s.fillz);
        rest := args[1..];
      case '%' =>
        pending := Pending([], "%", s.width, 1, s.fillz);
      case _ =>
        var n: int64 := if s.tlong == 0 then args[0].n else args[0].l;
        rest := args[1..];
        bp, stored, pending := ConvertNumeric(buf, be, bp0, s, letter, n, orig, at, out);
    }
  }

  lemma FieldAfterStored(full: Pending, pending: Pending, ljust: bool, out: seq<char>)
    requires pending == full.(stored := [])
    ensures out + Field(full, ljust) == out + full.stored + Padded(pending, ljust)
    ensures |Field(full, ljust)| == |full.stored| + |Padded(pending, ljust)|
  {
    assert Padded(full, ljust) == Padded(pending, ljust);
    ConcatAssociates(out, full.stored, Padded(full, ljust));
  }

  /** The loop body after a percent sign; `ended` is its `break` on a format that stops short. */
  method ConvertOne(buf: array<char>, be: nat, bp0: nat, fmt: CString, pos0: nat, args0: seq<Arg>,
                    ghost orig: seq<char>, ghost at: nat, ghost out: seq<char>)
      returns (bp: nat, stored: nat, pos: nat, args: seq<Arg>, ended: bool)
    requires at <= be && Shows(buf[..], orig, at, be - at + 1, bp0, out)
    requires pos0 <= |fmt| && Conversion(fmt, pos0, args0).Some?
    modifies buf
    ensures var st := Conversion(fmt, pos0, args0).value;
            && stored == |st.text| && args == st.args
            && (if ended then st.next == |fmt| && st.text == [] else pos == st.next)
            && Shows(buf[..], orig, at, be - at + 1, bp, out + st.text)
  {
    var s, c;
    s, c, pos := ScanConversion(fmt, pos0);
    var width, prec;
    width, args := FetchInt(s.width, args0);
    prec, args := FetchInt(s.prec, args);
    s := s.(width := width, prec := prec);
    bp, stored, ended := bp0, 0, false;
    if c == '\0' {
      ended := true;
      assert out + [] == out;
    } else if !IsKnown(c) {
      bp := Store(buf, be, bp, c, orig, at, out);
      stored := 1;
    } else {
      ghost var full := Convert(s, c, args).value.0;
      var pending, more;
      bp, stored, pending, args := ConvertArgument(buf, be, bp, s, c, args, orig, at, out);
      FieldAfterStored(full, pending, s.ljust, out);
      bp, more := PutField(buf, be, bp, pending, s.ljust, orig, at, out + full.stored);
      stored := stored + more;
    }
  }

  /** `out` has been printed, and what is left of the format renders to the rest of `whole`. */
  ghost predicate Remaining(fmt: CString, pos: nat, args: seq<Arg>, out: seq<char>, whole: seq<char>) {
    && pos <= |fmt| && RenderFrom(fmt, pos, args).Some?
    && out + RenderFrom(fmt, pos, args).value == whole
  }

  lemma LiteralStep(fmt: CString, pos: nat, args: seq<Arg>, out: seq<char>, whole: seq<char>)
    requires Remaining(fmt, pos, args, out, whole) && pos < |fmt| && fmt[pos] != '%'
    ensures Remaining(fmt, pos + 1, args, out + [fmt[pos]], whole)
  {
    ConcatAssociates(out, [fmt[pos]], RenderFrom(fmt, pos + 1, args).value);
  }

  lemma ConversionStep(fmt: CString, pos: nat, args: seq<Arg>, out: seq<char>, whole: seq<char>)
    requires Remaining(fmt, pos, args, out, whole) && pos < |fmt| && fmt[pos] == '%'
    ensures Conversion(fmt, pos + 1, args).Some?
    ensures var st := Conversion(fmt, pos + 1, args).value;
            Remaining(fmt, st.next, st.args, out + st.text, whole)
  {
    var st := Conversion(fmt, pos + 1, args).value;
    ConcatAssociates(out, st.text, RenderFrom(fmt, st.next, st.args).value);
  }

  lemma NothingRemains(fmt: CString, args: seq<Arg>, out: seq<char>, whole: seq<char>)
    requires Remaining(fmt, |fmt|, args, out, whole)
    ensures out == whole
  {
  }

  /** The main loop; `whole` is what the format renders to. */
  method FormatLoop(buf: array<char>, be: nat, at: nat, fmt: CString, args0: seq<Arg>,
                    ghost orig: seq<char>, ghost whole: seq<char>) returns (bp: nat, n: nat)
    requires at <= be && Shows(buf[..], orig, at, be - at + 1, at, [])
    requires Remaining(fmt, 0, args0, [], whole)
    modifies buf
    ensures n == |whole| && Shows(buf[..], orig, at, be - at + 1, bp, whole)
  {
    ghost var out: seq<char> := [];
    var pos, args := 0, args0;
    bp, n := at, 0;
    while true
      invariant Remaining(fmt, pos, args, out, whole) && n == |out|
      invariant Shows(buf[..], orig, at, be - at + 1, bp, out)
      decreases |fmt| - pos
    {
      var c := Peek(fmt, pos);
      pos := pos + 1;
      if c == '\0' {
        break;
      }
      if c != '%' {
        LiteralStep(fmt, pos - 1, args, out, whole);
        bp := Store(buf, be, bp, c, orig, at, out);
        out := out + [c];
        n := n + 1;
      } else {
        ConversionStep(fmt, pos - 1, args, out, whole);
        ghost var st := Conversion(fmt, pos, args).value;
        var stored, ended;
        bp, stored, pos, args, ended := ConvertOne(buf, be, bp, fmt, pos, args, orig, at, out);
        out := out + st.text;
        n := n + stored;
        if ended {
          break;
        }
      }
    }
    NothingRemains(fmt, args, out, whole);
  }

  /**
   Formats into `buf[at..at + size]`. The count is the length of the whole rendering whatever
   the size; the window keeps its first `size - 1` characters and a NUL, and nothing outside
   the window changes. The source's `int` count must not overflow.
   */
  method Vsnprintf(buf: array<char>, at: nat, size: nat, fmt: CString, args: seq<Arg>) returns (n: nat)
    requires size >= 1 && at + size <= buf.Length
    requires Render(fmt, args).Some? && |Render(fmt, args).value| <= INT_MAX
    modifies buf
    ensures n == |Render(fmt, args).value|
    ensures buf[..] == Printed(old(buf[..]), at, size, Render(fmt, args).value)
  {
    ghost var orig, whole := buf[..], Render(fmt, args).value;
    assert [] + whole == whole;
    var be := at + size - 1;
    var bp;
    bp, n := FormatLoop(buf, be, at, fmt, args, orig, whole);
    Terminate(buf, be, bp, orig, at, whole);
  }
}
