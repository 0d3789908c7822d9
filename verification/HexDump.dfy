/**
 The hex dumper: rows of an index, sixteen hex cells and a text column that stops at a NUL
 byte, printed one after the other into a zeroed block; and a reader that gets the bytes back.
 */
module HexDump {
  import opened Words
  import opened Numerals

  const LINE_SIZE := 128
  const ROW_BYTES := 16

  // ---------------------------------------------------------------------------
  // The text of a dump
  // ---------------------------------------------------------------------------

  /** `%s`: everything before the first NUL. */
  function Cut(s: seq<char>): (r: seq<char>)
    ensures |r| <= |s| && '\0' !in r
    decreases s
  {
    if s == [] || s[0] == '\0' then [] else [s[0]] + Cut(s[1..])
  }

  function Chars(row: seq<uint8>): (s: seq<char>)
    ensures |s| == |row|
  {
    seq(|row|, i requires 0 <= i < |row| => row[i] as char)
  }

  /** `%02x ` */
  function Cell(b: uint8): seq<char> {
    Text(b, 16, false, 2) + [' ']
  }

  function Cells(row: seq<uint8>): seq<char>
    decreases row
  {
    if row == [] then [] else Cells(row[..|row| - 1]) + Cell(row[|row| - 1])
  }

  /** Missing bytes are blanked out in every row but the first. */
  function Missing(j: nat, row: seq<uint8>): nat {
    if j == 0 || |row| >= ROW_BYTES then 0 else ROW_BYTES - |row|
  }

  function RowText(j: nat, row: seq<uint8>): seq<char> {
    Cut(Chars(row) + Repeat(' ', Missing(j, row)))
  }

  function Index(j: nat): seq<char> {
    Text(j, 16, false, 8) + [' ', ' ']
  }

  function Column(j: nat, row: seq<uint8>): seq<char> {
    [' ', '|'] + RowText(j, row) + ['|', '\n']
  }

  /** Everything of a row after its cells. */
  function RowEnd(j: nat, row: seq<uint8>): seq<char> {
    Repeat(' ', 3 * Missing(j, row)) + Column(j, row)
  }

  function Row(j: nat, row: seq<uint8>): seq<char> {
    Index(j) + (Cells(row) + RowEnd(j, row))
  }

  function RowCount(len: nat): nat {
    if len % ROW_BYTES == 0 then len / ROW_BYTES else len / ROW_BYTES + 1
  }

  lemma RowCountRoundsUp(len: nat)
    ensures RowCount(len) == (len + 15) / 16
  {
  }

  /** The input cut into rows of 16 bytes, the last one possibly shorter. */
  function Chunks(data: seq<uint8>): (cs: seq<seq<uint8>>)
    ensures forall i :: 0 <= i < |cs| ==> 0 < |cs[i]| <= ROW_BYTES
    decreases data
  {
    if data == [] then []
    else if |data| <= ROW_BYTES then [data]
    else [data[..ROW_BYTES]] + Chunks(data[ROW_BYTES..])
  }

  /** The lines of the dump. */
  function Lines(data: seq<uint8>): (ls: seq<seq<char>>)
    ensures |ls| == |Chunks(data)|
    ensures forall i :: 0 <= i < |ls| ==> ls[i] == Row(i, Chunks(data)[i])
  {
    seq(|Chunks(data)|, i requires 0 <= i < |Chunks(data)| => Row(i, Chunks(data)[i]))
  }

  function Flatten<T>(ls: seq<seq<T>>): seq<T>
    decreases ls
  {
    if ls == [] then [] else ls[0] + Flatten(ls[1..])
  }

  /** The whole dump; its last newline becomes the closing NUL. */
  function Dump(data: seq<uint8>): (s: seq<char>) {
    var all := Flatten(Lines(data));
    if all == [] then [] else all[..|all| - 1]
  }

  lemma SliceOfRest(data: seq<uint8>, from: nat, to: nat)
    requires ROW_BYTES + from <= ROW_BYTES + to <= |data|
    ensures data[ROW_BYTES..][from..to] == data[ROW_BYTES + from..ROW_BYTES + to]
  {
  }

  lemma FirstChunk(data: seq<uint8>)
    requires data != []
    ensures Chunks(data)[0] == data[..Min(|data|, ROW_BYTES)]
    ensures Chunks(data)[1..] == if |data| <= ROW_BYTES then [] else Chunks(data[ROW_BYTES..])
  {
    assert data[..|data|] == data;
  }

  lemma {:induction false} ChunksAreSlices(data: seq<uint8>, j: nat)
    requires j < |Chunks(data)|
    ensures ROW_BYTES * j < |data|
    ensures Chunks(data)[j]
            == data[ROW_BYTES * j..if ROW_BYTES * j + ROW_BYTES <= |data| then ROW_BYTES * j + ROW_BYTES else |data|]
    decreases j
  {
    FirstChunk(data);
    if j == 0 {
    } else {
      var rest := data[ROW_BYTES..];
      assert Chunks(data)[j] == Chunks(data)[1..][j - 1];
      ChunksAreSlices(rest, j - 1);
      var from := ROW_BYTES * (j - 1);
      SliceOfRest(data, from, if from + ROW_BYTES <= |rest| then from + ROW_BYTES else |rest|);
    }
  }

  lemma {:induction false} ChunkCount(data: seq<uint8>)
    ensures |Chunks(data)| == RowCount(|data|)
    decreases data
  {
    if |data| <= ROW_BYTES {
    } else {
      ChunkCount(data[ROW_BYTES..]);
    }
  }

  lemma {:induction false} ChunksJoin(data: seq<uint8>)
    ensures Flatten(Chunks(data)) == data
    decreases data
  {
    if |data| > ROW_BYTES {
      ChunksJoin(data[ROW_BYTES..]);
      assert Chunks(data)[1..] == Chunks(data[ROW_BYTES..]);
      assert data[..ROW_BYTES] + data[ROW_BYTES..] == data;
    } else if data != [] {
      assert Chunks(data)[1..] == [];
      assert data + [] == data;
    }
  }

  lemma {:induction false} FlattenSnoc<T>(ls: seq<seq<T>>, l: seq<T>)
    ensures Flatten(ls + [l]) == Flatten(ls) + l
    decreases ls
  {
    var all := ls + [l];
    if ls == [] {
      assert all[1..] == [];
      assert Flatten(all) == l + [];
    } else {
      assert all[1..] == ls[1..] + [l];
      FlattenSnoc(ls[1..], l);
      assert ls[0] + (Flatten(ls[1..]) + l) == ls[0] + Flatten(ls[1..]) + l;
    }
  }

  lemma {:induction false} HexDigitsFit(num: nat, n: nat)
    requires num < Pow2(4 * n)
    ensures |Digits(num, 16, false)| <= n
    decreases n
  {
    if num == 0 {
    } else {
      Pow2Four(4 * (n - 1));
      HexDigitsFit(num / 16, n - 1);
    }
  }

  lemma ByteText(b: uint8)
    ensures |Text(b, 16, false, 2)| == 2
  {
    assert Pow2(8) == 0x100;
    HexDigitsFit(b, 2);
  }

  lemma {:induction false} CellLengths(row: seq<uint8>)
    ensures |Cells(row)| == 3 * |row|
    decreases row
  {
    if row == [] {
    } else {
      CellLengths(row[..|row| - 1]);
      ByteText(row[|row| - 1]);
    }
  }

  /** Row numbers fit seven hex digits, so eight columns always hold them. */
  lemma IndexText(j: nat)
    requires j * LINE_SIZE <= INT_MAX
    ensures |Index(j)| == 10 && '\0' !in Index(j) && Value(Index(j)[..8], 16) == j
  {
    assert Pow2(10) == 0x400;
    assert Pow2(20) == 0x10_0000;
    assert Pow2(24) == 0x100_0000;
    HexDigitsFit(j, 6);
    TextReadsBack(j, 16, false, 8);
    assert Index(j)[..8] == Text(j, 16, false, 8);
  }

  /** A row takes at most 78 characters. */
  lemma RowLength(j: nat, row: seq<uint8>)
    requires j * LINE_SIZE <= INT_MAX && |row| <= ROW_BYTES
    ensures |Row(j, row)| == 14 + 3 * (|row| + Missing(j, row)) + |RowText(j, row)| <= 78
  {
    IndexText(j);
    CellLengths(row);
  }

  ghost predicate ShortLines(ls: seq<seq<char>>) {
    forall i :: 0 <= i < |ls| ==> 0 < |ls[i]| <= 78 && ls[i][|ls[i]| - 1] == '\n'
  }

  lemma LinesShort(data: seq<uint8>)
    requires RowCount(|data|) * LINE_SIZE <= INT_MAX
    ensures ShortLines(Lines(data)) && |Lines(data)| == RowCount(|data|)
  {
    ChunkCount(data);
    forall i | 0 <= i < |Lines(data)|
      ensures 0 < |Lines(data)[i]| <= 78 && Lines(data)[i][|Lines(data)[i]| - 1] == '\n'
    {
      RowLength(i, Chunks(data)[i]);
    }
  }

  /** Whole rows take at most 78 characters each. */
  lemma {:induction false} FlattenLength(ls: seq<seq<char>>)
    requires ShortLines(ls)
    ensures |Flatten(ls)| <= 78 * |ls|
    ensures ls != [] ==> Flatten(ls) != [] && Flatten(ls)[|Flatten(ls)| - 1] == '\n'
    decreases ls
  {
    if ls == [] {
    } else {
      FlattenLength(ls[1..]);
    }
  }

  // ---------------------------------------------------------------------------
  // Reading a dump
  // ---------------------------------------------------------------------------

  predicate IsHex(c: char) {
    0 <= DigitVal(c) < 16
  }

  /** Up to n cells: two hex digits and a blank each. */
  function ReadCells(t: seq<char>, n: nat): (r: (seq<uint8>, seq<char>))
    ensures |r.0| <= n && |r.1| <= |t|
    decreases n
  {
    if n == 0 || |t| < 3 || !IsHex(t[0]) || !IsHex(t[1]) || t[2] != ' ' then ([], t)
    else
      var b: uint8 := DigitVal(t[0]) * 16 + DigitVal(t[1]);
      var r := ReadCells(t[3..], n - 1);
      ([b] + r.0, r.1)
  }

  /** Length of the text column, from the bytes alone. */
  function TextLength(row: seq<uint8>): nat
    decreases row
  {
    if row == [] then 0 else if row[0] == 0 then 0 else 1 + TextLength(row[1..])
  }

  /** A NUL byte ends the column; otherwise blanks fill it, except in the first row. */
  function ColumnLength(j: nat, row: seq<uint8>): nat {
    var n := TextLength(row);
    if n < |row| then n else |row| + Missing(j, row)
  }

  /** Reads rows from number j on; each ends with a newline. */
  function ReadRows(t: seq<char>, j: nat): Option<seq<uint8>>
    decreases |t|
  {
    if t == [] then Some([])
    else if |t| < 10 || Value(t[..8], 16) != j then None
    else
      var (row, rest) := ReadCells(t[10..], ROW_BYTES);
      var skip := 3 * Missing(j, row) + 2 + ColumnLength(j, row) + 2;
      if |rest| < skip then None
      else
        match ReadRows(rest[skip..], j + 1)
        case None => None
        case Some(more) => Some(row + more)
  }

  function Read(t: seq<char>): Option<seq<uint8>> {
    ReadRows(t + ['\n'], 0)
  }

  // ---------------------------------------------------------------------------
  // The round trip
  // ---------------------------------------------------------------------------

  lemma TwoDigitValue(t: seq<char>)
    requires |t| == 2
    ensures Value(t, 16) == DigitVal(t[0]) * 16 + DigitVal(t[1])
  {
    var front := t[..1];
    assert front[..0] == [];
    assert Value(front, 16) == DigitVal(t[0]);
  }

  lemma CellReads(b: uint8)
    ensures var c := Cell(b);
            |c| == 3 && IsHex(c[0]) && IsHex(c[1]) && c[2] == ' ' && DigitVal(c[0]) * 16 + DigitVal(c[1]) == b
  {
    var t := Text(b, 16, false, 2);
    ByteText(b);
    TextReadsBack(b, 16, false, 2);
    TwoDigitValue(t);
  }

  lemma CellsOneMore(row: seq<uint8>, b: uint8)
    ensures Cells(row + [b]) == Cells(row) + Cell(b)
  {
    assert (row + [b])[..|row + [b]| - 1] == row;
  }

  lemma CellsAround(b: uint8, front: seq<uint8>, last: uint8)
    requires Cells([b] + front) == Cell(b) + Cells(front)
    ensures Cells([b] + front + [last]) == Cell(b) + Cells(front + [last])
  {
    CellsOneMore([b] + front, last);
    CellsOneMore(front, last);
    ConcatAssociates(Cell(b), Cells(front), Cell(last));
  }

  lemma {:induction false} CellsFront(b: uint8, row: seq<uint8>)
    ensures Cells([b] + row) == Cell(b) + Cells(row)
    decreases row
  {
    if row == [] {
      CellsOneMore([], b);
      assert [] + [b] == [b] + row;
      NothingAdded(Cell(b));
    } else {
      var front, last := row[..|row| - 1], row[|row| - 1];
      CellsFront(b, front);
      assert front + [last] == row && [b] + front + [last] == [b] + row;
      CellsAround(b, front, last);
    }
  }

  lemma ReadOneCell(b: uint8, more: seq<char>, n: nat, row: seq<uint8>, rest: seq<char>)
    requires n > 0 && ReadCells(more, n - 1) == (row, rest)
    ensures ReadCells(Cell(b) + more, n) == ([b] + row, rest)
  {
    CellReads(b);
    assert (Cell(b) + more)[3..] == more;
  }

  lemma SplitCells(row: seq<uint8>, cells: seq<char>, rest: seq<char>)
      returns (b: uint8, tail: seq<uint8>, more: seq<char>)
    requires row != [] && cells == Cells(row)
    ensures row == [b] + tail && more == Cells(tail) && cells + rest == Cell(b) + (more + rest)
  {
    b, tail := row[0], row[1..];
    more := Cells(tail);
    assert row == [b] + tail;
    CellsFront(b, tail);
    ConcatAssociates(Cell(b), more, rest);
  }

  lemma NoCells(n: nat, rest: seq<char>)
    requires n == 0 || (rest != [] && !IsHex(rest[0]))
    ensures ReadCells([] + rest, n) == ([], rest)
  {
    NothingAdded(rest);
  }

  lemma {:induction false} CellsRead(row: seq<uint8>, cells: seq<char>, n: nat, rest: seq<char>)
    requires |row| <= n && (|row| == n || (rest != [] && !IsHex(rest[0]))) && cells == Cells(row)
    ensures ReadCells(cells + rest, n) == (row, rest)
    decreases n
  {
    if row == [] {
      NoCells(n, rest);
    } else {
      var b, tail, more := SplitCells(row, cells, rest);
      CellsRead(tail, more, n - 1, rest);
      ReadOneCell(b, more + rest, n, tail, rest);
    }
  }

  lemma {:induction false} CutBlanks(pad: nat)
    ensures Cut(Repeat(' ', pad)) == Repeat(' ', pad)
    decreases pad
  {
    if pad == 0 {
    } else {
      RepeatFront(' ', pad - 1);
      CutBlanks(pad - 1);
    }
  }

  lemma {:induction false} ColumnIsCut(row: seq<uint8>, pad: nat)
    ensures |Cut(Chars(row) + Repeat(' ', pad))|
            == if TextLength(row) < |row| then TextLength(row) else |row| + pad
    decreases row
  {
    var s := Chars(row) + Repeat(' ', pad);
    if row == [] {
      assert s == Repeat(' ', pad);
      CutBlanks(pad);
    } else {
      assert s[1..] == Chars(row[1..]) + Repeat(' ', pad);
      ColumnIsCut(row[1..], pad);
      assert s[0] == row[0] as char;
    }
  }

  lemma {:induction false} CutIsPrefix(s: seq<char>)
    ensures Cut(s) <= s
    decreases s
  {
    if s == [] {
    } else {
      CutIsPrefix(s[1..]);
    }
  }

  /** The text column shows the bytes themselves, then blanks. */
  lemma {:induction false} ColumnShowsBytes(j: nat, row: seq<uint8>, k: nat)
    requires k < |RowText(j, row)|
    ensures |RowText(j, row)| == ColumnLength(j, row)
    ensures RowText(j, row)[k] == if k < |row| then row[k] as char else ' '
  {
    ColumnIsCut(row, Missing(j, row));
    var s := Chars(row) + Repeat(' ', Missing(j, row));
    CutIsPrefix(s);
    assert Cut(s)[k] == s[k];
  }

  lemma RowEndLength(j: nat, row: seq<uint8>)
    ensures |RowEnd(j, row)| == 3 * Missing(j, row) + 2 + ColumnLength(j, row) + 2
    ensures RowEnd(j, row)[0] == ' '
  {
    ColumnIsCut(row, Missing(j, row));
  }

  function Prepend(row: seq<uint8>, r: Option<seq<uint8>>): Option<seq<uint8>> {
    match r
    case None => None
    case Some(more) => Some(row + more)
  }

  lemma RowParts(j: nat, row: seq<uint8>, rest: seq<char>)
    requires |Index(j)| == 10
    ensures var t := Row(j, row) + rest;
            |t| >= 10 && t[..8] == Index(j)[..8] && t[10..] == Cells(row) + (RowEnd(j, row) + rest)
  {
    var end := RowEnd(j, row);
    ConcatAssociates(Index(j), Cells(row) + end, rest);
    ConcatAssociates(Cells(row), end, rest);
    var t := Index(j) + (Cells(row) + (end + rest));
    assert t[10..] == Cells(row) + (end + rest);
  }

  /** The reader takes a row off the front and goes on with the next. */
  lemma RowReads(j: nat, row: seq<uint8>, rest: seq<char>)
    requires j * LINE_SIZE <= INT_MAX && |row| <= ROW_BYTES
    ensures ReadRows(Row(j, row) + rest, j) == Prepend(row, ReadRows(rest, j + 1))
  {
    var end := RowEnd(j, row);
    IndexText(j);
    RowEndLength(j, row);
    RowParts(j, row, rest);
    CellsRead(row, Cells(row), ROW_BYTES, end + rest);
    assert (end + rest)[|end|..] == rest;
  }

  /** `ls` are the printed rows of `cs`, numbered from k. */
  ghost predicate RowsOf(ls: seq<seq<char>>, cs: seq<seq<uint8>>, k: nat) {
    |ls| == |cs| && forall i :: 0 <= i < |ls| ==> ls[i] == Row(k + i, cs[i]) && |cs[i]| <= ROW_BYTES
  }

  lemma {:induction false} RowsRead(ls: seq<seq<char>>, cs: seq<seq<uint8>>, k: nat)
    requires RowsOf(ls, cs, k) && (k + |ls|) * LINE_SIZE <= INT_MAX
    ensures ReadRows(Flatten(ls), k) == Some(Flatten(cs))
    decreases ls
  {
    if ls == [] {
    } else {
      assert ls[0] == Row(k + 0, cs[0]);
      RowReads(k, cs[0], Flatten(ls[1..]));
      RowsRead(ls[1..], cs[1..], k + 1);
    }
  }

  lemma AllRowsRead(data: seq<uint8>)
    requires RowCount(|data|) * LINE_SIZE <= INT_MAX
    ensures ReadRows(Flatten(Lines(data)), 0) == Some(data)
  {
    ChunkCount(data);
    RowsRead(Lines(data), Chunks(data), 0);
    ChunksJoin(data);
  }

  lemma NewlineBack(all: seq<char>)
    requires all != [] && all[|all| - 1] == '\n'
    ensures all[..|all| - 1] + ['\n'] == all
  {
  }

  lemma DumpOfLines(data: seq<uint8>)
    requires data != [] && RowCount(|data|) * LINE_SIZE <= INT_MAX
    ensures Dump(data) + ['\n'] == Flatten(Lines(data))
  {
    LinesShort(data);
    FlattenLength(Lines(data));
    NewlineBack(Flatten(Lines(data)));
  }

  /** Reading a dump gives back every byte, NULs, newlines and bars included. */
  lemma DumpReadsBack(data: seq<uint8>)
    requires data != [] && RowCount(|data|) * LINE_SIZE <= INT_MAX
    ensures Read(Dump(data)) == Some(data)
  {
    DumpOfLines(data);
    AllRowsRead(data);
  }

  /** Different inputs have different dumps. */
  lemma DumpInjective(a: seq<uint8>, b: seq<uint8>)
    requires a != [] && b != [] && Dump(a) == Dump(b)
    requires RowCount(|a|) * LINE_SIZE <= INT_MAX && RowCount(|b|) * LINE_SIZE <= INT_MAX
    ensures a == b
  {
    DumpReadsBack(a);
    DumpReadsBack(b);
  }

  // ---------------------------------------------------------------------------
  // What stands where
  // ---------------------------------------------------------------------------

  /** Input row j: 16 bytes, or what is left of them. */
  function RowBytes(data: seq<uint8>, j: nat): seq<uint8>
    requires 16 * j < |data|
  {
    data[16 * j..if 16 * j + 16 <= |data| then 16 * j + 16 else |data|]
  }

  /** Cells of row j: a later row is filled up to 16 with blanks. */
  function CellCount(j: nat, row: seq<uint8>): nat {
    if j == 0 then |row| else 16
  }

  /** Characters in the text column of row j. */
  function ShownLength(j: nat, row: seq<uint8>): nat {
    if TextLength(row) < |row| then TextLength(row)
    else if j == 0 || |row| >= 16 then |row| else 16
  }

  function LineLength(j: nat, row: seq<uint8>): nat {
    10 + 3 * CellCount(j, row) + 4 + ShownLength(j, row)
  }

  /** Where row j of the dump starts, counted from the bytes of the rows before it. */
  function LineStart(data: seq<uint8>, j: nat): nat
    requires 16 * j < |data| + 16
    decreases j
  {
    if j == 0 then 0 else LineStart(data, j - 1) + LineLength(j - 1, RowBytes(data, j - 1))
  }

  predicate LowerHex(c: char) {
    '0' <= c <= '9' || 'a' <= c <= 'f'
  }

  ghost predicate Numbers(digits: seq<char>, j: nat) {
    |digits| == 8 && Value(digits, 16) == j && forall k :: 0 <= k < 8 ==> LowerHex(digits[k])
  }

  /** Eight hex digits of the row number, and two blanks. */
  ghost predicate IndexAt(t: seq<char>, at: nat, j: nat)
    requires at + 10 <= |t|
  {
    Numbers(t[at..at + 8], j) && t[at + 8] == ' ' && t[at + 9] == ' '
  }

  /** Cell k: two hex digits of a byte, or two blanks where there is none, and a blank. */
  ghost predicate CellAt(t: seq<char>, cells: nat, row: seq<uint8>, k: nat)
    requires cells + 3 * k + 3 <= |t|
  {
    var at := cells + 3 * k;
    && (if k < |row| then
          LowerHex(t[at]) && LowerHex(t[at + 1]) && 16 * DigitVal(t[at]) + DigitVal(t[at + 1]) == row[k]
        else t[at] == ' ' && t[at + 1] == ' ')
    && t[at + 2] == ' '
  }

  /** A blank, a bar, the bytes up to the first NUL and the blanks that fill up the row, a bar, a newline. */
  ghost predicate ColumnAt(t: seq<char>, at: nat, j: nat, row: seq<uint8>)
    requires at + 4 + ShownLength(j, row) <= |t|
  {
    var n := ShownLength(j, row);
    var text := t[at + 2..at + 2 + n];
    && t[at] == ' ' && t[at + 1] == '|'
    && (forall k :: 0 <= k < n ==> text[k] == if k < |row| then row[k] as char else ' ')
    && t[at + 2 + n] == '|' && t[at + 3 + n] == '\n'
  }

  ghost predicate CellsAt(t: seq<char>, cells: nat, row: seq<uint8>, n: nat)
    requires cells + 3 * n <= |t|
  {
    forall k :: 0 <= k < n ==> CellAt(t, cells, row, k)
  }

  /** Row j, character by character, from position `at` on. */
  ghost predicate LineAt(t: seq<char>, at: nat, j: nat, row: seq<uint8>) {
    && at + LineLength(j, row) <= |t|
    && IndexAt(t, at, j)
    && CellsAt(t, at + 10, row, CellCount(j, row))
    && ColumnAt(t, at + 10 + 3 * CellCount(j, row), j, row)
  }

  lemma IndexShape(j: nat)
    requires j * LINE_SIZE <= INT_MAX
    ensures |Index(j)| == 10 && IndexAt(Index(j), 0, j)
  {
    IndexText(j);
    TextCase(j, 16, false, 8);
    var digits := Index(j)[..8];
    forall k | 0 <= k < 8 ensures LowerHex(digits[k]) {
      assert InCase(digits[k], false);
    }
  }

  lemma CellShape(b: uint8)
    ensures |Cell(b)| == 3 && CellAt(Cell(b), 0, [b], 0)
  {
    CellReads(b);
    TextCase(b, 16, false, 2);
    assert InCase(Cell(b)[0], false) && InCase(Cell(b)[1], false);
  }

  lemma CellKept(cells: seq<char>, cell: seq<char>, front: seq<uint8>, last: uint8, k: nat)
    requires |cells| == 3 * |front| && k < |front| && CellAt(cells, 0, front, k)
    ensures CellAt(cells + cell, 0, front + [last], k)
  {
  }

  lemma CellAdded(cells: seq<char>, cell: seq<char>, front: seq<uint8>, last: uint8)
    requires |cells| == 3 * |front| && |cell| == 3 && CellAt(cell, 0, [last], 0)
    ensures CellAt(cells + cell, 0, front + [last], |front|)
  {
    var all, at := cells + cell, 3 * |front|;
    assert all[at] == cell[0] && all[at + 1] == cell[1] && all[at + 2] == cell[2];
  }

  lemma {:induction false} CellsShape(row: seq<uint8>, k: nat)
    requires k < |row|
    ensures |Cells(row)| == 3 * |row| && CellAt(Cells(row), 0, row, k)
    decreases row
  {
    var front, last := row[..|row| - 1], row[|row| - 1];
    assert row == front + [last];
    CellLengths(row);
    CellLengths(front);
    if k == |front| {
      CellShape(last);
      CellAdded(Cells(front), Cell(last), front, last);
    } else {
      CellsShape(front, k);
      CellKept(Cells(front), Cell(last), front, last, k);
    }
  }

  lemma MissingCells(j: nat, row: seq<uint8>)
    requires |row| <= 16
    ensures |row| + Missing(j, row) == CellCount(j, row) && ColumnLength(j, row) == ShownLength(j, row)
  {
  }

  lemma PartOf(a: seq<char>, b: seq<char>, c: seq<char>, t: seq<char>)
    requires t == a + b + c
    ensures t[0..0 + |a|] == a && t[|a|..|a| + |b|] == b && t[|a| + |b|..|a| + |b| + |c|] == c
  {
  }

  lemma ColumnShape(j: nat, row: seq<uint8>)
    requires |row| <= 16
    ensures |Column(j, row)| == 4 + ShownLength(j, row) && ColumnAt(Column(j, row), 0, j, row)
  {
    var text := RowText(j, row);
    MissingCells(j, row);
    ColumnIsCut(row, Missing(j, row));
    PartOf([' ', '|'], text, ['|', '\n'], Column(j, row));
    forall k | 0 <= k < |text| ensures text[k] == if k < |row| then row[k] as char else ' ' {
      ColumnShowsBytes(j, row, k);
    }
  }

  lemma RowInParts(j: nat, row: seq<uint8>, cells: seq<char>)
    requires cells == Cells(row) + Repeat(' ', 3 * Missing(j, row))
    ensures Row(j, row) == Index(j) + cells + Column(j, row)
  {
    var blanks := Repeat(' ', 3 * Missing(j, row));
    ConcatAssociates(Cells(row), blanks, Column(j, row));
    ConcatAssociates(Index(j), cells, Column(j, row));
  }

  lemma CellsOrBlanks(j: nat, row: seq<uint8>, cells: seq<char>, k: nat)
    requires |row| <= 16 && cells == Cells(row) + Repeat(' ', 3 * Missing(j, row)) && k < CellCount(j, row)
    ensures |cells| == 3 * CellCount(j, row) && CellAt(cells, 0, row, k)
  {
    CellLengths(row);
    MissingCells(j, row);
    if k < |row| {
      CellsShape(row, k);
    }
  }

  lemma CellsMove(line: seq<char>, t: seq<char>, at: nat, cells: nat, to: nat, row: seq<uint8>, n: nat)
    requires at + |line| <= |t| && t[at..at + |line|] == line && cells + 3 * n <= |line| && to == at + cells
    requires CellsAt(line, cells, row, n)
    ensures CellsAt(t, to, row, n)
  {
    forall k | 0 <= k < n ensures CellAt(t, to, row, k) {
      var i := cells + 3 * k;
      assert CellAt(line, cells, row, k);
      assert t[at + i] == line[i] && t[at + i + 1] == line[i + 1] && t[at + i + 2] == line[i + 2];
    }
  }

  lemma SliceMoves(line: seq<char>, t: seq<char>, at: nat, i: nat, m: nat)
    requires at + |line| <= |t| && t[at..at + |line|] == line && i + m <= |line|
    ensures t[at + i..at + i + m] == line[i..i + m]
  {
    var part := t[at + i..at + i + m];
    forall k | 0 <= k < m ensures part[k] == line[i..i + m][k] {
      assert t[at..at + |line|][i + k] == t[at + i + k];
    }
  }

  lemma IndexMoves(line: seq<char>, t: seq<char>, at: nat, from: nat, to: nat, j: nat)
    requires at + |line| <= |t| && t[at..at + |line|] == line && from + 10 <= |line| && IndexAt(line, from, j)
    requires to == at + from
    ensures IndexAt(t, to, j)
  {
    SliceMoves(line, t, at, from, 8);
    assert t[to + 8] == line[from + 8] && t[to + 9] == line[from + 9];
  }

  lemma ColumnMoves(line: seq<char>, t: seq<char>, at: nat, from: nat, to: nat, j: nat, row: seq<uint8>)
    requires at + |line| <= |t| && t[at..at + |line|] == line && from + 4 + ShownLength(j, row) <= |line|
    requires ColumnAt(line, from, j, row) && to == at + from
    ensures ColumnAt(t, to, j, row)
  {
    var n := ShownLength(j, row);
    assert t[to] == line[from] && t[to + 1] == line[from + 1];
    SliceMoves(line, t, at, from + 2, n);
    assert t[to + 2 + n] == line[from + 2 + n] && t[to + 3 + n] == line[from + 3 + n];
  }

  lemma CellsShown(j: nat, row: seq<uint8>, cells: seq<char>)
    requires |row| <= 16 && cells == Cells(row) + Repeat(' ', 3 * Missing(j, row))
    ensures |cells| == 3 * CellCount(j, row) && CellsAt(cells, 0, row, CellCount(j, row))
  {
    CellLengths(row);
    MissingCells(j, row);
    forall k | 0 <= k < CellCount(j, row) ensures CellAt(cells, 0, row, k) {
      CellsOrBlanks(j, row, cells, k);
    }
  }

  lemma PartsShown(index: seq<char>, cells: seq<char>, column: seq<char>, t: seq<char>, j: nat, row: seq<uint8>)
    requires t == index + cells + column && |index| == 10 && IndexAt(index, 0, j)
    requires |cells| == 3 * CellCount(j, row) && CellsAt(cells, 0, row, CellCount(j, row))
    requires |column| == 4 + ShownLength(j, row) && ColumnAt(column, 0, j, row)
    ensures |t| == LineLength(j, row) && LineAt(t, 0, j, row)
  {
    PartOf(index, cells, column, t);
    IndexMoves(index, t, 0, 0, 0, j);
    CellsMove(cells, t, 10, 0, 10, row, CellCount(j, row));
    ColumnMoves(column, t, 10 + |cells|, 0, 10 + |cells|, j, row);
  }

  /** A row is what `LineAt` says. */
  lemma RowShape(j: nat, row: seq<uint8>)
    requires j * LINE_SIZE <= INT_MAX && |row| <= 16
    ensures |Row(j, row)| == LineLength(j, row) && LineAt(Row(j, row), 0, j, row)
  {
    var cells := Cells(row) + Repeat(' ', 3 * Missing(j, row));
    IndexShape(j);
    CellsShown(j, row, cells);
    ColumnShape(j, row);
    RowInParts(j, row, cells);
    PartsShown(Index(j), cells, Column(j, row), Row(j, row), j, row);
  }

  lemma LineMoves(line: seq<char>, t: seq<char>, at: nat, j: nat, row: seq<uint8>)
    requires LineAt(line, 0, j, row) && |line| == LineLength(j, row)
    requires at + |line| <= |t| && t[at..at + |line|] == line
    ensures LineAt(t, at, j, row)
  {
    var n := CellCount(j, row);
    IndexMoves(line, t, at, 0, at, j);
    CellsMove(line, t, at, 10, at + 10, row, n);
    ColumnMoves(line, t, at, 10 + 3 * n, at + 10 + 3 * n, j, row);
  }

  lemma {:induction false} FlattenAt(ls: seq<seq<char>>, j: nat)
    requires j < |ls|
    ensures var at := |Flatten(ls[..j])|;
            at + |ls[j]| <= |Flatten(ls)| && Flatten(ls)[at..at + |ls[j]|] == ls[j]
    decreases ls
  {
    if j == 0 {
      assert ls[..0] == [];
    } else {
      var rest := ls[1..];
      FlattenAt(rest, j - 1);
      assert ls[..j] == [ls[0]] + rest[..j - 1];
      assert ls[..j][1..] == rest[..j - 1];
    }
  }

  /** Line j shows row j of the input. */
  ghost predicate ShowsRow(data: seq<uint8>, line: seq<char>, j: nat) {
    16 * j < |data| && |line| == LineLength(j, RowBytes(data, j)) && LineAt(line, 0, j, RowBytes(data, j))
  }

  ghost predicate ShowRows(data: seq<uint8>, ls: seq<seq<char>>) {
    && (forall j :: 0 <= j < |ls| ==> ShowsRow(data, ls[j], j))
    && 16 * |ls| >= |data|
  }

  lemma LinesShowRows(data: seq<uint8>)
    requires RowCount(|data|) * LINE_SIZE <= INT_MAX
    ensures ShowRows(data, Lines(data))
  {
    ChunkCount(data);
    forall j | 0 <= j < |Lines(data)| ensures ShowsRow(data, Lines(data)[j], j) {
      ChunksAreSlices(data, j);
      RowShape(j, RowBytes(data, j));
    }
  }

  lemma FlattenStep(ls: seq<seq<char>>, j: nat)
    requires j < |ls|
    ensures |Flatten(ls[..j + 1])| == |Flatten(ls[..j])| + |ls[j]|
  {
    assert ls[..j + 1] == ls[..j] + [ls[j]];
    FlattenSnoc(ls[..j], ls[j]);
  }

  lemma {:induction false} StartOfLine(data: seq<uint8>, ls: seq<seq<char>>, j: nat)
    requires ShowRows(data, ls) && j <= |ls|
    ensures 16 * j < |data| + 16 && |Flatten(ls[..j])| == LineStart(data, j)
    decreases j
  {
    if j == 0 {
    } else {
      StartOfLine(data, ls, j - 1);
      assert ShowsRow(data, ls[j - 1], j - 1);
      FlattenStep(ls, j - 1);
    }
  }

  lemma LineInAll(ls: seq<seq<char>>, all: seq<char>, at: nat, j: nat, row: seq<uint8>)
    requires j < |ls| && all == Flatten(ls) && at == |Flatten(ls[..j])|
    requires |ls[j]| == LineLength(j, row) && LineAt(ls[j], 0, j, row)
    ensures LineAt(all, at, j, row)
  {
    FlattenAt(ls, j);
    LineMoves(ls[j], all, at, j, row);
  }

  lemma RowInLines(data: seq<uint8>, ls: seq<seq<char>>, all: seq<char>, j: nat)
    requires ShowRows(data, ls) && all == Flatten(ls) && 16 * j < |data|
    ensures LineAt(all, LineStart(data, j), j, RowBytes(data, j))
  {
    assert ShowsRow(data, ls[j], j);
    StartOfLine(data, ls, j);
    LineInAll(ls, all, LineStart(data, j), j, RowBytes(data, j));
  }

  lemma EndOfLines(data: seq<uint8>, ls: seq<seq<char>>, all: seq<char>, j: nat)
    requires ShowRows(data, ls) && all == Flatten(ls) && 16 * j < |data| <= 16 * j + 16
    ensures |all| == LineStart(data, j + 1)
  {
    StartOfLine(data, ls, |ls|);
    assert ls[..|ls|] == ls;
  }

  /**
   Every character of a dump: row j starts where the rows before it end, and shows the row's number,
   its bytes in hex, and its text. The closing NUL takes the place of the last newline.
   */
  lemma DumpShows(data: seq<uint8>, j: nat)
    requires RowCount(|data|) * LINE_SIZE <= INT_MAX && 16 * j < |data|
    ensures LineAt(Dump(data) + ['\n'], LineStart(data, j), j, RowBytes(data, j))
    ensures 16 * j + 16 >= |data| ==> |Dump(data)| + 1 == LineStart(data, j + 1)
  {
    LinesShowRows(data);
    DumpOfLines(data);
    RowInLines(data, Lines(data), Dump(data) + ['\n'], j);
    if 16 * j + 16 >= |data| {
      EndOfLines(data, Lines(data), Dump(data) + ['\n'], j);
    }
  }

  // ---------------------------------------------------------------------------
  // The block
  // ---------------------------------------------------------------------------

  /** A zeroed block that starts with `out`. */
  ghost predicate Shown(mem: seq<char>, out: seq<char>) {
    |out| <= |mem| && mem == out + Repeat('\0', |mem| - |out|)
  }

  lemma SprintOneMore(out: seq<char>, text: seq<char>, zeros: seq<char>, n: nat)
    requires n < |text| && n < |zeros|
    ensures (out + text[..n] + zeros[n..])[|out| + n := text[n]] == out + text[..n + 1] + zeros[n + 1..]
  {
  }

  /** `sprintf(&line[at], ...)` of a text with its NUL, which must fit. */
  method Sprint(line: array<char>, at: nat, text: seq<char>, ghost out: seq<char>) returns (len: nat)
    requires at == |out| && Shown(line[..], out) && at + |text| + 1 <= line.Length
    modifies line
    ensures len == |text| && Shown(line[..], out + text)
  {
    len := 0;
    ghost var zeros := Repeat('\0', line.Length - at);
    while len < |text|
      invariant 0 <= len <= |text|
      invariant line[..] == out + text[..len] + zeros[len..]
    {
      ghost var before := line[..];
      SprintOneMore(out, text, zeros, len);
      line[at + len] := text[len];
      assert line[..] == before[at + len := text[len]];
      len := len + 1;
    }
    ghost var before := line[..];
    line[at + len] := '\0';
    assert line[..] == before[at + len := '\0'] == before;
    assert text[..len] == text && zeros[len..] == Repeat('\0', line.Length - at - len);
  }

  lemma {:induction false} CutAtNul(a: seq<char>, b: seq<char>)
    requires b != [] && b[0] == '\0'
    ensures Cut(a + b) == Cut(a)
    decreases a
  {
    if a == [] {
      assert a + b == b;
    } else {
      assert (a + b)[1..] == a[1..] + b;
      CutAtNul(a[1..], b);
    }
  }

  /** What the text buffer holds once a row's characters are in it. */
  ghost predicate TextBuffer(buf: seq<char>, j: nat, row: seq<uint8>) {
    && |buf| == ROW_BYTES + 1 && |row| <= ROW_BYTES
    && var s := Chars(row) + Repeat(' ', Missing(j, row));
    buf[..|s|] == s && buf[|s|] == '\0'
  }

  lemma TextOfBuffer(buf: seq<char>, j: nat, row: seq<uint8>)
    requires TextBuffer(buf, j, row)
    ensures Cut(buf) == RowText(j, row)
  {
    var s := Chars(row) + Repeat(' ', Missing(j, row));
    assert buf == s + buf[|s|..];
    CutAtNul(s, buf[|s|..]);
  }

  // ---------------------------------------------------------------------------
  // The loops
  // ---------------------------------------------------------------------------

  /** A row after i turns of the inner loop. */
  function RowSoFar(j: nat, row: seq<uint8>, i: nat): seq<char> {
    Index(j) + Cells(row[..Min(i, |row|)]) + Repeat(' ', if j != 0 && i > |row| then 3 * (i - |row|) else 0)
  }

  /** What one turn of the inner loop prints. */
  function CellText(j: nat, row: seq<uint8>, i: nat): seq<char> {
    if i < |row| then Cell(row[i]) else if j != 0 then [' ', ' ', ' '] else []
  }

  lemma OneMoreCell(j: nat, row: seq<uint8>, i: nat)
    requires i < |row| <= ROW_BYTES
    ensures RowSoFar(j, row, i) + Cell(row[i]) == RowSoFar(j, row, i + 1)
  {
    CellsOneMore(row[..i], row[i]);
    assert row[..i] + [row[i]] == row[..i + 1];
    NothingAdded(Index(j) + Cells(row[..i]));
    NothingAdded(Index(j) + Cells(row[..i + 1]));
    ConcatAssociates(Index(j), Cells(row[..i]), Cell(row[i]));
  }

  lemma OneMoreBlank(j: nat, row: seq<uint8>, i: nat)
    requires |row| <= i && j != 0
    ensures RowSoFar(j, row, i) + [' ', ' ', ' '] == RowSoFar(j, row, i + 1)
  {
    var m := 3 * (i - |row|);
    assert Repeat(' ', m + 3) == Repeat(' ', m) + [' ', ' ', ' '];
    ConcatAssociates(Index(j) + Cells(row[..|row|]), Repeat(' ', m), [' ', ' ', ' ']);
  }

  lemma RowSoFarNext(j: nat, row: seq<uint8>, i: nat, out: seq<char>)
    requires i < ROW_BYTES && |row| <= ROW_BYTES
    ensures out + RowSoFar(j, row, i) + CellText(j, row, i) == out + RowSoFar(j, row, i + 1)
  {
    ConcatAssociates(out, RowSoFar(j, row, i), CellText(j, row, i));
    if i < |row| {
      OneMoreCell(j, row, i);
    } else if j != 0 {
      OneMoreBlank(j, row, i);
    } else {
      NothingAdded(RowSoFar(j, row, i));
    }
  }

  lemma RowStarts(j: nat, row: seq<uint8>)
    requires |row| <= ROW_BYTES
    ensures RowSoFar(j, row, 0) == Index(j)
  {
    assert row[..0] == [];
    NothingAdded(Index(j));
  }

  lemma RowEnds(j: nat, row: seq<uint8>)
    requires |row| <= ROW_BYTES
    ensures Row(j, row) == RowSoFar(j, row, ROW_BYTES) + Column(j, row)
  {
    var blanks := Repeat(' ', 3 * Missing(j, row));
    assert row[..|row|] == row;
    assert RowSoFar(j, row, ROW_BYTES) == Index(j) + Cells(row) + blanks;
    ConcatAssociates(Index(j), Cells(row), RowEnd(j, row));
    ConcatAssociates(Index(j) + Cells(row), blanks, Column(j, row));
  }

  lemma RowAfter(out: seq<char>, j: nat, row: seq<uint8>, text: seq<char>)
    requires |row| <= ROW_BYTES && text == Row(j, row)
    ensures out + RowSoFar(j, row, ROW_BYTES) + Column(j, row) == out + text
  {
    RowEnds(j, row);
    ConcatAssociates(out, RowSoFar(j, row, ROW_BYTES), Column(j, row));
  }

  /** The text buffer after i turns: old characters survive only in the first row, as NULs. */
  ghost predicate BufferSoFar(buf: seq<char>, j: nat, row: seq<uint8>, i: nat) {
    && |buf| == ROW_BYTES + 1 && buf[ROW_BYTES] == '\0'
    && forall k :: 0 <= k < ROW_BYTES ==>
         if k < i && k < |row| then buf[k] == row[k] as char
         else if j == 0 then buf[k] == '\0' else k < i ==> buf[k] == ' '
  }

  lemma BufferDone(buf: seq<char>, j: nat, row: seq<uint8>)
    requires |row| <= ROW_BYTES && BufferSoFar(buf, j, row, ROW_BYTES)
    ensures TextBuffer(buf, j, row)
  {
    var s := Chars(row) + Repeat(' ', Missing(j, row));
    assert |s| < |buf|;
    assert forall k :: 0 <= k < |s| ==> buf[k] == s[k];
    assert buf[..|s|] == s;
  }

  lemma SoFarLength(j: nat, row: seq<uint8>, i: nat)
    requires j * LINE_SIZE <= INT_MAX && i <= ROW_BYTES && |row| <= ROW_BYTES
    ensures |RowSoFar(j, row, i)| <= 58
  {
    IndexText(j);
    CellLengths(row[..Min(i, |row|)]);
  }

  /** Before turn i there is room for what the turn prints, and after the last turn for the row's end. */
  lemma TurnFits(j: nat, row: seq<uint8>, i: nat, out: seq<char>, shown: seq<char>)
    requires j * LINE_SIZE <= INT_MAX && i <= ROW_BYTES && |row| <= ROW_BYTES && shown == out + RowSoFar(j, row, i)
    ensures |shown| <= |out| + 58
    ensures i < ROW_BYTES ==> shown + CellText(j, row, i) == out + RowSoFar(j, row, i + 1)
  {
    SoFarLength(j, row, i);
    if i < ROW_BYTES {
      RowSoFarNext(j, row, i, out);
    }
  }

  /** `row` is the row of input bytes that starts at `pos`. */
  ghost predicate RowAt(addr: array<uint8>, len: nat, pos: nat, row: seq<uint8>)
    reads addr
  {
    && pos < len <= addr.Length && |row| == Min(ROW_BYTES, len - pos)
    && forall k :: 0 <= k < |row| ==> row[k] == addr[pos + k]
  }

  /** One turn of the inner loop. */
  method PrintCell(line: array<char>, at0: nat, buf: array<char>, addr: array<uint8>, len: nat, j: nat, pos: nat, i: nat,
                   ghost out: seq<char>, ghost row: seq<uint8>, ghost next: seq<char>) returns (at: nat)
    requires i < ROW_BYTES && RowAt(addr, len, pos, row) && next == out + CellText(j, row, i)
    requires at0 == |out| && Shown(line[..], out) && at0 + 4 <= line.Length
    requires buf != line && BufferSoFar(buf[..], j, row, i)
    modifies line, buf
    ensures at == |next| && Shown(line[..], next)
    ensures BufferSoFar(buf[..], j, row, i + 1)
  {
    at := at0;
    NothingAdded(out);
    if i + pos < len {
      CellReads(addr[i + pos]);
      var len1 := Sprint(line, at, Text(addr[i + pos], 16, false, 2) + [' '], out);
      at := at + len1;
      buf[i] := addr[i + pos] as char;
    } else if j != 0 {
      var len1 := Sprint(line, at, [' ', ' ', ' '], out);
      at := at + len1;
      buf[i] := ' ';
    }
  }

  /** The text column and the end of the line. */
  method PrintRowEnd(line: array<char>, at0: nat, buf: array<char>, ghost j: nat, ghost row: seq<uint8>, ghost out: seq<char>)
      returns (at: nat)
    requires |row| <= ROW_BYTES && BufferSoFar(buf[..], j, row, ROW_BYTES)
    requires at0 == |out| && Shown(line[..], out) && at0 + ROW_BYTES + 5 <= line.Length && buf != line
    modifies line
    ensures at == |out + Column(j, row)| && Shown(line[..], out + Column(j, row))
  {
    BufferDone(buf[..], j, row);
    TextOfBuffer(buf[..], j, row);
    var len1 := Sprint(line, at0, [' ', '|'] + Cut(buf[..]) + ['|', '\n'], out);
    at := at0 + len1;
  }

  /** The inner loop, after the index has been printed. */
  method PrintCells(line: array<char>, at0: nat, buf: array<char>, addr: array<uint8>, len: nat, j: nat, pos: nat,
                    ghost out: seq<char>, ghost row: seq<uint8>, ghost done: seq<char>) returns (at: nat)
    requires j * LINE_SIZE <= INT_MAX && RowAt(addr, len, pos, row) && done == out + RowSoFar(j, row, ROW_BYTES)
    requires at0 == |out + RowSoFar(j, row, 0)| && Shown(line[..], out + RowSoFar(j, row, 0))
    requires |out| + LINE_SIZE <= line.Length && buf != line && BufferSoFar(buf[..], j, row, 0)
    modifies line, buf
    ensures at == |done| && Shown(line[..], done) && BufferSoFar(buf[..], j, row, ROW_BYTES)
  {
    at := at0;
    ghost var shown := out + RowSoFar(j, row, 0);
    for i := 0 to ROW_BYTES
      invariant at == |shown| && shown == out + RowSoFar(j, row, i) && Shown(line[..], shown)
      invariant BufferSoFar(buf[..], j, row, i)
    {
      ghost var next := out + RowSoFar(j, row, i + 1);
      TurnFits(j, row, i, out, shown);
      at := PrintCell(line, at, buf, addr, len, j, pos, i, shown, row, next);
      shown := next;
    }
  }

  /** The body of the outer loop, for row number j, whose bytes start at `pos`. */
  method PrintRow(line: array<char>, at0: nat, buf: array<char>, addr: array<uint8>, len: nat, j: nat, pos: nat,
                  ghost out: seq<char>, ghost row: seq<uint8>, ghost text: seq<char>) returns (at: nat)
    requires at0 == |out| && Shown(line[..], out) && at0 + LINE_SIZE <= line.Length && buf != line
    requires j * LINE_SIZE <= INT_MAX && RowAt(addr, len, pos, row) && text == Row(j, row)
    requires BufferSoFar(buf[..], j, row, 0)
    modifies line, buf
    ensures at == |out + text| && Shown(line[..], out + text)
    ensures BufferSoFar(buf[..], j, row, ROW_BYTES)
  {
    ghost var done := out + RowSoFar(j, row, ROW_BYTES);
    RowStarts(j, row);
    SoFarLength(j, row, 0);
    var len1 := Sprint(line, at0, Text(j, 16, false, 8) + [' ', ' '], out);
    at := PrintCells(line, at0 + len1, buf, addr, len, j, pos, out, row, done);
    TurnFits(j, row, ROW_BYTES, out, done);
    RowAfter(out, j, row, text);
    at := PrintRowEnd(line, at, buf, j, row, done);
  }

  lemma FreshBuffer(buf: seq<char>, j: nat, row: seq<uint8>, row': seq<uint8>)
    requires BufferSoFar(buf, j, row, ROW_BYTES)
    ensures BufferSoFar(buf, j + 1, row', 0)
  {
  }

  lemma FlattenNext(ls: seq<seq<char>>, j: nat)
    requires ShortLines(ls) && j < |ls|
    ensures Flatten(ls[..j + 1]) == Flatten(ls[..j]) + ls[j] && |Flatten(ls[..j])| <= 78 * j
  {
    assert ls[..j + 1] == ls[..j] + [ls[j]];
    FlattenSnoc(ls[..j], ls[j]);
    FlattenLength(ls[..j]);
  }

  /** Row number j is ready to be printed as `text`. */
  ghost predicate RowReady(addr: array<uint8>, len: nat, j: nat, row: seq<uint8>, text: seq<char>)
    reads addr
  {
    RowAt(addr, len, ROW_BYTES * j, row) && text == Row(j, row)
  }

  /** One turn of the outer loop. */
  method PrintNextRow(line: array<char>, at0: nat, buf: array<char>, addr: array<uint8>, len: nat, j: nat, pos: nat,
                      ghost cs: seq<seq<uint8>>, ghost ls: seq<seq<char>>) returns (at: nat)
    requires j < |ls| == |cs| && ShortLines(ls) && |ls| * LINE_SIZE <= INT_MAX && line.Length == |ls| * LINE_SIZE
    requires RowReady(addr, len, j, cs[j], ls[j]) && pos == ROW_BYTES * j
    requires at0 == |Flatten(ls[..j])| && Shown(line[..], Flatten(ls[..j])) && buf != line
    requires BufferSoFar(buf[..], j, cs[j], 0)
    modifies line, buf
    ensures at == |Flatten(ls[..j + 1])| && Shown(line[..], Flatten(ls[..j + 1]))
    ensures j + 1 < |ls| ==> BufferSoFar(buf[..], j + 1, cs[j + 1], 0)
    ensures buf.Length == ROW_BYTES + 1
  {
    FlattenNext(ls, j);
    at := PrintRow(line, at0, buf, addr, len, j, pos, Flatten(ls[..j]), cs[j], ls[j]);
    if j + 1 < |ls| {
      FreshBuffer(buf[..], j, cs[j], cs[j + 1]);
    }
  }

  /** The outer loop, on a block of `rows` lines. */
  method PrintRows(line: array<char>, addr: array<uint8>, len: nat, rows: nat,
                   ghost cs: seq<seq<uint8>>, ghost ls: seq<seq<char>>) returns (at: nat)
    requires rows == |ls| == |cs| && rows * LINE_SIZE <= INT_MAX && ShortLines(ls)
    requires forall j :: 0 <= j < |cs| ==> RowReady(addr, len, j, cs[j], ls[j])
    requires line.Length == rows * LINE_SIZE && Shown(line[..], [])
    modifies line
    ensures at == |Flatten(ls)| && Shown(line[..], Flatten(ls))
  {
    var buf := new char[ROW_BYTES + 1](_ => '\0');
    var pos := 0;
    at := 0;
    assert forall k :: 0 <= k <= ROW_BYTES ==> buf[..][k] == '\0';
    for j := 0 to rows
      invariant pos == ROW_BYTES * j
      invariant at == |Flatten(ls[..j])| && Shown(line[..], Flatten(ls[..j]))
      invariant buf.Length == ROW_BYTES + 1
      invariant j < rows ==> BufferSoFar(buf[..], j, cs[j], 0)
    {
      at := PrintNextRow(line, at, buf, addr, len, j, pos, cs, ls);
      pos := pos + 16;
    }
    assert ls[..rows] == ls;
  }

  /** All that the outer loop and the closing NUL need to know about the dump of `data`. */
  lemma DumpFacts(data: seq<uint8>, cs: seq<seq<uint8>>, ls: seq<seq<char>>)
    requires data != [] && RowCount(|data|) * LINE_SIZE <= INT_MAX
    requires cs == Chunks(data) && ls == Lines(data)
    ensures |ls| == RowCount(|data|) && RowsOf(ls, cs, 0) && ShortLines(ls)
    ensures Flatten(ls) != [] && |Flatten(ls)| <= 78 * |ls|
    ensures Dump(data) == Flatten(ls)[..|Flatten(ls)| - 1]
  {
    LinesShort(data);
    FlattenLength(ls);
  }

  lemma ChunksAt(addr: array<uint8>, len: nat, cs: seq<seq<uint8>>, ls: seq<seq<char>>)
    requires len <= addr.Length && cs == Chunks(addr[..len]) && RowsOf(ls, cs, 0)
    ensures forall j :: 0 <= j < |cs| ==> RowReady(addr, len, j, cs[j], ls[j])
  {
    forall j | 0 <= j < |cs| ensures RowReady(addr, len, j, cs[j], ls[j]) {
      ChunksAreSlices(addr[..len], j);
      assert ls[j] == Row(0 + j, cs[j]);
    }
  }

  lemma LastNewline(before: seq<char>, out: seq<char>, mem: seq<char>)
    requires out != [] && Shown(before, out) && mem == before[|out| - 1 := '\0']
    ensures Shown(mem, out[..|out| - 1])
  {
    RepeatFront('\0', |mem| - |out|);
  }

  /** Everything after the allocation. */
  method FillBlock(line: array<char>, addr: array<uint8>, len: nat, rows: nat)
    requires 0 < len <= addr.Length && rows == RowCount(len) && rows * LINE_SIZE <= INT_MAX
    requires line.Length == rows * LINE_SIZE && Shown(line[..], [])
    modifies line
    ensures Shown(line[..], Dump(addr[..len])) && |Dump(addr[..len])| < line.Length
  {
    ghost var data := addr[..len];
    ghost var cs, ls := Chunks(data), Lines(data);
    DumpFacts(data, cs, ls);
    ChunksAt(addr, len, cs, ls);
    var at := PrintRows(line, addr, len, rows, cs, ls);
    ghost var before := line[..];
    line[at - 1] := '\0';
    assert line[..] == before[at - 1 := '\0'];
    LastNewline(before, Flatten(ls), line[..]);
  }

  /**
   The whole function. Without an input, a length, a place for the result or memory it returns
   -1; otherwise a fresh block of 128 bytes a row that holds the dump, NUL-terminated. Every
   `sprintf` stays inside the block. `callocOk` says whether `calloc` succeeds.
   */
  method Dumped(addr: array?<uint8>, len: nat, wanted: bool, callocOk: bool) returns (ret: int, block: array?<char>)
    requires addr != null ==> len <= addr.Length && RowCount(len) * LINE_SIZE <= INT_MAX
    ensures addr == null || len == 0 || !wanted || !callocOk ==> ret == -1 && block == null
    ensures !(addr == null || len == 0 || !wanted || !callocOk) ==>
              && ret == (len + 15) / 16 * 128 && block != null && block.Length == ret
              && Shown(block[..], Dump(addr[..len]))
              && |Dump(addr[..len])| < ret
  {
    RowCountRoundsUp(len);
    if addr == null || len == 0 || !wanted {
      return -1, null;
    }
    var rows := if len % 16 == 0 then len / 16 else len / 16 + 1;
    if !callocOk {
      return -1, null;
    }
    var line := new char[rows * LINE_SIZE](_ => '\0');
    assert line[..] == [] + Repeat('\0', line.Length);
    FillBlock(line, addr, len, rows);
    return rows * LINE_SIZE, line;
  }
}
