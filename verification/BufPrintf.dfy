/**
 The chained buffer: each call formats into what is left of a window and shrinks it.
 */
module BufPrintf {
  import opened Words
  import opened FormatSpec
  import opened Formatter

  /** `buffer_t` as a value, with the memory its data pointer points into. */
  datatype Window = Window(mem: seq<char>, data: nat, available: nat)

  predicate Usable(w: Window) {
    w.available >= 1 && w.data + w.available <= |w.mem|
  }

  /** Characters a call adds: all of the rendering, or what fits before the NUL. */
  function Written(available: nat, length: nat): nat
    requires available >= 1
  {
    if length >= available then available - 1 else length
  }

  function After(w: Window, r: seq<char>): (w': Window)
    requires Usable(w)
    ensures Usable(w')
  {
    var nc := Written(w.available, |r|);
    Window(Printed(w.mem, w.data, w.available, r), w.data + nc, w.available - nc)
  }

  class Buffer {
    const output: array<char>
    var data: nat
    var available: nat

    ghost predicate Valid()
      reads this
    {
      available >= 1 && data + available <= output.Length
    }

    ghost function Abs(): (w: Window)
      requires Valid()
      reads this, output
      ensures Usable(w)
    {
      Window(output[..], data, available)
    }

    /** `bufinit`: the window `output[at..at + size]`, starting with an empty string. */
    constructor (output: array<char>, at: nat, size: nat)
      requires size >= 1 && at + size <= output.Length
      modifies output
      ensures Valid() && this.output == output
      ensures Abs() == Window(old(output[..])[at := '\0'], at, size)
    {
      this.output, data, available := output, at, size;
      new;
      output[at] := '\0';
    }

    /** `bufprintf_asyncsignalsafe`. */
    method Bufprintf(fmt: CString, args: seq<Arg>) returns (rc: nat)
      requires Valid() && Render(fmt, args).Some? && |Render(fmt, args).value| <= INT_MAX
      modifies this, output
      ensures Valid()
      ensures Abs() == After(old(Abs()), Render(fmt, args).value)
      ensures rc == Written(old(available), |Render(fmt, args).value|)
    {
      var nc := Vsnprintf(output, data, available, fmt, args);
      if nc >= available {
        nc := available - 1;
      }
      data := data + nc;
      available := available - nc;
      return nc;
    }
  }

  // ---------------------------------------------------------------------------
  // Any sequence of calls
  // ---------------------------------------------------------------------------

  function Start(mem: seq<char>, at: nat, size: nat): (w: Window)
    requires size >= 1 && at + size <= |mem|
    ensures Usable(w)
  {
    Window(mem[at := '\0'], at, size)
  }

  function AfterAll(w: Window, rs: seq<seq<char>>): (w': Window)
    requires Usable(w)
    ensures Usable(w')
    decreases rs
  {
    if rs == [] then w else After(AfterAll(w, rs[..|rs| - 1]), rs[|rs| - 1])
  }

  function Concat(rs: seq<seq<char>>): seq<char>
    decreases rs
  {
    if rs == [] then [] else Concat(rs[..|rs| - 1]) + rs[|rs| - 1]
  }

  /** The sum of the calls' results. */
  function Counts(w: Window, rs: seq<seq<char>>): nat
    requires Usable(w)
    decreases rs
  {
    if rs == [] then 0
    else
      var front := rs[..|rs| - 1];
      Counts(w, front) + Written(AfterAll(w, front).available, |rs[|rs| - 1]|)
  }

  /** `total` printed at once into the window. */
  ghost predicate HoldsTruncated(w: Window, mem: seq<char>, at: nat, size: nat, total: seq<char>) {
    && size >= 1 && at + size <= |mem| == |w.mem|
    && var m := Min(|total|, size - 1);
    && w.data == at + m && w.available == size - m
    && w.mem[..at + m] == mem[..at] + total[..m] && w.mem[at + m] == '\0'
    && w.mem[at + size..] == mem[at + size..]
  }

  lemma AfterParts(w: Window, r: seq<char>)
    requires Usable(w)
    ensures var k, w' := Written(w.available, |r|), After(w, r);
            && |w'.mem| == |w.mem|
            && w'.mem[..w'.data] == w.mem[..w.data] + r[..k] && w'.mem[w'.data] == '\0'
            && w'.mem[w'.data + 1..] == w.mem[w'.data + 1..]
  {
    var k := Written(w.available, |r|);
    assert After(w, r).mem == w.mem[..w.data] + r[..k] + ['\0'] + w.mem[w.data + k + 1..];
  }

  lemma TruncatedOnce(head: seq<char>, total: seq<char>, m: nat, r: seq<char>, k: nat)
    requires m <= |total| && k <= |r| && (k > 0 ==> m == |total|)
    ensures head + total[..m] + r[..k] == head + (total + r)[..m + k]
  {
  }

  lemma SameTail(a: seq<char>, b: seq<char>, from: nat, to: nat)
    requires |a| == |b| && from <= to <= |a| && a[from..] == b[from..]
    ensures a[to..] == b[to..]
  {
    assert a[to..] == a[from..][to - from..] && b[to..] == b[from..][to - from..];
  }

  lemma OneCall(w: Window, mem: seq<char>, at: nat, size: nat, total: seq<char>, r: seq<char>)
    requires size >= 1 && at + size <= |mem| && Usable(w) && HoldsTruncated(w, mem, at, size, total)
    ensures HoldsTruncated(After(w, r), mem, at, size, total + r)
  {
    var m, k := Min(|total|, size - 1), Written(w.available, |r|);
    AfterParts(w, r);
    TruncatedOnce(mem[..at], total, m, r, k);
    SameTail(After(w, r).mem, w.mem, w.data + k + 1, at + size);
  }

  /**
   Whatever the calls, the window holds the first `size - 1` characters of all their renderings
   in a row, ended by a NUL at the data pointer; the results add up to the distance the pointer
   moved; the end of the window stays put, and nothing outside it changes.
   */
  lemma {:induction false} ChainIsTruncatedConcat(mem: seq<char>, at: nat, size: nat, rs: seq<seq<char>>)
    requires size >= 1 && at + size <= |mem|
    ensures var w := AfterAll(Start(mem, at, size), rs);
            && HoldsTruncated(w, mem, at, size, Concat(rs))
            && w.available >= 1 && w.data + w.available == at + size
            && Counts(Start(mem, at, size), rs) == w.data - at
    decreases rs
  {
    if rs == [] {
      var w := Start(mem, at, size);
      assert w.mem[..at] == mem[..at] + [];
    } else {
      var front := rs[..|rs| - 1];
      ChainIsTruncatedConcat(mem, at, size, front);
      OneCall(AfterAll(Start(mem, at, size), front), mem, at, size, Concat(front), rs[|rs| - 1]);
    }
  }

  /** Two calls in a row leave what one call with both renderings would have left. */
  lemma TwoCallsAreOne(w: Window, r1: seq<char>, r2: seq<char>)
    requires Usable(w)
    ensures After(After(w, r1), r2).data == After(w, r1 + r2).data
    ensures After(After(w, r1), r2).available == After(w, r1 + r2).available
    ensures var a, b := After(After(w, r1), r2), After(w, r1 + r2);
            a.mem[..a.data + 1] == b.mem[..b.data + 1]
  {
    var a1 := After(w, r1);
    var a, b := After(a1, r2), After(w, r1 + r2);
    var k1, k2 := Written(w.available, |r1|), Written(a1.available, |r2|);
    AfterParts(w, r1);
    AfterParts(a1, r2);
    AfterParts(w, r1 + r2);
    assert b.data == w.data + k1 + k2;
    TruncatedOnce(w.mem[..w.data], r1, k1, r2, k2);
    assert a.mem[..a.data + 1] == a.mem[..a.data] + ['\0'];
    assert b.mem[..b.data + 1] == b.mem[..b.data] + ['\0'];
  }
}
