/**
 The double-falling-edge detector. Two falling edges of the input at most three seconds
 apart complete a pair; the machine pairs greedily, and that is optimal.
 */
module EdgeDetector {

  import opened Words

  const TIMEOUT := 3000

  /** The file's statics. `last` is the time of an unpaired falling edge, 0 for none. */
  datatype Edge = Edge(activeSaving: bool, last: uint64,
                       hasObstacle: bool, notAutoMode: bool, emergencyStop: bool)

  const INITIAL := Edge(false, 0, true, false, false)

  /** Unsigned difference of two clock readings. */
  function Gap(from: uint64, to: uint64): uint64 {
    (to - from) % 0x1_0000_0000_0000_0000
  }

  function StepSpec(s: Edge, active: bool, now: uint64): (Edge, int) {
    if !s.activeSaving && active then (s.(activeSaving := true), 0)
    else if s.activeSaving && !active then
      var t := s.(activeSaving := false);
      if s.last == 0 then (t.(last := now), 0)
      else if Gap(s.last, now) > TIMEOUT then (t.(last := now), 1)
      else
        var u := t.(last := 0);
        if s.hasObstacle && !s.notAutoMode then
          if s.emergencyStop then (u, 2) else (u.(notAutoMode := true), 3)
        else (u, 4)
    else (s, 0)
  }

  class Detector {
    var activeSaving: bool
    var last: uint64
    var hasObstacle: bool
    var notAutoMode: bool
    var emergencyStop: bool

    function Abs(): Edge
      reads this
    {
      Edge(activeSaving, last, hasObstacle, notAutoMode, emergencyStop)
    }

    constructor ()
      ensures Abs() == INITIAL
    {
      activeSaving, last := false, 0;
      hasObstacle, notAutoMode, emergencyStop := true, false, false;
    }

    /** `now` is what the clock would read during this call. */
    method TestEdge(active: bool, now: uint64) returns (ret: int)
      modifies this
      ensures (Abs(), ret) == StepSpec(old(Abs()), active, now)
    {
      if !activeSaving && active {
        activeSaving := true;
        return 0;
      }
      if activeSaving && !active {
        activeSaving := false;
        if last == 0 {
          last := now;
        } else {
          if Gap(last, now) > TIMEOUT {
            last := now;
            return 1;
          } else {
            last := 0;
            if hasObstacle && !notAutoMode {
              if emergencyStop {
                return 2;
              } else {
                notAutoMode := true;
                return 3;
              }
            } else {
              return 4;
            }
          }
        }
      }
      return 0;
    }
  }

  // ---------------------------------------------------------------------------
  // Runs
  // ---------------------------------------------------------------------------

  datatype Sample = Sample(active: bool, time: uint64)

  /** The state and the results after a whole run. */
  function Run(s: Edge, samples: seq<Sample>): (r: (Edge, seq<int>))
    ensures |r.1| == |samples|
    decreases samples
  {
    if samples == [] then (s, [])
    else
      var x := samples[|samples| - 1];
      var r := Run(s, samples[..|samples| - 1]);
      var t := StepSpec(r.0, x.active, x.time);
      (t.0, r.1 + [t.1])
  }

  /** The input is low before the run. */
  predicate FallsAt(samples: seq<Sample>, i: nat)
    requires i < |samples|
  {
    i > 0 && samples[i - 1].active && !samples[i].active
  }

  /** Times of the falling edges of the input, whatever the machine does with them. */
  function Falls(samples: seq<Sample>): seq<uint64>
    decreases samples
  {
    if samples == [] then []
    else
      var m := |samples| - 1;
      Falls(samples[..m]) + (if FallsAt(samples, m) then [samples[m].time] else [])
  }

  predicate IsPairResult(ret: int) {
    2 <= ret <= 4
  }

  function CountPairs(results: seq<int>): nat
    decreases results
  {
    if results == [] then 0
    else CountPairs(results[..|results| - 1]) + (if IsPairResult(results[|results| - 1]) then 1 else 0)
  }

  function CountTimeouts(results: seq<int>): nat
    decreases results
  {
    if results == [] then 0
    else CountTimeouts(results[..|results| - 1]) + (if results[|results| - 1] == 1 then 1 else 0)
  }

  // ---------------------------------------------------------------------------
  // What a run amounts to: greedy pairing of the falling edges
  // ---------------------------------------------------------------------------

  /** `armed` means that the latest falling edge waits for a partner. */
  datatype Tally = Tally(armed: bool, arms: nat, timeouts: nat, pairs: set<(nat, nat)>)

  function Greedy(f: seq<uint64>): (t: Tally)
    ensures f == [] ==> !t.armed
    decreases f
  {
    if f == [] then Tally(false, 0, 0, {})
    else
      var m := |f| - 1;
      var t := Greedy(f[..m]);
      if !t.armed then t.(armed := true, arms := t.arms + 1)
      else if Gap(f[m - 1], f[m]) > TIMEOUT then t.(timeouts := t.timeouts + 1)
      else t.(armed := false, pairs := t.pairs + {(m - 1, m)})
  }

  predicate Disjoint(p: (nat, nat), q: (nat, nat)) {
    p.0 != q.0 && p.0 != q.1 && p.1 != q.0 && p.1 != q.1
  }

  lemma {:induction false} GreedyPairs(f: seq<uint64>)
    ensures forall p :: p in Greedy(f).pairs ==>
      p.1 == p.0 + 1 && p.1 < |f| && Gap(f[p.0], f[p.1]) <= TIMEOUT
    ensures forall p, q :: p in Greedy(f).pairs && q in Greedy(f).pairs && p != q ==> Disjoint(p, q)
    ensures Greedy(f).armed ==> forall p :: p in Greedy(f).pairs ==> p.1 < |f| - 1
    decreases f
  {
    if f == [] {
    } else {
      GreedyPairs(f[..|f| - 1]);
    }
  }

  /** Falling edges are arms, timeouts or completions; an arm is completed or still waiting. */
  lemma {:induction false} GreedyAccounts(f: seq<uint64>)
    ensures var t := Greedy(f);
            && |f| == t.arms + t.timeouts + |t.pairs|
            && t.arms - |t.pairs| == if t.armed then 1 else 0
    decreases f
  {
    if f == [] {
    } else {
      var m := |f| - 1;
      GreedyAccounts(f[..m]);
      GreedyPairs(f[..m]);
      assert (m - 1, m) !in Greedy(f[..m]).pairs;
    }
  }

  predicate PositiveTimes(samples: seq<Sample>) {
    forall i :: 0 <= i < |samples| ==> samples[i].time > 0
  }

  predicate MachineMatches(s: Edge, results: seq<int>, samples: seq<Sample>) {
    var f := Falls(samples);
    var t := Greedy(f);
    && s.activeSaving == (samples != [] && samples[|samples| - 1].active)
    && s.last == (if t.armed then f[|f| - 1] else 0)
    && CountTimeouts(results) == t.timeouts
    && CountPairs(results) == |t.pairs|
  }

  lemma CountsOneMore(results: seq<int>, ret: int)
    ensures CountPairs(results + [ret]) == CountPairs(results) + (if IsPairResult(ret) then 1 else 0)
    ensures CountTimeouts(results + [ret]) == CountTimeouts(results) + (if ret == 1 then 1 else 0)
  {
    assert (results + [ret])[..|results|] == results;
  }

  lemma FallsOneMore(front: seq<Sample>, x: Sample)
    ensures Falls(front + [x])
            == if front != [] && front[|front| - 1].active && !x.active then Falls(front) + [x.time]
               else Falls(front)
  {
    assert (front + [x])[..|front|] == front;
  }

  lemma GreedyOneMore(f: seq<uint64>, t: uint64)
    ensures var g, g' := Greedy(f), Greedy(f + [t]);
            && (!g.armed ==> g' == g.(armed := true, arms := g.arms + 1))
            && (g.armed ==> f != [])
            && (g.armed && Gap(f[|f| - 1], t) > TIMEOUT ==> g' == g.(timeouts := g.timeouts + 1))
            && (g.armed && Gap(f[|f| - 1], t) <= TIMEOUT ==>
                  && g' == g.(armed := false, pairs := g.pairs + {(|f| - 1, |f|)})
                  && |g'.pairs| == |g.pairs| + 1)
  {
    var f' := f + [t];
    assert f'[..|f'| - 1] == f;
    GreedyPairs(f);
    if Greedy(f).armed {
      assert (|f| - 1, |f|) !in Greedy(f).pairs;
      assert f'[|f| - 1] == f[|f| - 1];
    }
  }

  lemma StepMatches(s: Edge, results: seq<int>, front: seq<Sample>, x: Sample)
    requires MachineMatches(s, results, front) && x.time > 0
    requires forall i :: 0 <= i < |Falls(front)| ==> Falls(front)[i] > 0
    ensures var (s', ret) := StepSpec(s, x.active, x.time);
            MachineMatches(s', results + [ret], front + [x])
  {
    CountsOneMore(results, StepSpec(s, x.active, x.time).1);
    FallsOneMore(front, x);
    GreedyOneMore(Falls(front), x.time);
  }

  lemma RunOneMore(s: Edge, samples: seq<Sample>) returns (front: seq<Sample>, x: Sample)
    requires samples != []
    ensures samples == front + [x] && (PositiveTimes(samples) ==> PositiveTimes(front) && x.time > 0)
    ensures var r := Run(s, front);
            var t := StepSpec(r.0, x.active, x.time);
            Run(s, samples) == (t.0, r.1 + [t.1])
  {
    front, x := samples[..|samples| - 1], samples[|samples| - 1];
  }

  lemma {:induction false} FallsPositive(samples: seq<Sample>)
    requires PositiveTimes(samples)
    ensures forall i :: 0 <= i < |Falls(samples)| ==> Falls(samples)[i] > 0
    decreases samples
  {
    if samples == [] {
    } else {
      FallsPositive(samples[..|samples| - 1]);
    }
  }

  /** From any flags, the machine's results count the greedy pairs and timeouts of the input. */
  lemma {:induction false} MachineIsGreedy(s: Edge, samples: seq<Sample>)
    requires !s.activeSaving && s.last == 0 && PositiveTimes(samples)
    ensures var r := Run(s, samples); MachineMatches(r.0, r.1, samples)
    decreases samples
  {
    if samples == [] {
    } else {
      var front, x := RunOneMore(s, samples);
      MachineIsGreedy(s, front);
      FallsPositive(front);
      StepMatches(Run(s, front).0, Run(s, front).1, front, x);
    }
  }

  // ---------------------------------------------------------------------------
  // Optimality
  // ---------------------------------------------------------------------------

  /** At most three seconds apart. */
  predicate Near(from: int, to: int) {
    to - from <= 3000
  }

  /** Disjoint pairs of the first n falling edges, each at most the timeout apart. */
  ghost predicate Matching(f: seq<uint64>, n: nat, pairs: set<(nat, nat)>) {
    && n <= |f|
    && (forall p :: p in pairs ==> p.0 < p.1 < n && Near(f[p.0], f[p.1]))
    && forall p, q :: p in pairs && q in pairs && p != q ==> Disjoint(p, q)
  }

  predicate Nondecreasing(f: seq<uint64>) {
    forall i, j :: 0 <= i <= j < |f| ==> f[i] <= f[j]
  }

  /** One falling edge fewer costs at most one pair. */
  lemma WithoutLast(f: seq<uint64>, n: nat, pairs: set<(nat, nat)>) returns (rest: set<(nat, nat)>)
    requires n > 0 && Matching(f, n, pairs)
    ensures Matching(f, n - 1, rest) && |pairs| <= |rest| + 1
  {
    if p :| p in pairs && p.1 == n - 1 {
      rest := pairs - {p};
      assert forall q :: q in rest ==> Disjoint(p, q);
    } else {
      rest := pairs;
    }
  }

  lemma Exchange(f: seq<uint64>, n: nat, pairs: set<(nat, nat)>, p: (nat, nat), q: (nat, nat))
      returns (rest: set<(nat, nat)>)
    requires n > 1 && Nondecreasing(f) && Matching(f, n, pairs)
    requires p in pairs && q in pairs && p.1 == n - 1 && q.1 == n - 2
    ensures Matching(f, n - 2, rest) && |pairs| == |rest| + 1
  {
    var others := pairs - {p} - {q};
    var joined := if p.0 < q.0 then (p.0, q.0) else (q.0, p.0);
    assert Disjoint(p, q);
    forall x | x in others ensures Disjoint(x, joined) && Disjoint(joined, x) && x.1 < n - 2 {
      assert Disjoint(x, p) && Disjoint(x, q);
    }
    assert joined !in others;
    rest := others + {joined};
  }

  /** Even two fewer cost at most one: if both were paired, their partners pair up instead. */
  lemma WithoutLastTwo(f: seq<uint64>, n: nat, pairs: set<(nat, nat)>) returns (rest: set<(nat, nat)>)
    requires n > 1 && Nondecreasing(f) && Matching(f, n, pairs)
    ensures Matching(f, n - 2, rest) && |pairs| <= |rest| + 1
  {
    if p :| p in pairs && p.1 == n - 1 {
      if q :| q in pairs && q.1 == n - 2 {
        rest := Exchange(f, n, pairs, p, q);
      } else {
        rest := pairs - {p};
        forall x | x in rest ensures x.1 < n - 2 {
          assert Disjoint(x, p);
        }
      }
    } else {
      rest := WithoutLast(f, n - 1, pairs);
    }
  }

  /** What the n-th falling edge does to the greedy pairing. */
  lemma GreedyCases(f: seq<uint64>, n: nat)
    requires 0 < n <= |f|
    ensures var now, prior := Greedy(f[..n]), Greedy(f[..n - 1]);
            && |now.pairs| == |prior.pairs| + (if prior.armed && !now.armed then 1 else 0)
            && (!prior.armed ==> now.armed)
            && (prior.armed ==> n > 1)
            && (prior.armed && now.armed ==> Gap(f[n - 2], f[n - 1]) > TIMEOUT)
  {
    assert f[..n] == f[..n - 1] + [f[n - 1]];
    GreedyOneMore(f[..n - 1], f[n - 1]);
  }

  /** How the greedy pairing grows over the last two falling edges. */
  lemma GreedyGrows(f: seq<uint64>, n: nat)
    requires 1 < n <= |f|
    ensures var now, prior, former := Greedy(f[..n]), Greedy(f[..n - 1]), Greedy(f[..n - 2]);
            && (prior.armed && !now.armed ==> |now.pairs| == |prior.pairs| + 1)
            && (prior.armed && now.armed ==> |now.pairs| == |prior.pairs| && Gap(f[n - 2], f[n - 1]) > TIMEOUT)
            && (!prior.armed ==> |now.pairs| == |former.pairs| + 1)
  {
    GreedyCases(f, n);
    GreedyCases(f, n - 1);
  }

  /** A falling edge too far from the one before it has no partner. */
  lemma LastUnpaired(f: seq<uint64>, n: nat, pairs: set<(nat, nat)>)
    requires n > 1 && Nondecreasing(f) && Matching(f, n, pairs) && Gap(f[n - 2], f[n - 1]) > TIMEOUT
    ensures Matching(f, n - 1, pairs)
  {
    assert f[n - 2] <= f[n - 1];
    forall p | p in pairs ensures p.1 < n - 1 {
      assert p.0 <= n - 2 ==> f[p.0] <= f[n - 2];
    }
  }

  lemma NothingToPair(f: seq<uint64>, n: nat, pairs: set<(nat, nat)>)
    requires n <= 1 && Matching(f, n, pairs)
    ensures pairs == {}
  {
    if p :| p in pairs {
      assert false;
    }
  }

  /** Without its last edge or two, a matching loses no more pairs than the greedy one. */
  lemma Shorten(f: seq<uint64>, n: nat, pairs: set<(nat, nat)>) returns (m: nat, rest: set<(nat, nat)>)
    requires n > 1 && Nondecreasing(f) && Matching(f, n, pairs)
    ensures m < n && Matching(f, m, rest)
    ensures |pairs| - |rest| <= |Greedy(f[..n]).pairs| - |Greedy(f[..m]).pairs|
  {
    GreedyGrows(f, n);
    if !Greedy(f[..n - 1]).armed {
      m := n - 2;
      rest := WithoutLastTwo(f, n, pairs);
    } else if !Greedy(f[..n]).armed {
      m := n - 1;
      rest := WithoutLast(f, n, pairs);
    } else {
      LastUnpaired(f, n, pairs);
      m, rest := n - 1, pairs;
    }
  }

  lemma {:induction false} NoMatchingBeatsGreedy(f: seq<uint64>, n: nat, pairs: set<(nat, nat)>)
    requires Nondecreasing(f) && Matching(f, n, pairs)
    ensures |pairs| <= |Greedy(f[..n]).pairs|
    decreases n
  {
    if n <= 1 {
      NothingToPair(f, n, pairs);
    } else {
      var m, rest := Shorten(f, n, pairs);
      NoMatchingBeatsGreedy(f, m, rest);
    }
  }

  predicate ClockRuns(samples: seq<Sample>) {
    forall i, j :: 0 <= i <= j < |samples| ==> samples[i].time <= samples[j].time
  }

  lemma {:induction false} FallsNondecreasing(samples: seq<Sample>)
    requires ClockRuns(samples)
    ensures Nondecreasing(Falls(samples))
    ensures forall i :: 0 <= i < |Falls(samples)| ==> Falls(samples)[i] <= samples[|samples| - 1].time
    decreases samples
  {
    if samples == [] {
    } else {
      FallsNondecreasing(samples[..|samples| - 1]);
    }
  }

  lemma OwnPairsMatch(f: seq<uint64>)
    requires Nondecreasing(f)
    ensures Matching(f, |f|, Greedy(f).pairs)
  {
    GreedyPairs(f);
    forall p | p in Greedy(f).pairs ensures Near(f[p.0], f[p.1]) {
      assert f[p.0] <= f[p.1];
    }
  }

  /**
   The machine's own pairs are disjoint adjacent falling edges, there are as many of them as
   completed results, and no other choice of disjoint pairs has more.
   */
  lemma GreedyIsOptimal(s: Edge, samples: seq<Sample>, other: set<(nat, nat)>)
    requires !s.activeSaving && s.last == 0 && PositiveTimes(samples) && ClockRuns(samples)
    ensures var f := Falls(samples);
            var own := Greedy(f).pairs;
            && Matching(f, |f|, own) && (forall p :: p in own ==> p.1 == p.0 + 1)
            && CountPairs(Run(s, samples).1) == |own|
            && (Matching(f, |f|, other) ==> |other| <= |own|)
  {
    var f := Falls(samples);
    MachineIsGreedy(s, samples);
    FallsNondecreasing(samples);
    GreedyPairs(f);
    OwnPairsMatch(f);
    if Matching(f, |f|, other) {
      NoMatchingBeatsGreedy(f, |f|, other);
      assert f[..|f|] == f;
    }
  }

  /** The machine's books balance over every run. */
  lemma MachineAccounts(s: Edge, samples: seq<Sample>)
    requires !s.activeSaving && s.last == 0 && PositiveTimes(samples)
    ensures var (e, results) := Run(s, samples);
            var arms := Greedy(Falls(samples)).arms;
            && |Falls(samples)| == arms + CountTimeouts(results) + CountPairs(results)
            && arms - CountPairs(results) == if e.last != 0 then 1 else 0
  {
    MachineIsGreedy(s, samples);
    GreedyAccounts(Falls(samples));
    FallsPositive(samples);
  }

  // ---------------------------------------------------------------------------
  // Every single result
  // ---------------------------------------------------------------------------

  /** Milliseconds from one clock reading to the next, on a clock that wraps at 2^64. */
  function Elapsed(from: int, to: int): int {
    if from <= to then to - from else 0x1_0000_0000_0000_0000 - (from - to)
  }

  lemma GapIsElapsed(from: uint64, to: uint64)
    ensures Gap(from, to) == Elapsed(from, to)
  {
    if from <= to {
      assert Gap(from, to) == to - from;
    } else {
      assert Gap(from, to) == 0x1_0000_0000_0000_0000 - (from - to);
    }
  }

  /** The result of a completed pair, given the flags before the run and the pairs before this one. */
  function PairResult(s: Edge, earlier: nat): int {
    if !s.hasObstacle || s.notAutoMode then 4
    else if s.emergencyStop then 2
    else if earlier == 0 then 3 else 4
  }

  /** The flags after a run: only the first pair may raise one. */
  predicate FlagsMatch(s: Edge, e: Edge, pairs: nat) {
    && e.hasObstacle == s.hasObstacle && e.emergencyStop == s.emergencyStop
    && e.notAutoMode == (s.notAutoMode || (s.hasObstacle && !s.emergencyStop && pairs > 0))
  }

  lemma {:induction false} FlagsAfter(s: Edge, samples: seq<Sample>)
    ensures var r := Run(s, samples); FlagsMatch(s, r.0, CountPairs(r.1))
    decreases samples
  {
    if samples == [] {
    } else {
      var front, x := RunOneMore(s, samples);
      FlagsAfter(s, front);
      var r := Run(s, front);
      CountsOneMore(r.1, StepSpec(r.0, x.active, x.time).1);
    }
  }

  /**
   What the step after a run returns: 0 unless the input falls; then 0 for an edge that finds none
   waiting, 1 for one more than 3000 ms after the one waiting, and a pair's result otherwise.
   */
  function Expected(s: Edge, front: seq<Sample>, x: Sample): int {
    var f := Falls(front);
    var t := Greedy(f);
    if front == [] || !front[|front| - 1].active || x.active || !t.armed || f == [] then 0
    else if Elapsed(f[|f| - 1], x.time) > 3000 then 1
    else PairResult(s, |t.pairs|)
  }

  lemma NextResult(s: Edge, front: seq<Sample>, x: Sample)
    requires !s.activeSaving && s.last == 0 && PositiveTimes(front)
    ensures StepSpec(Run(s, front).0, x.active, x.time).1 == Expected(s, front, x)
  {
    var f := Falls(front);
    MachineIsGreedy(s, front);
    FlagsAfter(s, front);
    FallsPositive(front);
    if f != [] {
      GapIsElapsed(f[|f| - 1], x.time);
    }
  }

  /** Every result of every run, from any flags. */
  lemma {:induction false} EveryResult(s: Edge, samples: seq<Sample>, i: nat)
    requires !s.activeSaving && s.last == 0 && PositiveTimes(samples) && i < |samples|
    ensures Run(s, samples).1[i] == Expected(s, samples[..i], samples[i])
    decreases samples
  {
    var m := |samples| - 1;
    if i == m {
      NextResult(s, samples[..m], samples[m]);
    } else {
      EveryResult(s, samples[..m], i);
      assert samples[..m][..i] == samples[..i];
    }
  }

  /** From any flags and with any clock, a completed pair's result depends on the earlier ones alone. */
  lemma {:induction false} PairResultByFlags(s: Edge, samples: seq<Sample>, i: nat)
    requires i < |samples|
    ensures var results := Run(s, samples).1;
            && (results[i] == 0 || results[i] == 1 || IsPairResult(results[i]))
            && (IsPairResult(results[i]) ==> results[i] == PairResult(s, CountPairs(results[..i])))
    decreases samples
  {
    var m := |samples| - 1;
    var r := Run(s, samples[..m]);
    assert Run(s, samples).1[..m] == r.1;
    if i == m {
      FlagsAfter(s, samples[..m]);
    } else {
      PairResultByFlags(s, samples[..m], i);
      assert Run(s, samples).1[..i] == r.1[..i];
    }
  }

  /** With the file's flags the first completed pair gives 3 and every later one 4. */
  lemma FirstPairThreeThenFour(samples: seq<Sample>, i: nat)
    requires i < |samples|
    ensures var results := Run(INITIAL, samples).1;
            IsPairResult(results[i]) ==> results[i] == if CountPairs(results[..i]) == 0 then 3 else 4
  {
    PairResultByFlags(INITIAL, samples, i);
  }
}
