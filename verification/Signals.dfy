/**
 Signal dispatch: a handler writes siginfos to a self-pipe, the init thread reads them one at a
 time and schedules an event for the registered callback, and user threads run the events. A
 run is any interleaving of these steps with registrations. Each step but one is a single system
 call or holds the mutex throughout; `selfpipe_cb` reads first and locks then, and
 `ReadMayWait` shows that its read can be put off until it has the lock.
 */
module Signals {

  // Linux numbers
  const NSIG := 65
  const SIGILL := 4
  const SIGABRT := 6
  const SIGBUS := 7
  const SIGFPE := 8
  const SIGSEGV := 11
  const SIGSYS := 31

  const FATAL_SIGNALS := [SIGFPE, SIGILL, SIGSEGV, SIGBUS, SIGABRT, SIGSYS]

  /** The callback that `zsignal_reset_default` installs. */
  const DEFAULT_CALLBACK := 1

  /** A table row; 0 stands for a null pointer. A row without a callback is free. */
  datatype UserInfo = UserInfo(evbase: nat, cb: nat, ctxt: nat)

  const FREE := UserInfo(0, 0, 0)

  datatype Siginfo = Siginfo(signo: int, details: nat)

  /** `signal_ctxt_t`: a siginfo on its way to a callback. */
  datatype Event = Event(siginfo: Siginfo, evbase: nat, cb: nat, ctxt: nat)

  /**
   `accepted` is everything the pipe ever took and `taken` how much of it has been read; a siginfo
   is known by its position in `accepted`. `events` are scheduled and not yet run, `failed` could
   not be scheduled, `discarded` met no callback, and `delivered` lists the callbacks run.
   */
  datatype State = State(
    users: seq<UserInfo>, ready: bool, pipe: seq<Siginfo>, events: map<nat, Event>,
    accepted: seq<Siginfo>, taken: nat, discarded: set<nat>, failed: set<nat>, delivered: seq<(nat, Event)>)

  predicate IsFatalSpec(signo: int) {
    signo in FATAL_SIGNALS
  }

  predicate Sized(s: State) {
    |s.users| == NSIG
  }

  predicate ValidSigno(signo: int) {
    0 <= signo < NSIG
  }

  // ---------------------------------------------------------------------------
  // Steps
  // ---------------------------------------------------------------------------

  /** `locked` says whether the mutex was obtained. */
  function RegisterSpec(s: State, signo: int, u: UserInfo, locked: bool): (State, int)
    requires Sized(s) && ValidSigno(signo)
  {
    if IsFatalSpec(signo) || !locked || s.users[signo].cb != 0 then (s, -1)
    else (s.(users := s.users[signo := u]), signo)
  }

  function DeregisterSpec(s: State, signo: int, locked: bool): (State, int)
    requires Sized(s) && ValidSigno(signo)
  {
    if !locked then (s, -1) else (s.(users := s.users[signo := FREE]), 0)
  }

  /** `written` says whether the pipe took the whole siginfo. */
  function HandlerSpec(s: State, si: Siginfo, written: bool): State {
    if s.ready && written then s.(pipe := s.pipe + [si], accepted := s.accepted + [si]) else s
  }

  /** `added` says whether the event could be scheduled. An empty pipe makes the read fail. */
  function SelfpipeSpec(s: State, locked: bool, added: bool): State
    requires Sized(s)
  {
    if s.pipe == [] then s
    else
      var si, r := s.pipe[0], s.taken;
      var t := s.(pipe := s.pipe[1..], taken := s.taken + 1);
      if !ValidSigno(si.signo) || !locked || s.users[si.signo].cb == 0 then t.(discarded := s.discarded + {r})
      else if !added then t.(failed := s.failed + {r})
      else
        var u := s.users[si.signo];
        t.(events := s.events[r := Event(si, u.evbase, u.cb, u.ctxt)])
  }

  function CallbackSpec(s: State, r: nat): State {
    if r in s.events then s.(events := s.events - {r}, delivered := s.delivered + [(r, s.events[r])]) else s
  }

  datatype Action =
    | Register(signo: int, user: UserInfo, locked: bool)
    | Deregister(signo: int, locked: bool)
    | Handler(si: Siginfo, written: bool)
    | Selfpipe(locked: bool, added: bool)
    | Callback(r: nat)

  predicate Legal(a: Action) {
    (a.Register? || a.Deregister?) ==> ValidSigno(a.signo)
  }

  function Next(s: State, a: Action): (s': State)
    requires Sized(s) && Legal(a)
    ensures Sized(s')
  {
    match a
    case Register(signo, u, locked) => RegisterSpec(s, signo, u, locked).0
    case Deregister(signo, locked) => DeregisterSpec(s, signo, locked).0
    case Handler(si, written) => HandlerSpec(s, si, written)
    case Selfpipe(locked, added) => SelfpipeSpec(s, locked, added)
    case Callback(r) => CallbackSpec(s, r)
  }

  function FreeTable(): (users: seq<UserInfo>)
    ensures |users| == NSIG && forall i :: 0 <= i < NSIG ==> users[i] == FREE
  {
    seq(NSIG, _ => FREE)
  }

  /** After `zsignal_init` has cleared the table and tried to make the pipe. */
  function Start(ready: bool): (s: State)
    ensures Sized(s)
  {
    State(FreeTable(), ready, [], map[], [], 0, {}, {}, [])
  }

  predicate LegalRun(acts: seq<Action>) {
    forall i :: 0 <= i < |acts| ==> Legal(acts[i])
  }

  function After(s: State, acts: seq<Action>): (s': State)
    requires Sized(s) && LegalRun(acts)
    ensures Sized(s')
    decreases acts
  {
    if acts == [] then s else Next(After(s, acts[..|acts| - 1]), acts[|acts| - 1])
  }

  function Run(ready: bool, acts: seq<Action>): (s: State)
    requires LegalRun(acts)
    ensures Sized(s)
  {
    After(Start(ready), acts)
  }

  // ---------------------------------------------------------------------------
  // The read and the locked section of `selfpipe_cb`
  // ---------------------------------------------------------------------------

  function ReadSpec(s: State): State
    requires s.pipe != []
  {
    s.(pipe := s.pipe[1..], taken := s.taken + 1)
  }

  /** `r` is the position of the siginfo just read. */
  function DispatchSpec(s: State, si: Siginfo, r: nat, locked: bool, added: bool): State
    requires Sized(s)
  {
    if !ValidSigno(si.signo) || !locked || s.users[si.signo].cb == 0 then s.(discarded := s.discarded + {r})
    else if !added then s.(failed := s.failed + {r})
    else
      var u := s.users[si.signo];
      s.(events := s.events[r := Event(si, u.evbase, u.cb, u.ctxt)])
  }

  /** A step of any other thread may as well come before the read. */
  lemma ReadCommutes(s: State, a: Action)
    requires Sized(s) && Legal(a) && !a.Selfpipe? && s.pipe != []
    ensures var s' := Next(s, a);
            && s'.pipe != [] && s'.pipe[0] == s.pipe[0] && s'.taken == s.taken
            && Next(ReadSpec(s), a) == ReadSpec(s')
  {
  }

  lemma {:induction false} ReadMovesPast(s: State, acts: seq<Action>)
    requires Sized(s) && LegalRun(acts) && s.pipe != [] && forall i :: 0 <= i < |acts| ==> !acts[i].Selfpipe?
    ensures var s' := After(s, acts);
            && s'.pipe != [] && s'.pipe[0] == s.pipe[0] && s'.taken == s.taken
            && After(ReadSpec(s), acts) == ReadSpec(s')
    decreases acts
  {
    if acts == [] {
    } else {
      ReadMovesPast(s, acts[..|acts| - 1]);
      ReadCommutes(After(s, acts[..|acts| - 1]), acts[|acts| - 1]);
    }
  }

  /**
   Whatever the other threads do between the read and the locked section, the outcome is that of
   one `Selfpipe` step at the time of the lock.
   */
  lemma ReadMayWait(s: State, between: seq<Action>, locked: bool, added: bool)
    requires Sized(s) && LegalRun(between) && s.pipe != []
    requires forall i :: 0 <= i < |between| ==> !between[i].Selfpipe?
    ensures DispatchSpec(After(ReadSpec(s), between), s.pipe[0], s.taken, locked, added)
            == SelfpipeSpec(After(s, between), locked, added)
  {
    ReadMovesPast(s, between);
  }

  // ---------------------------------------------------------------------------
  // The program
  // ---------------------------------------------------------------------------

  /** The search loop of `is_fatal`. */
  method IsFatal(signo: int) returns (fatal: bool)
    ensures fatal <==> IsFatalSpec(signo)
    ensures fatal <==> signo == 4 || signo == 6 || signo == 7 || signo == 8 || signo == 11 || signo == 31
  {
    for i := 0 to |FATAL_SIGNALS|
      invariant signo !in FATAL_SIGNALS[..i]
    {
      if FATAL_SIGNALS[i] == signo {
        return true;
      }
    }
    return false;
  }

  class Dispatcher {
    const users: array<UserInfo>
    var ready: bool
    var pipe: seq<Siginfo>
    var events: map<nat, Event>
    var taken: nat
    ghost var accepted: seq<Siginfo>
    ghost var discarded: set<nat>
    ghost var failed: set<nat>
    ghost var delivered: seq<(nat, Event)>

    ghost predicate Valid()
      reads this
    {
      users.Length == NSIG
    }

    ghost function Abs(): (s: State)
      requires Valid()
      reads this, users
      ensures Sized(s)
    {
      State(users[..], ready, pipe, events, accepted, taken, discarded, failed, delivered)
    }

    constructor (pipeMade: bool)
      ensures Valid() && Abs() == Start(pipeMade)
      ensures ready == pipeMade && pipe == [] && events == map[] && users[..] == seq(65, _ => UserInfo(0, 0, 0))
    {
      users := new UserInfo[NSIG](_ => FREE);
      ready, pipe, events, taken := pipeMade, [], map[], 0;
      accepted, discarded, failed, delivered := [], {}, {}, [];
      new;
      assert users[..] == FreeTable();
    }

    method RegisterUser(signo: int, cb: nat, ctxt: nat, loop_: nat, locked: bool) returns (ret: int)
      requires Valid() && ValidSigno(signo)
      modifies users
      ensures Valid() && (Abs(), ret) == RegisterSpec(old(Abs()), signo, UserInfo(loop_, cb, ctxt), locked)
      ensures ret == signo <==> !IsFatalSpec(signo) && locked && old(users[signo]).cb == 0
      ensures ret == signo ==> users[signo] == UserInfo(loop_, cb, ctxt)
      ensures ret != signo ==> ret == -1 && users[..] == old(users[..])
      ensures forall k :: 0 <= k < NSIG && k != signo ==> users[k] == old(users[k])
    {
      var fatal := IsFatal(signo);
      if fatal {
        return -1;
      }
      if !locked {
        return -1;
      }
      if users[signo].cb != 0 {
        return -1;
      }
      users[signo] := UserInfo(loop_, cb, ctxt);
      return signo;
    }

    method DeregisterUser(signo: int, locked: bool) returns (ret: int)
      requires Valid() && ValidSigno(signo)
      modifies users
      ensures Valid() && (Abs(), ret) == DeregisterSpec(old(Abs()), signo, locked)
      ensures ret == if locked then 0 else -1
      ensures users[..] == if locked then old(users[..])[signo := UserInfo(0, 0, 0)] else old(users[..])
    {
      if !locked {
        return -1;
      }
      users[signo] := FREE;
      return 0;
    }

    /** Deregisters and registers the default callback, without looking at either result. */
    method ResetDefault(signo: int, loop_: nat, locked1: bool, locked2: bool) returns (ret: int)
      requires Valid() && ValidSigno(signo)
      modifies users
      ensures Valid() && ret == 0
      ensures var s := DeregisterSpec(old(Abs()), signo, locked1).0;
              Abs() == RegisterSpec(s, signo, UserInfo(loop_, DEFAULT_CALLBACK, 0), locked2).0
    {
      var r := DeregisterUser(signo, locked1);
      r := RegisterUser(signo, DEFAULT_CALLBACK, 0, loop_, locked2);
      return 0;
    }

    method NonfatalHandler(si: Siginfo, written: bool)
      requires Valid()
      modifies this
      ensures Valid() && Abs() == HandlerSpec(old(Abs()), si, written)
      ensures pipe == if ready && written then old(pipe) + [si] else old(pipe)
    {
      if !ready {
        return;
      }
      if written {
        pipe := pipe + [si];
        accepted := accepted + [si];
      }
    }

    method SelfpipeCb(locked: bool, added: bool)
      requires Valid()
      modifies this
      ensures Valid() && Abs() == SelfpipeSpec(old(Abs()), locked, added)
      ensures pipe == if old(pipe) == [] then [] else old(pipe)[1..]
    {
      if pipe == [] {
        return;
      }
      var si, r := pipe[0], taken;
      pipe, taken := pipe[1..], taken + 1;
      if si.signo < 0 || si.signo >= NSIG || !locked {
        discarded := discarded + {r};
        return;
      }
      var user := users[si.signo];
      if user.cb != 0 {
        if added {
          events := events[r := Event(si, user.evbase, user.cb, user.ctxt)];
        } else {
          failed := failed + {r};
        }
      } else {
        discarded := discarded + {r};
      }
    }

    /** The event loop runs a pending event; the event is freed. */
    method SignalCb(r: nat) returns (called: Event)
      requires Valid() && r in events
      modifies this
      ensures Valid() && Abs() == CallbackSpec(old(Abs()), r) && called == old(events)[r]
      ensures events == old(events) - {r}
    {
      called := events[r];
      delivered := delivered + [(r, called)];
      events := events - {r};
    }
  }

  // ---------------------------------------------------------------------------
  // Conservation
  // ---------------------------------------------------------------------------

  function Positions(delivered: seq<(nat, Event)>): (ps: set<nat>)
    decreases delivered
  {
    if delivered == [] then {} else Positions(delivered[..|delivered| - 1]) + {delivered[|delivered| - 1].0}
  }

  function UpTo(n: nat): (ps: set<nat>)
    ensures forall i: nat :: i in ps <==> i < n
    ensures |ps| == n
    decreases n
  {
    if n == 0 then {} else UpTo(n - 1) + {n - 1}
  }

  /** In how many of the four sets a position is. */
  function Fates(a: set<nat>, b: set<nat>, c: set<nat>, d: set<nat>, x: nat): nat {
    (if x in a then 1 else 0) + (if x in b then 1 else 0) + (if x in c then 1 else 0) + (if x in d then 1 else 0)
  }

  /** The positions below n are in exactly one of the sets each, the others in none. */
  ghost predicate PartitionOf(a: set<nat>, b: set<nat>, c: set<nat>, d: set<nat>, n: nat) {
    forall x: nat :: Fates(a, b, c, d, x) == if x < n then 1 else 0
  }

  /** Every siginfo read from the pipe has met exactly one fate. */
  ghost predicate Partitioned(s: State) {
    && PartitionOf(s.discarded, s.failed, s.events.Keys, Positions(s.delivered), s.taken)
    && |Positions(s.delivered)| == |s.delivered|
  }

  predicate Queued(s: State) {
    s.taken <= |s.accepted| && s.pipe == s.accepted[s.taken..]
  }

  /** Events carry the siginfo of their position. */
  ghost predicate Labelled(s: State) {
    && (forall r :: r in s.events ==> r < s.taken <= |s.accepted| && s.events[r].siginfo == s.accepted[r])
    && (forall i :: 0 <= i < |s.delivered| ==>
          && s.delivered[i].0 < s.taken <= |s.accepted|
          && s.delivered[i].1.siginfo == s.accepted[s.delivered[i].0])
  }

  ghost predicate NoFatalUser(s: State)
    requires Sized(s)
  {
    forall signo :: ValidSigno(signo) && IsFatalSpec(signo) ==> s.users[signo].cb == 0
  }

  ghost predicate Inv(s: State) {
    Sized(s) && Queued(s) && Partitioned(s) && Labelled(s) && NoFatalUser(s)
  }

  lemma PositionsOneMore(delivered: seq<(nat, Event)>, p: (nat, Event))
    ensures Positions(delivered + [p]) == Positions(delivered) + {p.0}
  {
    assert (delivered + [p])[..|delivered|] == delivered;
  }

  lemma PartitionGrows(a: set<nat>, b: set<nat>, c: set<nat>, d: set<nat>, n: nat)
    requires PartitionOf(a, b, c, d, n)
    ensures PartitionOf(a + {n}, b, c, d, n + 1)
    ensures PartitionOf(a, b + {n}, c, d, n + 1)
    ensures PartitionOf(a, b, c + {n}, d, n + 1)
  {
    forall x: nat
      ensures Fates(a + {n}, b, c, d, x) == Fates(a, b + {n}, c, d, x) == Fates(a, b, c + {n}, d, x)
                                         == if x < n + 1 then 1 else 0
    {
      assert Fates(a, b, c, d, x) == if x < n then 1 else 0;
    }
  }

  lemma PartitionMoves(a: set<nat>, b: set<nat>, c: set<nat>, d: set<nat>, n: nat, r: nat)
    requires PartitionOf(a, b, c, d, n) && r in c
    ensures r !in d && PartitionOf(a, b, c - {r}, d + {r}, n)
  {
    assert Fates(a, b, c, d, r) == if r < n then 1 else 0;
    forall x: nat ensures Fates(a, b, c - {r}, d + {r}, x) == if x < n then 1 else 0 {
      assert Fates(a, b, c, d, x) == if x < n then 1 else 0;
    }
  }

  lemma PartitionSizes(a: set<nat>, b: set<nat>, c: set<nat>, d: set<nat>, n: nat)
    requires PartitionOf(a, b, c, d, n)
    ensures |a| + |b| + |c| + |d| == n
  {
    forall x: nat ensures x in a + b + c + d <==> x < n {
      assert Fates(a, b, c, d, x) == if x < n then 1 else 0;
    }
    assert a + b + c + d == UpTo(n);
    forall x: nat
      ensures (x in a ==> x !in b && x !in c && x !in d) && (x in b ==> x !in c && x !in d) && (x in c ==> x !in d)
    {
      assert Fates(a, b, c, d, x) == if x < n then 1 else 0;
    }
    assert a !! b && (a + b) !! c && (a + b + c) !! d;
    assert |a + b| == |a| + |b|;
    assert |a + b + c| == |a + b| + |c|;
  }

  lemma SelfpipeKeepsPartition(s: State, locked: bool, added: bool)
    requires Sized(s) && Partitioned(s)
    ensures Partitioned(SelfpipeSpec(s, locked, added))
  {
    var s' := SelfpipeSpec(s, locked, added);
    PartitionGrows(s.discarded, s.failed, s.events.Keys, Positions(s.delivered), s.taken);
    if s'.events != s.events {
      assert s'.events.Keys == s.events.Keys + {s.taken};
    }
  }

  lemma SelfpipeKeepsLabels(s: State, locked: bool, added: bool)
    requires Sized(s) && Queued(s) && Labelled(s)
    ensures Queued(SelfpipeSpec(s, locked, added)) && Labelled(SelfpipeSpec(s, locked, added))
  {
    if s.pipe != [] {
      assert s.pipe[0] == s.accepted[s.taken] && s.pipe[1..] == s.accepted[s.taken + 1..];
    }
  }

  lemma CallbackKeepsPartition(s: State, r: nat)
    requires Partitioned(s)
    ensures Partitioned(CallbackSpec(s, r))
  {
    if r in s.events {
      PositionsOneMore(s.delivered, (r, s.events[r]));
      PartitionMoves(s.discarded, s.failed, s.events.Keys, Positions(s.delivered), s.taken, r);
      assert (s.events - {r}).Keys == s.events.Keys - {r};
    }
  }

  lemma CallbackKeepsLabels(s: State, r: nat)
    requires Labelled(s)
    ensures Labelled(CallbackSpec(s, r))
  {
  }

  lemma NextKeepsTable(s: State, a: Action)
    requires Sized(s) && NoFatalUser(s) && Legal(a)
    ensures NoFatalUser(Next(s, a))
  {
  }

  lemma HandlerKeepsQueue(s: State, si: Siginfo, written: bool)
    requires Queued(s) && Labelled(s)
    ensures Queued(HandlerSpec(s, si, written)) && Labelled(HandlerSpec(s, si, written))
  {
  }

  lemma NextKeepsInv(s: State, a: Action)
    requires Inv(s) && Legal(a)
    ensures Inv(Next(s, a))
  {
    NextKeepsTable(s, a);
    match a
    case Register(signo, u, locked) =>
    case Deregister(signo, locked) =>
    case Handler(si, written) => HandlerKeepsQueue(s, si, written);
    case Selfpipe(locked, added) =>
      SelfpipeKeepsPartition(s, locked, added);
      SelfpipeKeepsLabels(s, locked, added);
    case Callback(r) =>
      CallbackKeepsPartition(s, r);
      CallbackKeepsLabels(s, r);
  }

  lemma {:induction false} RunKeepsInv(ready: bool, acts: seq<Action>)
    requires LegalRun(acts)
    ensures Inv(Run(ready, acts))
    decreases acts
  {
    if acts == [] {
    } else {
      RunKeepsInv(ready, acts[..|acts| - 1]);
      NextKeepsInv(Run(ready, acts[..|acts| - 1]), acts[|acts| - 1]);
    }
  }

  lemma {:induction false} PositionsBound(delivered: seq<(nat, Event)>)
    ensures |Positions(delivered)| <= |delivered|
    ensures forall i :: 0 <= i < |delivered| ==> delivered[i].0 in Positions(delivered)
    decreases delivered
  {
    if delivered == [] {
    } else {
      PositionsBound(delivered[..|delivered| - 1]);
    }
  }

  lemma {:induction false} DistinctPositions(delivered: seq<(nat, Event)>)
    requires |Positions(delivered)| == |delivered|
    ensures forall i, j :: 0 <= i < j < |delivered| ==> delivered[i].0 != delivered[j].0
    decreases delivered
  {
    if delivered == [] {
    } else {
      var front, last := delivered[..|delivered| - 1], delivered[|delivered| - 1];
      PositionsBound(front);
      assert last.0 !in Positions(front);
      DistinctPositions(front);
    }
  }

  /**
   In every run, what the pipe took is still queued, was discarded, could not be scheduled, is
   scheduled, or was delivered: each siginfo exactly one of these, delivered at most once, and
   under its own position. No fatal signal ever has a callback in the table.
   */
  lemma Conservation(ready: bool, acts: seq<Action>)
    requires LegalRun(acts)
    ensures var s := Run(ready, acts);
            && Sized(s) && s.taken <= |s.accepted|
            && |s.accepted| == |s.pipe| + |s.discarded| + |s.failed| + |s.events| + |s.delivered|
            && s.pipe == s.accepted[s.taken..] && Partitioned(s)
            && (forall i, j :: 0 <= i < j < |s.delivered| ==> s.delivered[i].0 != s.delivered[j].0)
            && Labelled(s) && NoFatalUser(s)
  {
    var s := Run(ready, acts);
    RunKeepsInv(ready, acts);
    PartitionSizes(s.discarded, s.failed, s.events.Keys, Positions(s.delivered), s.taken);
    DistinctPositions(s.delivered);
  }

  // ---------------------------------------------------------------------------
  // Where a delivery comes from
  // ---------------------------------------------------------------------------

  /** Step t read siginfo r and found the event's callback and context in the table. */
  predicate DispatchedAt(ready: bool, acts: seq<Action>, t: nat, r: nat, e: Event)
    requires LegalRun(acts)
  {
    && t < |acts| && acts[t].Selfpipe? && acts[t].locked
    && var s := Run(ready, acts[..t]);
    && s.taken == r && s.pipe != [] && s.pipe[0] == e.siginfo && ValidSigno(e.siginfo.signo)
    && s.users[e.siginfo.signo] == UserInfo(e.evbase, e.cb, e.ctxt) && e.cb != 0
  }

  predicate OnItsWay(s: State, r: nat, e: Event) {
    (r in s.events && s.events[r] == e) || (r, e) in s.delivered
  }

  lemma NewOnItsWay(s: State, a: Action, r: nat, e: Event)
    requires Sized(s) && Legal(a) && OnItsWay(Next(s, a), r, e) && !OnItsWay(s, r, e)
    ensures a.Selfpipe? && a.locked && s.taken == r && s.pipe != [] && s.pipe[0] == e.siginfo
    ensures ValidSigno(e.siginfo.signo) && s.users[e.siginfo.signo] == UserInfo(e.evbase, e.cb, e.ctxt) && e.cb != 0
  {
  }

  /**
   Every event scheduled or delivered in a run carries the callback and context that stood in
   the table when its siginfo was read under the mutex, whatever happened to the table since.
   */
  lemma {:induction false} Provenance(ready: bool, acts: seq<Action>, r: nat, e: Event) returns (t: nat)
    requires LegalRun(acts) && OnItsWay(Run(ready, acts), r, e)
    ensures DispatchedAt(ready, acts, t, r, e)
    decreases acts
  {
    assert acts != [];
    var m := |acts| - 1;
    var front, a := acts[..m], acts[m];
    if OnItsWay(Run(ready, front), r, e) {
      t := Provenance(ready, front, r, e);
      assert front[..t] == acts[..t];
    } else {
      t := m;
      NewOnItsWay(Run(ready, front), a, r, e);
    }
  }

  /** The table row that the step reading siginfo `si` finds, if it gets to look at one. */
  predicate FindsCallback(s: State, si: Siginfo, locked: bool)
    requires Sized(s)
  {
    ValidSigno(si.signo) && locked && s.users[si.signo].cb != 0
  }

  /** Step t read siginfo r, and what it found then is what became of it by the end of the run. */
  ghost predicate FateFrom(ready: bool, acts: seq<Action>, t: nat, r: nat)
    requires LegalRun(acts)
  {
    var s := Run(ready, acts);
    && t < |acts| && acts[t].Selfpipe? && r < |s.accepted|
    && var (st, si) := (Run(ready, acts[..t]), s.accepted[r]);
    && st.taken == r && st.pipe != [] && st.pipe[0] == si
    && var found := FindsCallback(st, si, acts[t].locked);
    && (r in s.discarded <==> !found)
    && (r in s.failed <==> found && !acts[t].added)
    && (found && acts[t].added ==>
          var u := st.users[si.signo];
          OnItsWay(s, r, Event(si, u.evbase, u.cb, u.ctxt)))
  }

  /** A step changes the fate of no siginfo read before it. */
  lemma FateStays(s: State, a: Action, r: nat)
    requires Inv(s) && Legal(a) && r < s.taken
    ensures r in Next(s, a).discarded <==> r in s.discarded
    ensures r in Next(s, a).failed <==> r in s.failed
    ensures forall e :: OnItsWay(s, r, e) ==> OnItsWay(Next(s, a), r, e)
    ensures r < |s.accepted| && s.accepted <= Next(s, a).accepted
  {
    if a.Callback? {
      forall e | OnItsWay(s, r, e) ensures OnItsWay(Next(s, a), r, e) {
        if (r, e) in s.delivered {
          var i :| 0 <= i < |s.delivered| && s.delivered[i] == (r, e);
          assert a.r in s.events ==> Next(s, a).delivered[i] == (r, e);
        } else if a.r == r {
          assert Next(s, a).delivered[|s.delivered|] == (r, e);
        }
      }
    }
  }

  lemma FateOfRead(s: State, locked: bool, added: bool)
    requires Inv(s) && s.pipe != []
    ensures var (s', r, si) := (SelfpipeSpec(s, locked, added), s.taken, s.pipe[0]);
            && s'.accepted == s.accepted && r < |s.accepted| && s.accepted[r] == si
            && (r in s'.discarded <==> !FindsCallback(s, si, locked))
            && (r in s'.failed <==> FindsCallback(s, si, locked) && !added)
            && (FindsCallback(s, si, locked) && added ==>
                  var u := s.users[si.signo]; OnItsWay(s', r, Event(si, u.evbase, u.cb, u.ctxt)))
  {
    assert Fates(s.discarded, s.failed, s.events.Keys, Positions(s.delivered), s.taken) == 0;
  }

  lemma FateFromExtends(ready: bool, front: seq<Action>, a: Action, t: nat, r: nat)
    requires LegalRun(front) && Legal(a) && FateFrom(ready, front, t, r) && r < Run(ready, front).taken
    ensures LegalRun(front + [a]) && FateFrom(ready, front + [a], t, r)
  {
    var acts := front + [a];
    assert acts[..|acts| - 1] == front && acts[..t] == front[..t] && acts[t] == front[t];
    RunKeepsInv(ready, front);
    FateStays(Run(ready, front), a, r);
  }

  /**
   Every siginfo read in a run was read by one step, and the table that step saw decides: it is
   discarded exactly if there was no callback to find, stuck exactly if there was one and the
   event could not be added, and otherwise scheduled or delivered with that callback.
   */
  lemma {:induction false} FateDecided(ready: bool, acts: seq<Action>, r: nat) returns (t: nat)
    requires LegalRun(acts) && r < Run(ready, acts).taken
    ensures FateFrom(ready, acts, t, r)
    decreases acts
  {
    assert acts != [];
    var front, a := acts[..|acts| - 1], acts[|acts| - 1];
    var s := Run(ready, front);
    RunKeepsInv(ready, front);
    if r < s.taken {
      t := FateDecided(ready, front, r);
      FateFromExtends(ready, front, a, t, r);
      assert front + [a] == acts;
    } else {
      t := |acts| - 1;
      FateOfRead(s, a.locked, a.added);
    }
  }

  // ---------------------------------------------------------------------------
  // Delivery happens
  // ---------------------------------------------------------------------------

  /** The siginfo at position r waits in the pipe, or the event its row asks for is on its way. */
  ghost predicate Awaits(s: State, r: nat, si: Siginfo, u: UserInfo) {
    && Inv(s) && ValidSigno(si.signo) && s.users[si.signo] == u && u.cb != 0
    && r < |s.accepted| && s.accepted[r] == si
    && (r < s.taken ==> OnItsWay(s, r, Event(si, u.evbase, u.cb, u.ctxt)))
  }

  /** The step does not clear the row, and a read gets the mutex and can add its event. */
  predicate Harmless(a: Action, signo: int) {
    && !(a.Deregister? && a.locked && a.signo == signo)
    && (a.Selfpipe? ==> a.locked && a.added)
  }

  lemma AwaitsStays(s: State, a: Action, r: nat, si: Siginfo, u: UserInfo)
    requires Awaits(s, r, si, u) && Legal(a) && Harmless(a, si.signo)
    ensures Awaits(Next(s, a), r, si, u)
    ensures Next(s, a).taken >= if a.Selfpipe? && s.taken <= r then s.taken + 1 else s.taken
  {
    NextKeepsInv(s, a);
    if r < s.taken {
      FateStays(s, a, r);
    } else if a.Selfpipe? {
      FateOfRead(s, true, true);
    }
  }

  function CountReads(acts: seq<Action>): nat
    decreases acts
  {
    if acts == [] then 0
    else CountReads(acts[..|acts| - 1]) + (if acts[|acts| - 1].Selfpipe? then 1 else 0)
  }

  lemma {:induction false} ReadsAdvance(s: State, acts: seq<Action>, r: nat, si: Siginfo, u: UserInfo)
    requires Awaits(s, r, si, u) && LegalRun(acts) && forall i :: 0 <= i < |acts| ==> Harmless(acts[i], si.signo)
    ensures Awaits(After(s, acts), r, si, u)
    ensures After(s, acts).taken > r || After(s, acts).taken >= s.taken + CountReads(acts)
    decreases acts
  {
    if acts == [] {
    } else {
      var front, a := acts[..|acts| - 1], acts[|acts| - 1];
      ReadsAdvance(s, front, r, si, u);
      AwaitsStays(After(s, front), a, r, si, u);
    }
  }

  lemma RunsIfPending(s: State, r: nat, e: Event)
    requires OnItsWay(s, r, e)
    ensures (r, e) in CallbackSpec(s, r).delivered
  {
    var s' := CallbackSpec(s, r);
    if (r, e) in s.delivered {
      var i :| 0 <= i < |s.delivered| && s.delivered[i] == (r, e);
      assert s'.delivered[i] == (r, e);
    } else {
      assert s'.delivered[|s.delivered|] == (r, e);
    }
  }

  /**
   A signal with a callback registered is delivered to it once the handler has written it, the
   pipe has been read that far, and its event has run: whatever was queued before it, and
   whatever happens in between, short of clearing its row or failing a read.
   */
  lemma SignalReachesCallback(s: State, si: Siginfo, acts: seq<Action>)
    requires Inv(s) && s.ready && ValidSigno(si.signo) && s.users[si.signo].cb != 0
    requires LegalRun(acts) && forall i :: 0 <= i < |acts| ==> Harmless(acts[i], si.signo)
    requires CountReads(acts) > |s.pipe|
    ensures var (u, r) := (s.users[si.signo], |s.accepted|);
            var e := Event(si, u.evbase, u.cb, u.ctxt);
            var s' := After(HandlerSpec(s, si, true), acts);
            OnItsWay(s', r, e) && (r, e) in CallbackSpec(s', r).delivered
  {
    var u, r := s.users[si.signo], |s.accepted|;
    var e := Event(si, u.evbase, u.cb, u.ctxt);
    NextKeepsInv(s, Handler(si, true));
    ReadsAdvance(HandlerSpec(s, si, true), acts, r, si, u);
    RunsIfPending(After(HandlerSpec(s, si, true), acts), r, e);
  }

  // ---------------------------------------------------------------------------
  // From the start
  // ---------------------------------------------------------------------------

  /** The siginfos that handlers managed to write, in order. */
  function WrittenBy(acts: seq<Action>): seq<Siginfo>
    decreases acts
  {
    if acts == [] then []
    else
      var a := acts[|acts| - 1];
      WrittenBy(acts[..|acts| - 1]) + (if a.Handler? && a.written then [a.si] else [])
  }

  /** With a pipe, a run takes exactly what its handlers wrote; without one, nothing ever. */
  lemma {:induction false} AcceptedExactly(ready: bool, acts: seq<Action>)
    requires LegalRun(acts)
    ensures Run(ready, acts).ready == ready
    ensures Run(ready, acts).accepted == if ready then WrittenBy(acts) else []
    decreases acts
  {
    if acts == [] {
    } else {
      AcceptedExactly(ready, acts[..|acts| - 1]);
    }
  }

  /** The row of a signal as the run's registrations leave it. */
  function RowAfter(acts: seq<Action>, signo: int): UserInfo
    decreases acts
  {
    if acts == [] then UserInfo(0, 0, 0)
    else
      var row, a := RowAfter(acts[..|acts| - 1], signo), acts[|acts| - 1];
      if a.Register? && a.signo == signo && a.locked && row.cb == 0 && signo !in {4, 6, 7, 8, 11, 31} then a.user
      else if a.Deregister? && a.signo == signo && a.locked then UserInfo(0, 0, 0)
      else row
  }

  lemma {:induction false} TableExactly(ready: bool, acts: seq<Action>, signo: int)
    requires LegalRun(acts) && 0 <= signo < 65
    ensures Run(ready, acts).users[signo] == RowAfter(acts, signo)
    decreases acts
  {
    if acts == [] {
    } else {
      TableExactly(ready, acts[..|acts| - 1], signo);
    }
  }

  lemma {:induction false} AfterJoins(s: State, a: seq<Action>, b: seq<Action>)
    requires Sized(s) && LegalRun(a) && LegalRun(b)
    ensures LegalRun(a + b) && After(s, a + b) == After(After(s, a), b)
    decreases b
  {
    if b == [] {
      assert a + b == a;
    } else {
      var m := |b| - 1;
      assert (a + b)[..|a + b| - 1] == a + b[..m];
      AfterJoins(s, a, b[..m]);
    }
  }

  lemma AfterOne(s: State, a: Action)
    requires Sized(s) && Legal(a)
    ensures After(s, [a]) == Next(s, a)
  {
    assert [a][..0] == [];
  }

  /**
   From the start of the program, with a pipe: if the registrations so far have left the signal a
   callback, a handler then writes the siginfo, and enough reads follow, with whatever else but a
   clearing of the row or a failing read, then running its event calls that callback with it.
   */
  lemma RegisteredSignalIsDelivered(before: seq<Action>, si: Siginfo, later: seq<Action>)
    requires LegalRun(before) && LegalRun(later) && 0 <= si.signo < 65 && RowAfter(before, si.signo).cb != 0
    requires forall i :: 0 <= i < |later| ==> Harmless(later[i], si.signo)
    requires CountReads(later) > |WrittenBy(before)|
    ensures var u, r := RowAfter(before, si.signo), |WrittenBy(before)|;
            var acts := before + [Handler(si, true)] + later + [Callback(r)];
            && LegalRun(acts)
            && (r, Event(si, u.evbase, u.cb, u.ctxt)) in Run(true, acts).delivered
  {
    var r := |WrittenBy(before)|;
    var s := Run(true, before);
    RunKeepsInv(true, before);
    AcceptedExactly(true, before);
    TableExactly(true, before, si.signo);
    SignalReachesCallback(s, si, later);
    AfterOne(s, Handler(si, true));
    AfterJoins(Start(true), before, [Handler(si, true)]);
    AfterJoins(Start(true), before + [Handler(si, true)], later);
    var acts := before + [Handler(si, true)] + later;
    AfterOne(Run(true, acts), Callback(r));
    AfterJoins(Start(true), acts, [Callback(r)]);
  }

  // ---------------------------------------------------------------------------
  // Registration
  // ---------------------------------------------------------------------------

  /** Resetting gives a signal the default callback whatever it had, and leaves a fatal one without. */
  lemma ResetInstallsDefault(s: State, signo: int, loop_: nat)
    requires Inv(s) && ValidSigno(signo)
    ensures var s1 := DeregisterSpec(s, signo, true).0;
            var s2 := RegisterSpec(s1, signo, UserInfo(loop_, DEFAULT_CALLBACK, 0), true).0;
            && s2.users[signo] == (if IsFatalSpec(signo) then FREE else UserInfo(loop_, DEFAULT_CALLBACK, 0))
            && s2 == s.(users := s2.users) && Inv(s2)
  {
    NextKeepsInv(s, Deregister(signo, true));
    var s1 := DeregisterSpec(s, signo, true).0;
    NextKeepsInv(s1, Register(signo, UserInfo(loop_, DEFAULT_CALLBACK, 0), true));
  }
}
