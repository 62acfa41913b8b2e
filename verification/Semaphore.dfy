/** The semaphore of asemaphore_compact.c as a protocol between any number of threads.

    The shared fields change only while the inner mutex is held, so what a thread does between
    taking the mutex and giving it up (or going to sleep) is one move.  The mutex is always obtained
    in the end, and nobody destroys the semaphore. */
module Semaphore {
  import opened CStrings

  const WAITING_SLOTS := 48
  const OBTAINER_SLOTS := 16

  // -- The shared fields and what the critical sections do to them -------------------------------

  /** A free slot of a list holds -1. */
  datatype Fields = Fields(flag: int, waitingNum: int, waiting: seq<int>, obtainerNum: int, obtainers: seq<int>)

  function FirstIndex(list: seq<int>, x: int): (i: nat)
    ensures i <= |list| && (i < |list| ==> list[i] == x) && forall k :: 0 <= k < i ==> list[k] != x
  {
    if list == [] then 0 else if list[0] == x then 0 else 1 + FirstIndex(list[1..], x)
  }

  /** The list with the first `x` replaced by `y`, if there is one. */
  function Replace(list: seq<int>, x: int, y: int): (r: seq<int>)
    ensures |r| == |list|
  {
    var i := FirstIndex(list, x);
    if i < |list| then list[i := y] else list
  }

  function Initial(val: nat): (f: Fields) {
    Fields(val, 0, seq(WAITING_SLOTS, _ => -1), 0, seq(OBTAINER_SLOTS, _ => -1))
  }

  /** Entering `asema_acquire_timed`: the caller is counted and, if there is room, listed. */
  function Register(f: Fields, pid: int): (g: Fields) {
    f.(waitingNum := f.waitingNum + 1, waiting := Replace(f.waiting, -1, pid))
  }

  /** Leaving it, successful or not. */
  function Unregister(f: Fields, pid: int): (g: Fields) {
    f.(waitingNum := if f.waitingNum > 0 then f.waitingNum - 1 else f.waitingNum,
       waiting := Replace(f.waiting, pid, -1))
  }

  /** Obtaining the semaphore while the flag is positive; None is the failing
      assertion that a slot of the obtainer list is free. */
  function Take(f: Fields, mutexed: bool, pid: int): (r: Option<Fields>) {
    var g := f.(flag := if f.flag > 0 then f.flag - 1 else f.flag);
    if !mutexed then Some(g)
    else if FirstIndex(f.obtainers, -1) == |f.obtainers| then None
    else Some(g.(obtainers := Replace(f.obtainers, -1, pid), obtainerNum := f.obtainerNum + 1))
  }

  /** A release has an effect only below the maximum. */
  function Give(f: Fields, maxval: nat, mutexed: bool, pid: int): (g: Fields) {
    if f.flag >= maxval then f
    else if mutexed && FirstIndex(f.obtainers, pid) < |f.obtainers| then
      f.(flag := f.flag + 1, obtainers := Replace(f.obtainers, pid, -1),
         obtainerNum := if f.obtainerNum > 0 then f.obtainerNum - 1 else f.obtainerNum)
    else f.(flag := f.flag + 1)
  }

  /** The condition variable is signalled only when the flag leaves 0. */
  predicate Signals(f: Fields, maxval: nat) { f.flag < maxval && f.flag == 0 }

  // -- Threads --------------------------------------------------------------------------------------

  datatype PC =
    | Idle
    | Acquiring(timed: bool)   // wants the mutex, to acquire
    | Testing(timed: bool)     // holds the mutex, about to look at the flag
    | Asleep(timed: bool)      // waits on the condition variable
    | Woken(timed: bool)       // left the condition variable, wants the mutex back
    | TimedOut                 // the same after ETIMEDOUT
    | Leaving(obtained: bool)  // holds the mutex, about to leave
    | Releasing                // wants the mutex, to release
    | Giving                   // holds the mutex, to release

  predicate HoldsMutex(pc: PC) { pc.Testing? || pc.Leaving? || pc.Giving? }

  predicate Inside(pc: PC) { pc.Testing? || pc.Asleep? || pc.Woken? || pc.TimedOut? || pc.Leaving? }

  datatype Config = Config(val: nat, maxval: nat, mutexed: bool, pids: seq<int>)

  /** What `__asema_create` asserts, and process ids that no free slot can be confused with. */
  predicate Legal(c: Config) {
    c.val <= c.maxval && (c.mutexed ==> c.val == 1 && c.maxval == 1) && forall t :: 0 <= t < |c.pids| ==> c.pids[t] > 0
  }

  /** `held` records which threads obtained the semaphore and have not released it; `taken` and
      `given` count successful acquires and effective releases. */
  datatype System = System(f: Fields, mutex: Option<nat>, pc: seq<PC>, held: set<nat>, taken: nat, given: nat,
                           failed: bool)

  function Start(c: Config): (s: System) {
    System(Initial(c.val), None, seq(|c.pids|, _ => Idle), {}, 0, 0, false)
  }

  datatype Move =
    | CallAcquire(t: nat, timed: bool)
    | CallRelease(t: nat)
    | Lock(t: nat)
    | Test(t: nat)
    | Leave(t: nat)
    | Release(t: nat, woken: set<nat>)
    | Wake(t: nat)       // a spurious wake-up
    | Timeout(t: nat)

  ghost predicate Enabled(c: Config, s: System, m: Move) {
    && m.t < |s.pc| && !s.failed
    && match m
       case CallAcquire(t, _) => s.pc[t].Idle?
       case CallRelease(t) => s.pc[t].Idle?
       case Lock(t) => s.mutex.None?
           && (s.pc[t].Acquiring? || s.pc[t].Woken? || s.pc[t].TimedOut? || s.pc[t].Releasing?)
       case Test(t) => s.pc[t].Testing?
       case Leave(t) => s.pc[t].Leaving?
       case Release(t, woken) =>
         && s.pc[t].Giving?
         && (forall u :: u in woken ==> u < |s.pc| && s.pc[u].Asleep?)
         && (if Signals(s.f, c.maxval) then (exists u :: 0 <= u < |s.pc| && s.pc[u].Asleep?) ==> woken != {}
            else woken == {})
       case Wake(t) => s.pc[t].Asleep?
       case Timeout(t) => s.pc[t].Asleep? && s.pc[t].timed
  }

  function Roused(pc: seq<PC>, woken: set<nat>): (r: seq<PC>)
    ensures |r| == |pc|
    ensures forall u :: 0 <= u < |pc| ==> r[u] == if u in woken && pc[u].Asleep? then Woken(pc[u].timed) else pc[u]
  {
    seq(|pc|, u requires 0 <= u < |pc| => if u in woken && pc[u].Asleep? then Woken(pc[u].timed) else pc[u])
  }

  function Apply(c: Config, s: System, m: Move): (r: System)
    requires Enabled(c, s, m) && |s.pc| == |c.pids|
    ensures |r.pc| == |s.pc|
  {
    match m
    case CallAcquire(t, timed) => s.(pc := s.pc[t := Acquiring(timed)])
    case CallRelease(t) => s.(pc := s.pc[t := Releasing])
    case Lock(t) =>
      if s.pc[t].Acquiring? then
        s.(mutex := Some(t), pc := s.pc[t := Testing(s.pc[t].timed)], f := Register(s.f, c.pids[t]))
      else if s.pc[t].Woken? then s.(mutex := Some(t), pc := s.pc[t := Testing(s.pc[t].timed)])
      else if s.pc[t].TimedOut? then s.(mutex := Some(t), pc := s.pc[t := Leaving(false)])
      else s.(mutex := Some(t), pc := s.pc[t := Giving])
    case Test(t) =>
      if s.f.flag == 0 then s.(mutex := None, pc := s.pc[t := Asleep(s.pc[t].timed)])
      else
        (match Take(s.f, c.mutexed, c.pids[t])
         case None => s.(failed := true)
         case Some(f) => s.(f := f, pc := s.pc[t := Leaving(true)], held := s.held + {t}, taken := s.taken + 1))
    case Leave(t) => s.(mutex := None, pc := s.pc[t := Idle], f := Unregister(s.f, c.pids[t]))
    case Release(t, woken) =>
      s.(mutex := None, pc := Roused(s.pc, woken)[t := Idle], f := Give(s.f, c.maxval, c.mutexed, c.pids[t]),
         held := if s.f.flag < c.maxval then s.held - {t} else s.held,
         given := if s.f.flag < c.maxval then s.given + 1 else s.given)
    case Wake(t) => s.(pc := s.pc[t := Woken(s.pc[t].timed)])
    case Timeout(t) => s.(pc := s.pc[t := TimedOut])
  }

  /** The system after the moves `ms`, if they are possible one after the other. */
  ghost function Run(c: Config, ms: seq<Move>): (r: Option<System>)
    ensures r.Some? ==> |r.value.pc| == |c.pids|
  {
    if ms == [] then Some(Start(c))
    else
      match Run(c, ms[..|ms| - 1])
      case None => None
      case Some(s) => if Enabled(c, s, ms[|ms| - 1]) then Some(Apply(c, s, ms[|ms| - 1])) else None
  }

  // -- Conservation -------------------------------------------------------------------------------

  function CountInside(pc: seq<PC>): (n: nat) {
    if pc == [] then 0 else (if Inside(pc[0]) then 1 else 0) + CountInside(pc[1..])
  }

  lemma {:induction false} CountUpdate(pc: seq<PC>, t: nat, p: PC)
    requires t < |pc|
    ensures CountInside(pc[t := p]) == CountInside(pc) - (if Inside(pc[t]) then 1 else 0) + (if Inside(p) then 1 else 0)
  {
    if t > 0 {
      assert pc[t := p][1..] == pc[1..][t - 1 := p];
      CountUpdate(pc[1..], t - 1, p);
    } else {
      assert pc[t := p][1..] == pc[1..];
    }
  }

  lemma {:induction false} CountSame(a: seq<PC>, b: seq<PC>)
    requires |a| == |b| && forall u :: 0 <= u < |a| ==> (Inside(a[u]) <==> Inside(b[u]))
    ensures CountInside(a) == CountInside(b)
  {
    if a != [] {
      CountSame(a[1..], b[1..]);
    }
  }

  lemma {:induction false} CountNone(pc: seq<PC>)
    requires forall u :: 0 <= u < |pc| ==> pc[u] == Idle
    ensures CountInside(pc) == 0
  {
    if pc != [] {
      CountNone(pc[1..]);
    }
  }

  /** The flag accounts for every acquire and release and stays within bounds, at most one thread
      holds the mutex, and `waiting_num` counts the threads inside acquire. */
  ghost predicate Conserved(c: Config, s: System) {
    && |s.pc| == |c.pids|
    && s.f.flag == c.val + s.given - s.taken && 0 <= s.f.flag <= c.maxval
    && (forall t :: 0 <= t < |s.pc| ==> (HoldsMutex(s.pc[t]) <==> s.mutex == Some(t)))
    && s.f.waitingNum == CountInside(s.pc)
  }

  lemma ConservedMove(c: Config, s: System, m: Move)
    requires Legal(c) && Conserved(c, s) && Enabled(c, s, m)
    ensures Conserved(c, Apply(c, s, m))
  {
    hide CountInside, Replace, FirstIndex;
    var r := Apply(c, s, m);
    var t := m.t;
    CountUpdate(s.pc, t, r.pc[t]);
    if m.Release? {
      var pc := Roused(s.pc, m.woken);
      CountSame(s.pc, pc);
      CountUpdate(pc, t, Idle);
    } else if !r.failed {
      assert r.pc == s.pc[t := r.pc[t]];
    }
    if m.Leave? {
      InsideCounted(s.pc, t);
    }
  }

  lemma {:induction false} InsideCounted(pc: seq<PC>, t: nat)
    requires t < |pc| && Inside(pc[t])
    ensures CountInside(pc) > 0
  {
    if t > 0 {
      InsideCounted(pc[1..], t - 1);
    }
  }

  lemma {:induction false} Conservation(c: Config, ms: seq<Move>)
    requires Legal(c) && Run(c, ms).Some?
    ensures Conserved(c, Run(c, ms).value)
  {
    hide Enabled, Apply, Legal;
    if ms == [] {
      assert c.val <= c.maxval by { StartLegal(c); }
      CountNone(Start(c).pc);
    } else {
      var before := ms[..|ms| - 1];
      Conservation(c, before);
      ConservedMove(c, Run(c, before).value, ms[|ms| - 1]);
    }
  }

  lemma StartLegal(c: Config)
    requires Legal(c)
    ensures c.val <= c.maxval
  {
  }

  // -- No lost wake-up -------------------------------------------------------------------------------

  /** Has the mutex or was woken to get it, and will look at the flag. */
  predicate OnTheWay(pc: PC) { pc.Testing? || pc.Woken? }

  ghost predicate SomeAsleep(s: System) { exists t :: 0 <= t < |s.pc| && s.pc[t].Asleep? }

  ghost predicate SomeOnTheWay(s: System) { exists t :: 0 <= t < |s.pc| && OnTheWay(s.pc[t]) }

  ghost predicate NoLostWakeup(s: System) { s.f.flag > 0 && SomeAsleep(s) ==> SomeOnTheWay(s) }

  lemma NoLostWakeupMove(c: Config, s: System, m: Move)
    requires Legal(c) && c.maxval <= 1 && Conserved(c, s) && NoLostWakeup(s) && Enabled(c, s, m)
    ensures NoLostWakeup(Apply(c, s, m))
  {
    hide CountInside, Replace, FirstIndex;
    var r := Apply(c, s, m);
    if r.f.flag > 0 && SomeAsleep(r) {
      var a :| 0 <= a < |r.pc| && r.pc[a].Asleep?;
      assert s.pc[a].Asleep?;
      if m.Release? && s.f.flag == 0 {
        var u :| u in m.woken;
        assert OnTheWay(r.pc[u]);
      } else {
        var u :| 0 <= u < |s.pc| && OnTheWay(s.pc[u]);
        assert OnTheWay(r.pc[u]);
      }
    }
  }

  /** With a maximum of 1 no run loses a wake-up, so a thread that sleeps while nobody is on the way sleeps
      for a reason: the flag is 0. */
  lemma {:induction false} NoLostWakeupRun(c: Config, ms: seq<Move>)
    requires Legal(c) && c.maxval <= 1 && Run(c, ms).Some?
    ensures NoLostWakeup(Run(c, ms).value)
    ensures var s := Run(c, ms).value; SomeAsleep(s) && !SomeOnTheWay(s) ==> s.f.flag == 0
  {
    hide Enabled, Apply, Legal;
    Conservation(c, ms);
    if ms != [] {
      var before := ms[..|ms| - 1];
      Conservation(c, before);
      NoLostWakeupRun(c, before);
      NoLostWakeupMove(c, Run(c, before).value, ms[|ms| - 1]);
    }
  }

  // -- Why the maximum matters -------------------------------------------------------------------------

  /** No legal semaphore with this maximum ever loses a wake-up. */
  ghost predicate NeverLoses(maxval: nat) {
    forall c: Config, ms: seq<Move> :: Legal(c) && c.maxval == maxval && Run(c, ms).Some? ==>
        NoLostWakeup(Run(c, ms).value)
  }

  ghost predicate Reached(c: Config, ms: seq<Move>, pc: seq<PC>, flag: int, mutex: Option<nat>) {
    Run(c, ms).Some? && var s := Run(c, ms).value; s.pc == pc && s.f.flag == flag && s.mutex == mutex && !s.failed
  }

  /** The run so far, extended by one move. */
  lemma Extend(c: Config, ms: seq<Move>, m: Move)
    requires Run(c, ms).Some? && Enabled(c, Run(c, ms).value, m)
    ensures Run(c, ms + [m]) == Some(Apply(c, Run(c, ms).value, m))
  {
    assert (ms + [m])[..|ms|] == ms;
  }

  lemma Call(c: Config, ms: seq<Move>, pc: seq<PC>, flag: int, t: nat, acquire: bool)
    requires Reached(c, ms, pc, flag, None) && t < |pc| && pc[t] == Idle
    ensures var m := if acquire then CallAcquire(t, false) else CallRelease(t);
            Reached(c, ms + [m], pc[t := if acquire then Acquiring(false) else Releasing], flag, None)
  {
    hide Run;
    Extend(c, ms, if acquire then CallAcquire(t, false) else CallRelease(t));
  }

  lemma GetMutex(c: Config, ms: seq<Move>, pc: seq<PC>, flag: int, t: nat)
    requires Reached(c, ms, pc, flag, None) && t < |pc|
    requires pc[t] == Acquiring(false) || pc[t] == Woken(false) || pc[t] == Releasing
    ensures Reached(c, ms + [Lock(t)], pc[t := if pc[t] == Releasing then Giving else Testing(false)], flag, Some(t))
  {
    hide Run;
    Extend(c, ms, Lock(t));
  }

  lemma LookAtFlag(c: Config, ms: seq<Move>, pc: seq<PC>, flag: int, t: nat)
    requires Reached(c, ms, pc, flag, Some(t)) && t < |pc| && pc[t] == Testing(false) && flag >= 0 && !c.mutexed
    ensures if flag == 0 then Reached(c, ms + [Test(t)], pc[t := Asleep(false)], 0, None)
            else Reached(c, ms + [Test(t)], pc[t := Leaving(true)], flag - 1, Some(t))
  {
    hide Run;
    Extend(c, ms, Test(t));
  }

  lemma GoAway(c: Config, ms: seq<Move>, pc: seq<PC>, flag: int, t: nat)
    requires Reached(c, ms, pc, flag, Some(t)) && t < |pc| && pc[t] == Leaving(true)
    ensures Reached(c, ms + [Leave(t)], pc[t := Idle], flag, None)
  {
    hide Run;
    Extend(c, ms, Leave(t));
  }

  /** With a maximum of 2 or more: two threads sleep, two releases happen before the first of them
      wakes, and only the first release signals.  The flag stays positive and nobody comes. */
  lemma LostWakeup(c: Config) returns (ms: seq<Move>)
    requires c.maxval >= 2 && c.val == 0 && !c.mutexed && |c.pids| == 3
    ensures Run(c, ms).Some? && !NoLostWakeup(Run(c, ms).value)
  {
    hide Run, Apply, Enabled;
    var start: seq<PC> := [Idle, Idle, Idle];
    ms := [];
    StartReached(c);
    Call(c, ms, start, 0, 0, true);
    ms := ms + [CallAcquire(0, false)];
    GetMutex(c, ms, [Acquiring(false), Idle, Idle], 0, 0);
    ms := ms + [Lock(0)];
    LookAtFlag(c, ms, [Testing(false), Idle, Idle], 0, 0);
    ms := ms + [Test(0)];
    Call(c, ms, [Asleep(false), Idle, Idle], 0, 1, true);
    ms := ms + [CallAcquire(1, false)];
    GetMutex(c, ms, [Asleep(false), Acquiring(false), Idle], 0, 1);
    ms := ms + [Lock(1)];
    LookAtFlag(c, ms, [Asleep(false), Testing(false), Idle], 0, 1);
    ms := ms + [Test(1)];
    Call(c, ms, [Asleep(false), Asleep(false), Idle], 0, 2, false);
    ms := ms + [CallRelease(2)];
    GetMutex(c, ms, [Asleep(false), Asleep(false), Releasing], 0, 2);
    ms := ms + [Lock(2)];
    FirstRelease(c, ms);
    ms := ms + [Release(2, {0})];
    Call(c, ms, [Woken(false), Asleep(false), Idle], 1, 2, false);
    ms := ms + [CallRelease(2)];
    GetMutex(c, ms, [Woken(false), Asleep(false), Releasing], 1, 2);
    ms := ms + [Lock(2)];
    SecondRelease(c, ms);
    ms := ms + [Release(2, {})];
    GetMutex(c, ms, [Woken(false), Asleep(false), Idle], 2, 0);
    ms := ms + [Lock(0)];
    LookAtFlag(c, ms, [Testing(false), Asleep(false), Idle], 2, 0);
    ms := ms + [Test(0)];
    GoAway(c, ms, [Leaving(true), Asleep(false), Idle], 1, 0);
    ms := ms + [Leave(0)];
    assert Reached(c, ms, [Idle, Asleep(false), Idle], 1, None);
    assert Run(c, ms).value.pc[1].Asleep?;
  }

  lemma StartReached(c: Config)
    requires c.val == 0 && |c.pids| == 3
    ensures Reached(c, [], [Idle, Idle, Idle], 0, None)
  {
    assert Start(c).pc == [Idle, Idle, Idle];
  }

  lemma FirstRelease(c: Config, ms: seq<Move>)
    requires Reached(c, ms, [Asleep(false), Asleep(false), Giving], 0, Some(2)) && c.maxval >= 2 && !c.mutexed
    ensures Reached(c, ms + [Release(2, {0})], [Woken(false), Asleep(false), Idle], 1, None)
  {
    hide Run;
    Extend(c, ms, Release(2, {0}));
  }

  lemma SecondRelease(c: Config, ms: seq<Move>)
    requires Reached(c, ms, [Woken(false), Asleep(false), Giving], 1, Some(2)) && c.maxval >= 2 && !c.mutexed
    ensures Reached(c, ms + [Release(2, {})], [Woken(false), Asleep(false), Idle], 2, None)
  {
    hide Run;
    Extend(c, ms, Release(2, {}));
  }

  /** Signalling only when the flag leaves 0 is safe exactly for a maximum of at most 1. */
  lemma LostWakeupIff(maxval: nat)
    ensures NeverLoses(maxval) <==> maxval <= 1
  {
    hide Run, Legal;
    if maxval <= 1 {
      forall c: Config, ms: seq<Move> | Legal(c) && c.maxval == maxval && Run(c, ms).Some?
        ensures NoLostWakeup(Run(c, ms).value)
      {
        NoLostWakeupRun(c, ms);
      }
    } else {
      var c := Config(0, maxval, false, [1, 1, 1]);
      assert Legal(c) by { ThreeThreads(maxval); }
      var ms := LostWakeup(c);
    }
  }

  lemma ThreeThreads(maxval: nat)
    ensures Legal(Config(0, maxval, false, [1, 1, 1]))
  {
  }

  // -- Mutual exclusion --------------------------------------------------------------------------------

  /** Only threads that hold the semaphore release it. */
  ghost predicate Disciplined(c: Config, ms: seq<Move>)
    decreases |ms|
  {
    ms != [] ==>
      var before, m := ms[..|ms| - 1], ms[|ms| - 1];
      Disciplined(c, before) && (m.CallRelease? && Run(c, before).Some? ==> m.t in Run(c, before).value.held)
  }

  /** Slot `i` holds `pid` and every other slot is free. */
  predicate OnlyAt(list: seq<int>, i: nat, pid: int) {
    i < |list| && list[i] == pid && forall k :: 0 <= k < |list| && k != i ==> list[k] == -1
  }

  predicate AllFree(list: seq<int>) { forall k :: 0 <= k < |list| ==> list[k] == -1 }

  ghost predicate HeldBy(c: Config, s: System, h: nat) {
    && h < |c.pids| && s.held == {h} && s.f.flag == 0 && s.f.obtainerNum == 1
    && exists i :: OnlyAt(s.f.obtainers, i, c.pids[h])
  }

  ghost predicate Free(s: System) {
    s.held == {} && s.f.flag == 1 && s.f.obtainerNum == 0 && AllFree(s.f.obtainers)
  }

  ghost predicate Exclusive(c: Config, s: System) {
    && |s.pc| == |c.pids| && |s.f.obtainers| == OBTAINER_SLOTS && !s.failed
    && (Free(s) || exists h :: HeldBy(c, s, h))
    && forall t :: 0 <= t < |s.pc| && (s.pc[t].Releasing? || s.pc[t].Giving?) ==> t in s.held
  }

  lemma ReplaceOnly(list: seq<int>, i: nat, pid: int)
    requires OnlyAt(list, i, pid) && pid != -1
    ensures FirstIndex(list, pid) == i && AllFree(Replace(list, pid, -1))
  {
    var k := FirstIndex(list, pid);
    if k < |list| { assert k == i; }
  }

  lemma ReplaceFree(list: seq<int>, pid: int)
    requires AllFree(list) && list != []
    ensures FirstIndex(list, -1) == 0 && OnlyAt(Replace(list, -1, pid), 0, pid)
  {
  }

  lemma ExclusiveMove(c: Config, s: System, m: Move)
    requires Legal(c) && c.mutexed && Exclusive(c, s) && Enabled(c, s, m) && (m.CallRelease? ==> m.t in s.held)
    ensures Exclusive(c, Apply(c, s, m))
  {
    hide Replace, FirstIndex;
    var r := Apply(c, s, m);
    if m.Test? && s.f.flag != 0 {
      assert Free(s);
      ReplaceFree(s.f.obtainers, c.pids[m.t]);
      assert HeldBy(c, r, m.t);
    } else if m.Release? {
      assert m.t in s.held;
      var h: nat :| HeldBy(c, s, h);
      var i: nat :| OnlyAt(s.f.obtainers, i, c.pids[h]);
      ReplaceOnly(s.f.obtainers, i, c.pids[h]);
      assert Free(r);
    } else if !Free(s) {
      var h: nat :| HeldBy(c, s, h);
      assert HeldBy(c, r, h);
    }
  }

  /** A mutex semaphore released only by its holder: at every point of every run either it is free,
      or exactly one thread holds it and `obtainer_list` names that thread's process and nothing
      else; `thread_flag + obtainer_num` is 1, and the assertion in acquire never fails. */
  lemma {:induction false} MutualExclusion(c: Config, ms: seq<Move>)
    requires Legal(c) && c.mutexed && Run(c, ms).Some? && Disciplined(c, ms)
    ensures Exclusive(c, Run(c, ms).value)
  {
    hide Enabled, Apply, Exclusive;
    if ms == [] {
      StartExclusive(c);
    } else {
      var before := ms[..|ms| - 1];
      MutualExclusion(c, before);
      ExclusiveMove(c, Run(c, before).value, ms[|ms| - 1]);
    }
  }

  lemma StartExclusive(c: Config)
    requires Legal(c) && c.mutexed
    ensures Exclusive(c, Start(c))
  {
    assert Free(Start(c));
  }

}
