/** What the moves of a run alone say about the semaphore: which acquires succeeded, which timed out, who owns it, and
    who is on the lists. */
module SemaphoreHistory {
  import opened CStrings
  import opened Semaphore

  // -- Outcomes ------------------------------------------------------------------------------------------

  /** An acquire of thread `t` is about to report success. */
  predicate Succeeding(s: System, t: nat) { t < |s.pc| && s.pc[t] == Leaving(true) }

  /** The move `m`, made after `before`, ends an acquire that reports success. */
  ghost predicate Reports(c: Config, before: seq<Move>, m: Move) {
    m.Leave? && Run(c, before).Some? && Succeeding(Run(c, before).value, m.t)
  }

  /** The move `m`, made after `before`, is a release below the maximum. */
  ghost predicate GivesBack(c: Config, before: seq<Move>, m: Move) {
    m.Release? && Run(c, before).Some? && Run(c, before).value.f.flag < c.maxval
  }

  /** How many acquires have reported success. */
  ghost function Successes(c: Config, ms: seq<Move>): (n: nat) {
    if ms == [] then 0
    else
      var before, m := ms[..|ms| - 1], ms[|ms| - 1];
      Successes(c, before) + if Reports(c, before, m) then 1 else 0
  }

  /** How many releases were below the maximum. */
  ghost function Returns(c: Config, ms: seq<Move>): (n: nat) {
    if ms == [] then 0
    else
      var before, m := ms[..|ms| - 1], ms[|ms| - 1];
      Returns(c, before) + if GivesBack(c, before, m) then 1 else 0
  }

  function CountSucceeding(pc: seq<PC>): (n: nat) {
    if pc == [] then 0 else (if pc[0] == Leaving(true) then 1 else 0) + CountSucceeding(pc[1..])
  }

  lemma {:induction false} SucceedingUpdate(pc: seq<PC>, t: nat, p: PC)
    requires t < |pc|
    ensures CountSucceeding(pc[t := p]) ==
            CountSucceeding(pc) - (if pc[t] == Leaving(true) then 1 else 0) + if p == Leaving(true) then 1 else 0
  {
    if t > 0 {
      assert pc[t := p][1..] == pc[1..][t - 1 := p];
      SucceedingUpdate(pc[1..], t - 1, p);
    } else {
      assert pc[t := p][1..] == pc[1..];
    }
  }

  lemma {:induction false} SucceedingSame(a: seq<PC>, b: seq<PC>)
    requires |a| == |b| && forall u :: 0 <= u < |a| ==> (a[u] == Leaving(true) <==> b[u] == Leaving(true))
    ensures CountSucceeding(a) == CountSucceeding(b)
  {
    if a != [] {
      SucceedingSame(a[1..], b[1..]);
    }
  }

  lemma {:induction false} SucceedingNone(pc: seq<PC>)
    requires forall u :: 0 <= u < |pc| ==> pc[u] == Idle
    ensures CountSucceeding(pc) == 0
  {
    if pc != [] {
      SucceedingNone(pc[1..]);
    }
  }

  lemma SuccessMove(c: Config, s: System, m: Move)
    requires Enabled(c, s, m) && |s.pc| == |c.pids|
    ensures var r := Apply(c, s, m);
            CountSucceeding(r.pc) - r.taken ==
            CountSucceeding(s.pc) - s.taken - if m.Leave? && Succeeding(s, m.t) then 1 else 0
    ensures Apply(c, s, m).given == s.given + if m.Release? && s.f.flag < c.maxval then 1 else 0
  {
    hide Replace, FirstIndex;
    var r, t := Apply(c, s, m), m.t;
    SucceedingUpdate(s.pc, t, r.pc[t]);
    if m.Release? {
      SucceedingSame(s.pc, Roused(s.pc, m.woken));
      SucceedingUpdate(Roused(s.pc, m.woken), t, Idle);
    } else if !r.failed {
      assert r.pc == s.pc[t := r.pc[t]];
    }
  }

  /** Every acquire that reported success, or is about to, took one from the flag, and every release below the
      maximum gave one back; nothing else changed it. */
  lemma {:induction false} FlagAccounts(c: Config, ms: seq<Move>)
    requires Legal(c) && Run(c, ms).Some?
    ensures var s := Run(c, ms).value;
            && s.taken == Successes(c, ms) + CountSucceeding(s.pc) && s.given == Returns(c, ms)
            && s.f.flag == c.val + Returns(c, ms) - Successes(c, ms) - CountSucceeding(s.pc)
            && 0 <= s.f.flag <= c.maxval
  {
    Conservation(c, ms);
    TakenAccounts(c, ms);
  }

  lemma {:induction false} TakenAccounts(c: Config, ms: seq<Move>)
    requires Run(c, ms).Some?
    ensures var s := Run(c, ms).value;
            s.taken == Successes(c, ms) + CountSucceeding(s.pc) && s.given == Returns(c, ms)
  {
    hide Enabled, Apply, CountSucceeding, Succeeding;
    if ms == [] {
      SucceedingNone(Start(c).pc);
    } else {
      var before, m := ms[..|ms| - 1], ms[|ms| - 1];
      TakenAccounts(c, before);
      SuccessMove(c, Run(c, before).value, m);
    }
  }

  // -- Calls ------------------------------------------------------------------------------------------------

  /** The last call of thread `t`. */
  function LastCall(ms: seq<Move>, t: nat): (call: Option<Move>) {
    if ms == [] then None
    else
      var m := ms[|ms| - 1];
      if (m.CallAcquire? || m.CallRelease?) && m.t == t then Some(m) else LastCall(ms[..|ms| - 1], t)
  }

  /** Its wait has timed out since then. */
  predicate Expired(ms: seq<Move>, t: nat) {
    ms != [] &&
    var m := ms[|ms| - 1];
    if m.t == t && m.Timeout? then true
    else if m.t == t && (m.CallAcquire? || m.CallRelease?) then false
    else Expired(ms[..|ms| - 1], t)
  }

  /** Where a thread is follows from its last call and from whether that timed out. */
  predicate Follows(pc: PC, t: nat, call: Option<Move>, expired: bool) {
    match pc
    case Idle => true
    case Releasing => call == Some(CallRelease(t))
    case Giving => call == Some(CallRelease(t))
    case TimedOut => call == Some(CallAcquire(t, true)) && expired
    case Leaving(obtained) =>
      && call.Some? && call.value.CallAcquire? && call.value.t == t
      && (obtained <==> !expired) && (expired ==> call.value.timed)
    case _ => call == Some(CallAcquire(t, pc.timed)) && !expired
  }

  lemma FollowsMove(c: Config, s: System, ms: seq<Move>, m: Move, t: nat)
    requires Enabled(c, s, m) && |s.pc| == |c.pids| && t < |s.pc|
    requires Follows(s.pc[t], t, LastCall(ms, t), Expired(ms, t))
    ensures Follows(Apply(c, s, m).pc[t], t, LastCall(ms + [m], t), Expired(ms + [m], t))
  {
    hide Replace, FirstIndex, Take, Give;
    assert (ms + [m])[..|ms|] == ms;
  }

  /** At every point of every run: a thread is inside acquire exactly as its last call says, and an acquire reports
      failure exactly when it was called with a time limit and its wait timed out. */
  lemma {:induction false} CallsFollowed(c: Config, ms: seq<Move>, t: nat)
    requires Run(c, ms).Some? && t < |c.pids|
    ensures Follows(Run(c, ms).value.pc[t], t, LastCall(ms, t), Expired(ms, t))
    ensures Run(c, ms).value.pc[t] == Leaving(false) ==> LastCall(ms, t) == Some(CallAcquire(t, true)) && Expired(ms, t)
    ensures Run(c, ms).value.pc[t] == Leaving(true) ==> !Expired(ms, t)
  {
    hide Enabled, Apply, LastCall, Expired;
    if ms != [] {
      var before, m := ms[..|ms| - 1], ms[|ms| - 1];
      CallsFollowed(c, before, t);
      assert ms == before + [m];
      FollowsMove(c, Run(c, before).value, before, m, t);
    }
  }

  // -- Ownership --------------------------------------------------------------------------------------------

  /** Thread `t` got the semaphore from an acquire that returned, and has not given it back. */
  ghost predicate Owns(c: Config, ms: seq<Move>, t: nat) {
    ms != [] &&
    var before, m := ms[..|ms| - 1], ms[|ms| - 1];
    if m.t == t && Reports(c, before, m) then true
    else if m.t == t && GivesBack(c, before, m) then false
    else Owns(c, before, t)
  }

  lemma HeldMove(c: Config, s: System, m: Move, t: nat)
    requires Enabled(c, s, m) && |s.pc| == |c.pids|
    ensures var r := Apply(c, s, m);
            && (m.t == t && m.Leave? && Succeeding(s, t) ==> (t in r.held <==> t in s.held) && !Succeeding(r, t))
            && (m.t == t && m.Release? ==>
                  !Succeeding(s, t) && !Succeeding(r, t) && (t in r.held <==> t in s.held && s.f.flag >= c.maxval))
            && (m.t == t && !m.Release? && !(m.Leave? && Succeeding(s, t)) ==>
                  !Succeeding(s, t) && (t in r.held <==> t in s.held || Succeeding(r, t)))
            && (m.t != t ==> (t in r.held <==> t in s.held) && (Succeeding(r, t) <==> Succeeding(s, t)))
  {
    hide Replace, FirstIndex, Take, Give;
  }

  /** The threads recorded as holders are those that own the semaphore and those about to be told so. */
  lemma {:induction false} HeldIs(c: Config, ms: seq<Move>, t: nat)
    requires Run(c, ms).Some?
    ensures t in Run(c, ms).value.held <==> Owns(c, ms, t) || Succeeding(Run(c, ms).value, t)
  {
    hide Enabled, Apply;
    if ms == [] {
      assert t < |c.pids| ==> Start(c).pc[t] == Idle;
    } else {
      var before, m := ms[..|ms| - 1], ms[|ms| - 1];
      HeldIs(c, before, t);
      HeldMove(c, Run(c, before).value, m, t);
    }
  }

  /** Mutual exclusion in terms of the calls: with a mutex semaphore that only owners release, no two threads own it
      or are about to be told so. */
  lemma OneOwner(c: Config, ms: seq<Move>, t: nat, u: nat)
    requires Legal(c) && c.mutexed && Run(c, ms).Some? && Disciplined(c, ms)
    requires Owns(c, ms, t) || Succeeding(Run(c, ms).value, t)
    requires Owns(c, ms, u) || Succeeding(Run(c, ms).value, u)
    ensures t == u && Run(c, ms).value.f.flag == 0
  {
    hide Run, Disciplined, Legal, Owns, OnlyAt, AllFree;
    MutualExclusion(c, ms);
    HeldIs(c, ms, t);
    HeldIs(c, ms, u);
    var s := Run(c, ms).value;
    var h: nat :| HeldBy(c, s, h);
  }

  // -- The lists --------------------------------------------------------------------------------------------

  /** How many threads of the process `pid` are inside acquire. */
  function InsideAs(pc: seq<PC>, pids: seq<int>, pid: int): (n: nat)
    requires |pc| == |pids|
  {
    if pc == [] then 0 else (if Inside(pc[0]) && pids[0] == pid then 1 else 0) + InsideAs(pc[1..], pids[1..], pid)
  }

  lemma {:induction false} InsideAsUpdate(pc: seq<PC>, pids: seq<int>, pid: int, t: nat, p: PC)
    requires |pc| == |pids| && t < |pc|
    ensures InsideAs(pc[t := p], pids, pid) ==
            InsideAs(pc, pids, pid)
            + if pids[t] != pid then 0 else (if Inside(p) then 1 else 0) - if Inside(pc[t]) then 1 else 0
  {
    hide Inside;
    if t > 0 {
      assert pc[t := p][1..] == pc[1..][t - 1 := p];
      InsideAsUpdate(pc[1..], pids[1..], pid, t - 1, p);
    } else {
      assert pc[t := p][1..] == pc[1..];
    }
  }

  lemma {:induction false} InsideAsSame(a: seq<PC>, b: seq<PC>, pids: seq<int>, pid: int)
    requires |a| == |b| == |pids| && forall u :: 0 <= u < |a| ==> (Inside(a[u]) <==> Inside(b[u]))
    ensures InsideAs(a, pids, pid) == InsideAs(b, pids, pid)
  {
    hide Inside;
    if a != [] {
      InsideAsSame(a[1..], b[1..], pids[1..], pid);
    }
  }

  lemma {:induction false} InsideAsNone(pc: seq<PC>, pids: seq<int>, pid: int)
    requires |pc| == |pids| && forall u :: 0 <= u < |pc| ==> pc[u] == Idle
    ensures InsideAs(pc, pids, pid) == 0
  {
    if pc != [] {
      InsideAsNone(pc[1..], pids[1..], pid);
    }
  }

  /** How many slots of `list` hold `x`. */
  function Slots(list: seq<int>, x: int): (n: nat)
    ensures n <= |list|
  {
    if list == [] then 0 else (if list[0] == x then 1 else 0) + Slots(list[1..], x)
  }

  lemma {:induction false} ReplaceSlots(list: seq<int>, x: int, y: int, z: int)
    requires x != y
    ensures Slots(Replace(list, x, y), z) ==
            if Slots(list, x) == 0 then Slots(list, z)
            else Slots(list, z) + (if z == y then 1 else 0) - if z == x then 1 else 0
  {
    if list != [] && list[0] != x {
      ReplaceSlots(list[1..], x, y, z);
      var i := FirstIndex(list, x);
      if i < |list| { assert list[i := y][1..] == list[1..][i - 1 := y]; }
    }
  }

  lemma {:induction false} AllSlots(n: nat, x: int, z: int)
    ensures Slots(seq(n, _ => x), z) == if z == x then n else 0
  {
    if n > 0 {
      AllSlots(n - 1, x, z);
      assert seq(n, _ => x)[1..] == seq(n - 1, _ => x);
    }
  }

  /** `obtainer_num` is the number of slots taken. */
  predicate Obtainers(f: Fields) {
    |f.obtainers| == OBTAINER_SLOTS && f.obtainerNum == OBTAINER_SLOTS - Slots(f.obtainers, -1)
  }

  /** As many slots of the waiting list are taken as threads are inside, if there is one for each thread. */
  predicate Listed(c: Config, s: System)
    requires |s.pc| == |c.pids|
  {
    && |s.f.waiting| == WAITING_SLOTS
    && (|c.pids| <= WAITING_SLOTS ==> CountInside(s.pc) == WAITING_SLOTS - Slots(s.f.waiting, -1))
    && Obtainers(s.f)
  }

  predicate ListedAs(c: Config, s: System, pid: int)
    requires |s.pc| == |c.pids|
  {
    && Slots(s.f.waiting, pid) <= InsideAs(s.pc, c.pids, pid)
    && (|c.pids| <= WAITING_SLOTS ==> Slots(s.f.waiting, pid) == InsideAs(s.pc, c.pids, pid))
  }

  lemma {:induction false} SomeoneOutside(pc: seq<PC>, t: nat)
    requires t < |pc| && !Inside(pc[t])
    ensures CountInside(pc) < |pc|
  {
    hide Inside;
    if t > 0 {
      SomeoneOutside(pc[1..], t - 1);
    } else {
      InsideAtMost(pc[1..]);
    }
  }

  lemma {:induction false} InsideAtMost(pc: seq<PC>)
    ensures CountInside(pc) <= |pc|
  {
    if pc != [] {
      InsideAtMost(pc[1..]);
    }
  }

  /** A thread is entering acquire with this move; it is leaving. */
  predicate Enters(s: System, m: Move) { m.Lock? && m.t < |s.pc| && s.pc[m.t].Acquiring? }

  lemma InsideMove(c: Config, s: System, m: Move, pid: int)
    requires Enabled(c, s, m) && |s.pc| == |c.pids|
    ensures var r := Apply(c, s, m);
            && CountInside(r.pc) == CountInside(s.pc) + (if Enters(s, m) then 1 else 0) - (if m.Leave? then 1 else 0)
            && InsideAs(r.pc, c.pids, pid) ==
               InsideAs(s.pc, c.pids, pid)
               + if c.pids[m.t] != pid then 0 else (if Enters(s, m) then 1 else 0) - if m.Leave? then 1 else 0
  {
    hide CountInside, Replace, FirstIndex, InsideAs, Take, Give;
    var r, t := Apply(c, s, m), m.t;
    CountUpdate(s.pc, t, r.pc[t]);
    InsideAsUpdate(s.pc, c.pids, pid, t, r.pc[t]);
    if m.Release? {
      var pc := Roused(s.pc, m.woken);
      CountSame(s.pc, pc);
      CountUpdate(pc, t, Idle);
      InsideAsSame(s.pc, pc, c.pids, pid);
      InsideAsUpdate(pc, c.pids, pid, t, Idle);
    } else if !r.failed {
      assert r.pc == s.pc[t := r.pc[t]];
    }
  }

  lemma WaitingMove(c: Config, s: System, m: Move)
    requires Enabled(c, s, m) && |s.pc| == |c.pids|
    ensures Apply(c, s, m).f.waiting ==
            if Enters(s, m) then Replace(s.f.waiting, -1, c.pids[m.t])
            else if m.Leave? then Replace(s.f.waiting, c.pids[m.t], -1) else s.f.waiting
  {
    hide Replace, FirstIndex;
  }

  lemma {:induction false} InsideAsCounted(pc: seq<PC>, pids: seq<int>, t: nat)
    requires |pc| == |pids| && t < |pc| && Inside(pc[t])
    ensures InsideAs(pc, pids, pids[t]) > 0
  {
    hide Inside;
    if t > 0 {
      InsideAsCounted(pc[1..], pids[1..], t - 1);
    }
  }

  lemma ListedMove(c: Config, s: System, m: Move, pid: int)
    requires Legal(c) && Enabled(c, s, m) && |s.pc| == |c.pids| && pid > 0
    requires Listed(c, s) && ListedAs(c, s, pid) && ListedAs(c, s, c.pids[m.t])
    ensures ListedAs(c, Apply(c, s, m), pid)
    ensures var r := Apply(c, s, m);
            && |r.f.waiting| == WAITING_SLOTS
            && (|c.pids| <= WAITING_SLOTS ==> CountInside(r.pc) == WAITING_SLOTS - Slots(r.f.waiting, -1))
  {
    hide CountInside, InsideAs, Replace, Slots, Take, Give, Register, Unregister, Apply;
    WaitingMove(c, s, m);
    InsideMove(c, s, m, pid);
    var own := c.pids[m.t];
    if Enters(s, m) {
      SomeoneOutside(s.pc, m.t);
      ReplaceSlots(s.f.waiting, -1, own, pid);
      ReplaceSlots(s.f.waiting, -1, own, -1);
    } else if m.Leave? {
      InsideAsCounted(s.pc, c.pids, m.t);
      ReplaceSlots(s.f.waiting, own, -1, pid);
      ReplaceSlots(s.f.waiting, own, -1, -1);
    }
  }

  lemma TakenSlot(f: Fields, mutexed: bool, pid: int)
    requires Obtainers(f) && pid > 0
    ensures Take(f, mutexed, pid).Some? ==> Obtainers(Take(f, mutexed, pid).value)
  {
    hide Slots, FirstIndex, Replace;
    ReplaceSlots(f.obtainers, -1, pid, -1);
    FoundSlot(f.obtainers, -1);
  }

  lemma GivenSlot(f: Fields, maxval: nat, mutexed: bool, pid: int)
    requires Obtainers(f) && pid > 0
    ensures Obtainers(Give(f, maxval, mutexed, pid))
  {
    hide Slots, FirstIndex, Replace;
    ReplaceSlots(f.obtainers, pid, -1, -1);
    FoundSlot(f.obtainers, pid);
    FewSlots(f.obtainers, -1, pid);
  }

  lemma ObtainersMove(c: Config, s: System, m: Move)
    requires Legal(c) && Enabled(c, s, m) && |s.pc| == |c.pids| && Obtainers(s.f)
    ensures Obtainers(Apply(c, s, m).f)
  {
    hide Slots, Take, Give, Replace;
    var pid := c.pids[m.t];
    TakenSlot(s.f, c.mutexed, pid);
    GivenSlot(s.f, c.maxval, c.mutexed, pid);
  }

  lemma {:induction false} FoundSlot(list: seq<int>, x: int)
    ensures FirstIndex(list, x) < |list| <==> Slots(list, x) > 0
  {
    if list != [] && list[0] != x {
      FoundSlot(list[1..], x);
    }
  }

  lemma {:induction false} FewSlots(list: seq<int>, x: int, y: int)
    requires x != y
    ensures Slots(list, x) + Slots(list, y) <= |list|
  {
    if list != [] {
      FewSlots(list[1..], x, y);
    }
  }

  /** At every point of every run the waiting list holds a process at most as often as it has threads inside acquire,
      exactly as often when there are slots for all threads, and `obtainer_num` is the number of slots taken in the
      obtainer list. */
  lemma {:induction false} ListsKept(c: Config, ms: seq<Move>, pid: int)
    requires Legal(c) && Run(c, ms).Some? && pid > 0
    ensures Listed(c, Run(c, ms).value) && ListedAs(c, Run(c, ms).value, pid)
  {
    hide Enabled, Apply, Slots, CountInside, InsideAs, Legal;
    if ms == [] {
      AllSlots(WAITING_SLOTS, -1, pid);
      AllSlots(WAITING_SLOTS, -1, -1);
      AllSlots(OBTAINER_SLOTS, -1, -1);
      InsideAsNone(Start(c).pc, c.pids, pid);
      CountNone(Start(c).pc);
    } else {
      var before, m := ms[..|ms| - 1], ms[|ms| - 1];
      ListsKept(c, before, pid);
      MoverPid(c, Run(c, before).value, m);
      ListsKept(c, before, c.pids[m.t]);
      ListedMove(c, Run(c, before).value, m, pid);
      ObtainersMove(c, Run(c, before).value, m);
    }
  }

  lemma MoverPid(c: Config, s: System, m: Move)
    requires Legal(c) && Enabled(c, s, m) && |s.pc| == |c.pids|
    ensures m.t < |c.pids| && c.pids[m.t] > 0
  {
  }
}
