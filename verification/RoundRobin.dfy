/** The table of remote calls in aosmgr.c: `aosmgr_args_alloc`, `aosmgr_args_free` with the collection they
    share, and the round-robin `aosmgr_args_next`. */
module RoundRobin {
  import opened CStrings
  import opened Marks

  const OSTAG_IPC_Total: nat := 128
  const OSTAGName_Len: nat := 64

  datatype Call = Call(relayer: string, client: int, ready: bool, reg: bool)

  /** A slot is None while its mark is clear. */
  type Calls = seq<Option<Call>>

  // -- The next call --------------------------------------------------------------------------------------

  predicate Ready(s: Calls, relayer: string, i: nat)
    requires i < |s|
  {
    s[i].Some? && s[i].value.relayer == relayer && s[i].value.ready
  }

  function FirstReady(s: Calls, relayer: string, from: nat, end: nat): (r: Option<nat>)
    requires from <= end <= |s|
    ensures r.Some? ==> from <= r.value < end && Ready(s, relayer, r.value)
    ensures forall i :: from <= i < (if r.Some? then r.value else end) ==> !Ready(s, relayer, i)
    decreases end - from
  {
    if from == end then None
    else if Ready(s, relayer, from) then Some(from)
    else FirstReady(s, relayer, from + 1, end)
  }

  /** `aosmgr_args_next`: the slot found, and the index for the next call. */
  function Next(s: Calls, relayer: string, curr: nat): (r: (Option<nat>, nat))
    requires curr <= |s| == OSTAG_IPC_Total
    ensures r.0.Some? ==> r.0.value < |s| && Ready(s, relayer, r.0.value)
    ensures r.1 <= |s|
  {
    var a := FirstReady(s, relayer, curr, |s|);
    var b := if a.Some? then a else FirstReady(s, relayer, 0, curr);
    (b, if b.Some? then (b.value + 1) % OSTAG_IPC_Total else curr)
  }

  /** NULL is returned exactly when no slot of that relayer is ready. */
  lemma NoneReady(s: Calls, relayer: string, curr: nat)
    requires curr <= |s| == OSTAG_IPC_Total
    ensures Next(s, relayer, curr).0.None? <==> forall i :: 0 <= i < |s| ==> !Ready(s, relayer, i)
  {
  }

  /** How far slot `k` is ahead of the index, going round. */
  function Ahead(curr: nat, k: nat): (d: nat)
    requires curr <= OSTAG_IPC_Total && k < OSTAG_IPC_Total
    ensures d < OSTAG_IPC_Total
  {
    if k >= curr then k - curr else k + OSTAG_IPC_Total - curr
  }

  /** What is returned is the nearest slot, going round from the index, that is marked, belongs to the relayer and is
      ready; the index goes on behind it. */
  lemma NearestReady(s: Calls, relayer: string, curr: nat)
    requires curr <= |s| == 128
    ensures var r := Next(s, relayer, curr);
            && (r.0.Some? ==>
                  var k := r.0.value;
                  && s[k].Some? && s[k].value.relayer == relayer && s[k].value.ready
                  && (r.1 == if k == 127 then 0 else k + 1)
                  && forall i :: 0 <= i < |s| && s[i].Some? && s[i].value.relayer == relayer && s[i].value.ready ==>
                       Ahead(curr, k) <= Ahead(curr, i))
            && (r.0.None? ==>
                  && r.1 == curr
                  && forall i :: 0 <= i < |s| && s[i].Some? && s[i].value.relayer == relayer ==> !s[i].value.ready)
  {
    forall i | 0 <= i < |s|
      ensures Ready(s, relayer, i) <==> s[i].Some? && s[i].value.relayer == relayer && s[i].value.ready
    {
    }
  }

  /** A ready slot is returned, or it comes strictly closer. */
  lemma Closer(s: Calls, relayer: string, curr: nat, k: nat)
    requires curr <= |s| == OSTAG_IPC_Total && k < |s| && Ready(s, relayer, k)
    ensures var r := Next(s, relayer, curr);
            r.0.Some? && (r.0.value == k || Ahead(r.1, k) < Ahead(curr, k))
  {
  }

  /** What `n` calls that share one index return, when the table is `tables[i]` at call number `i`. */
  function Turns(tables: seq<Calls>, relayer: string, curr: nat): (r: seq<Option<nat>>)
    requires curr <= OSTAG_IPC_Total && forall i :: 0 <= i < |tables| ==> |tables[i]| == OSTAG_IPC_Total
    ensures |r| == |tables|
  {
    if tables == [] then []
    else
      var n := Next(tables[0], relayer, curr);
      [n.0] + Turns(tables[1..], relayer, n.1)
  }

  lemma {:induction false} FairWithin(tables: seq<Calls>, relayer: string, curr: nat, k: nat)
    requires curr <= OSTAG_IPC_Total && k < OSTAG_IPC_Total && |tables| > Ahead(curr, k)
    requires forall i :: 0 <= i < |tables| ==> |tables[i]| == OSTAG_IPC_Total && Ready(tables[i], relayer, k)
    ensures exists i :: 0 <= i <= Ahead(curr, k) && Turns(tables, relayer, curr)[i] == Some(k)
    decreases Ahead(curr, k)
  {
    hide Ready, FirstReady;
    var n := Next(tables[0], relayer, curr);
    Closer(tables[0], relayer, curr, k);
    if n.0.value == k {
      assert Turns(tables, relayer, curr)[0] == Some(k);
    } else {
      FairWithin(tables[1..], relayer, n.1, k);
      var i :| 0 <= i <= Ahead(n.1, k) && Turns(tables[1..], relayer, n.1)[i] == Some(k);
      assert Turns(tables, relayer, curr)[i + 1] == Some(k);
    }
  }

  /** Fairness: whatever happens to the other slots, one that stays marked and ready is returned within
      OSTAG_IPC_Total calls sharing one index. */
  lemma Fair(tables: seq<Calls>, relayer: string, curr: nat, k: nat)
    requires curr <= OSTAG_IPC_Total && k < OSTAG_IPC_Total && |tables| == OSTAG_IPC_Total
    requires forall i :: 0 <= i < |tables| ==> |tables[i]| == OSTAG_IPC_Total && Ready(tables[i], relayer, k)
    ensures Some(k) in Turns(tables, relayer, curr)
  {
    FairWithin(tables, relayer, curr, k);
  }

  // -- Taking and freeing slots ---------------------------------------------------------------------------

  predicate IsFor(s: Calls, relayer: string, client: int, i: nat)
    requires i < |s|
  {
    s[i].Some? && s[i].value.relayer == relayer && (client <= 0 || client == s[i].value.client)
  }

  /** The scan of `aosmgr_args_free` from slot `i` on: a slot in use ends it, and so does the one slot of a
      given client. */
  function Freed(s: Calls, relayer: string, client: int, i: nat): (r: Calls)
    requires i <= |s|
    ensures |r| == |s|
    decreases |s| - i
  {
    if i == |s| then s
    else if !IsFor(s, relayer, client, i) then Freed(s, relayer, client, i + 1)
    else if s[i].value.reg then s
    else if client > 0 then s[i := None]
    else Freed(s[i := None], relayer, client, i + 1)
  }

  /** `aosmgr_args_free`. */
  function Released(s: Calls, relayer: string, client: int): (r: Calls)
    ensures |r| == |s|
  {
    if relayer == "" then s else Freed(s, relayer, client, 0)
  }

  /** Every client has at most one slot for each relayer; client numbers are positive and names not empty. */
  ghost predicate OneEach(s: Calls) {
    && (forall i :: 0 <= i < |s| && s[i].Some? ==> s[i].value.client > 0 && s[i].value.relayer != "")
    && (forall i, j :: 0 <= i < j < |s| && s[i].Some? && s[j].Some? ==>
          s[i].value.client != s[j].value.client || s[i].value.relayer != s[j].value.relayer)
  }

  /** Freeing the slot of one client frees that slot and no other, unless the client is using it. */
  lemma {:induction false} FreedOne(s: Calls, k: nat, i: nat)
    requires OneEach(s) && i <= k < |s| && s[k].Some?
    ensures Freed(s, s[k].value.relayer, s[k].value.client, i) == if s[k].value.reg then s else s[k := None]
    decreases k - i
  {
    if i < k {
      FreedOne(s, k, i + 1);
    }
  }

  /** Freeing keeps the rest as it is. */
  lemma {:induction false} FreedShrinks(s: Calls, relayer: string, client: int, i: nat)
    requires i <= |s|
    ensures var r := Freed(s, relayer, client, i);
            forall j :: 0 <= j < |s| ==>
                r[j] == s[j] || (r[j].None? && s[j].Some? && !s[j].value.reg && IsFor(s, relayer, client, j))
    decreases |s| - i
  {
    if i < |s| && IsFor(s, relayer, client, i) && !s[i].value.reg && client <= 0 {
      FreedShrinks(s[i := None], relayer, client, i + 1);
    } else if i < |s| && !IsFor(s, relayer, client, i) {
      FreedShrinks(s, relayer, client, i + 1);
    }
  }

  /** Slot `i` belongs to the relayer. */
  predicate Of(s: Calls, relayer: string, i: int) {
    0 <= i < |s| && s[i].Some? && s[i].value.relayer == relayer
  }

  /** Slot `j` belongs to the relayer, and from slot `i` to there none of its slots is in use. */
  predicate BeforeUse(s: Calls, relayer: string, i: nat, j: int) {
    i <= j && Of(s, relayer, j) && forall k :: i <= k <= j && Of(s, relayer, k) ==> !s[k].value.reg
  }

  lemma BeforeUseFrom(s: Calls, relayer: string, i: nat, j: int)
    requires i < |s| && i < j
    ensures BeforeUse(s, relayer, i, j) <==> BeforeUse(s, relayer, i + 1, j) && (Of(s, relayer, i) ==> !s[i].value.reg)
  {
  }

  lemma BeforeUseSame(s: Calls, t: Calls, relayer: string, i: nat, j: int)
    requires |t| == |s| && forall k :: i <= k < |s| ==> t[k] == s[k]
    ensures BeforeUse(s, relayer, i, j) <==> BeforeUse(t, relayer, i, j)
  {
    forall k | i <= k ensures Of(s, relayer, k) <==> Of(t, relayer, k) {
    }
  }

  /** Freeing for all clients takes the slots of the relayer up to the first one in use. */
  lemma {:induction false} FreedAll(s: Calls, relayer: string, client: int, i: nat)
    requires client <= 0 && i <= |s|
    ensures var r := Freed(s, relayer, client, i);
            forall j :: 0 <= j < |s| ==> r[j] == if BeforeUse(s, relayer, i, j) then None else s[j]
    decreases |s| - i
  {
    hide BeforeUse;
    forall j | 0 <= j < i ensures !BeforeUse(s, relayer, i, j) { NotBefore(s, relayer, i, j); }
    if i < |s| {
      var mine := Of(s, relayer, i);
      var t := if mine && !s[i].value.reg then s[i := None] else s;
      FreedAll(t, relayer, client, i + 1);
      NotBefore(t, relayer, i + 1, i);
      HereBefore(s, relayer, i);
      forall j | i < j < |s|
        ensures BeforeUse(s, relayer, i, j) <==> BeforeUse(t, relayer, i + 1, j) && (mine ==> !s[i].value.reg)
      {
        BeforeUseFrom(s, relayer, i, j);
        BeforeUseSame(s, t, relayer, i + 1, j);
      }
      var n := i + 1;
      forall j | 0 <= j < i ensures !BeforeUse(t, relayer, n, j) { NotBefore(t, relayer, n, j); }
    }
  }

  lemma NotBefore(s: Calls, relayer: string, i: nat, j: int)
    requires j < i
    ensures !BeforeUse(s, relayer, i, j)
  {
  }

  lemma HereBefore(s: Calls, relayer: string, i: nat)
    requires i < |s|
    ensures BeforeUse(s, relayer, i, i) <==> Of(s, relayer, i) && !s[i].value.reg
  {
  }

  /** Freeing for one client takes its first slot, unless that is in use, and does nothing when it has none. */
  lemma {:induction false} FreedFirst(s: Calls, relayer: string, client: int, i: nat, k: nat)
    requires client > 0 && i <= k <= |s|
    requires forall j :: i <= j < k && Of(s, relayer, j) ==> s[j].value.client != client
    requires k < |s| ==> Of(s, relayer, k) && s[k].value.client == client
    ensures Freed(s, relayer, client, i) == if k == |s| || s[k].value.reg then s else s[k := None]
    decreases k - i
  {
    if i < k {
      FreedFirst(s, relayer, client, i + 1, k);
    }
  }

  /** What `aosmgr_args_free` does: for all clients of a relayer, or for one (`k` is its first slot, if it has any). */
  lemma ReleasedIs(s: Calls, relayer: string, client: int, k: nat)
    requires relayer != "" && client > 0 ==>
               && k <= |s| && (forall j :: 0 <= j < k && Of(s, relayer, j) ==> s[j].value.client != client)
               && (k < |s| ==> Of(s, relayer, k) && s[k].value.client == client)
    ensures var r := Released(s, relayer, client);
            && (relayer == "" ==> r == s)
            && (relayer != "" && client <= 0 ==>
                  forall j :: 0 <= j < |s| ==> r[j] == if BeforeUse(s, relayer, 0, j) then None else s[j])
            && (relayer != "" && client > 0 ==> r == if k == |s| || s[k].value.reg then s else s[k := None])
  {
    hide BeforeUse, Freed;
    if client <= 0 {
      FreedAll(s, relayer, client, 0);
    } else if relayer != "" {
      FreedFirst(s, relayer, client, 0, k);
    }
  }

  /** What the collection asks the system: which processes are dead, and the process a relayer is named
      after (-1 when it is not). */
  datatype World = World(dead: int -> bool, pidOf: string -> int)

  /** The collection frees the slots of dead clients and of relayers named after a dead process. */
  predicate Stale(c: Call, w: World) {
    w.dead(c.client) || (w.pidOf(c.relayer) != -1 && w.dead(w.pidOf(c.relayer)))
  }

  /** `aosmgr_ipc_gc` from slot `i` on. */
  function Collected(s: Calls, w: World, i: nat): (r: (Calls, bool))
    requires i <= |s|
    ensures |r.0| == |s|
    decreases |s| - i
  {
    if i == |s| then (s, false)
    else if s[i].Some? && Stale(s[i].value, w) then
      (Collected(Released(s, s[i].value.relayer, s[i].value.client), w, i + 1).0, true)
    else Collected(s, w, i + 1)
  }

  /** A collection frees exactly the stale slots that are not in use; it reports success when there was a
      stale slot, freed or not. */
  lemma {:induction false} CollectedAre(s: Calls, w: World, i: nat)
    requires OneEach(s) && i <= |s|
    ensures var r := Collected(s, w, i);
            && (forall j :: 0 <= j < |s| ==>
               r.0[j] == if j >= i && s[j].Some? && Stale(s[j].value, w) && !s[j].value.reg then None else s[j])
            && (r.1 <==> exists j :: i <= j < |s| && s[j].Some? && Stale(s[j].value, w))
    decreases |s| - i
  {
    if i < |s| {
      var t := if s[i].Some? && Stale(s[i].value, w) then Released(s, s[i].value.relayer, s[i].value.client) else s;
      if s[i].Some? { FreedOne(s, i, 0); }
      CollectedAre(t, w, i + 1);
    }
  }

  function FindCall(s: Calls, relayer: string, client: int, from: nat): (r: Option<nat>)
    requires from <= |s|
    ensures r.Some? ==>
              && from <= r.value < |s| && s[r.value].Some?
              && s[r.value].value.client == client && s[r.value].value.relayer == relayer
    ensures r.None? ==> forall i :: from <= i < |s| && s[i].Some? ==>
            s[i].value.client != client || s[i].value.relayer != relayer
    decreases |s| - from
  {
    if from == |s| then None
    else if s[from].Some? && s[from].value.client == client && s[from].value.relayer == relayer then Some(from)
    else FindCall(s, relayer, client, from + 1)
  }

  /** `aosmgr_args_alloc`: the table after it and the slot taken. */
  function Allocated(s: Calls, relayer: string, client: int, w: World): (r: (Calls, Option<nat>))
    ensures |r.0| == |s|
  {
    if client <= 0 || relayer == "" || |relayer| >= OSTAGName_Len then (s, None)
    else if FindCall(s, relayer, client, 0).Some? then (s, None)
    else
      var c := if FindFree(s, 0).Some? then (s, true) else Collected(s, w, 0);
      var free := FindFree(c.0, 0);
      if c.1 && free.Some? then (c.0[free.value := Some(Call(relayer, client, false, false))], free) else (c.0, None)
  }

  lemma FreedKept(s: Calls, relayer: string, client: int)
    requires OneEach(s)
    ensures OneEach(Released(s, relayer, client))
  {
    FreedShrinks(s, relayer, client, 0);
  }

  lemma CollectedKept(s: Calls, w: World)
    requires OneEach(s)
    ensures OneEach(Collected(s, w, 0).0)
  {
    hide Stale;
    CollectedAre(s, w, 0);
  }

  /** Allocating, too, keeps one slot at most for each client and relayer. */
  lemma AllocatedKept(s: Calls, relayer: string, client: int, w: World)
    requires OneEach(s)
    ensures OneEach(Allocated(s, relayer, client, w).0)
  {
    hide Stale;
    CollectedKept(s, w);
    CollectedAre(s, w, 0);
  }

  /** A client without a slot gets one exactly when a slot is free, or the collection frees one. */
  lemma AllocatedWhen(s: Calls, relayer: string, client: int, w: World)
    requires OneEach(s) && client > 0 && 0 < |relayer| < OSTAGName_Len
    ensures var r := Allocated(s, relayer, client, w);
            && (r.1.Some? <==>
                  && (forall i :: 0 <= i < |s| && s[i].Some? ==>
                     s[i].value.client != client || s[i].value.relayer != relayer)
                  && exists i :: 0 <= i < |s| && (s[i].Some? ==> Stale(s[i].value, w) && !s[i].value.reg))
            && (r.1.Some? ==> r.1.value < |s| && r.0[r.1.value] == Some(Call(relayer, client, false, false)))
  {
    CollectedAre(s, w, 0);
  }

  /** A collection frees the slots that are not in use and whose client, or the process their relayer is named after,
      is dead. */
  lemma CollectionIs(s: Calls, w: World)
    requires OneEach(s)
    ensures var r := Collected(s, w, 0);
            forall j :: 0 <= j < |s| ==>
              r.0[j] == if s[j].Some? && !s[j].value.reg
                           && (w.dead(s[j].value.client)
                               || (w.pidOf(s[j].value.relayer) != -1 && w.dead(w.pidOf(s[j].value.relayer))))
                        then None else s[j]
  {
    CollectedAre(s, w, 0);
  }

  /** Nobody gets a slot with a client number that is not positive, an empty name, a name of 64 bytes or more, or a slot
      already; else the first free slot is given, after a collection if there was none. */
  lemma AllocatedIs(s: Calls, relayer: string, client: int, w: World)
    ensures var r := Allocated(s, relayer, client, w);
            && (client <= 0 || relayer == "" || |relayer| >= 64 ==> r == (s, None))
            && ((exists i :: Of(s, relayer, i) && s[i].value.client == client) ==> r == (s, None))
            && (client > 0 && 0 < |relayer| < 64 && !(exists i :: Of(s, relayer, i) && s[i].value.client == client) ==>
                  var t := if forall i :: 0 <= i < |s| ==> s[i].Some? then Collected(s, w, 0).0 else s;
                  && (r.1.Some? ==>
                        var k := r.1.value;
                        && k < |t| && t[k].None? && (forall i :: 0 <= i < k ==> t[i].Some?)
                        && r.0 == t[k := Some(Call(relayer, client, false, false))])
                  && (r.1.None? ==> r.0 == t)
                  && ((exists i :: 0 <= i < |s| && s[i].None?) ==> r.1.Some?))
  {
    hide Collected, FindCall;
    var found := FindCall(s, relayer, client, 0);
    assert found.Some? <==> exists i :: Of(s, relayer, i) && s[i].value.client == client by {
      if found.Some? { assert Of(s, relayer, found.value); }
    }
    assert FindFree(s, 0).None? <==> forall i :: 0 <= i < |s| ==> s[i].Some?;
  }

  class CallTable {
    const mark: Bitmap
    const tag: array<Call>

    ghost predicate Valid() {
      mark.Valid() && mark.total == tag.Length == OSTAG_IPC_Total
    }

    ghost function Content(): (s: Calls)
      requires Valid()
      reads mark.words, tag
      ensures |s| == OSTAG_IPC_Total
    {
      seq(OSTAG_IPC_Total, i requires 0 <= i < OSTAG_IPC_Total reads mark.words, tag =>
            if i in mark.Set() then Some(tag[i]) else None)
    }

    constructor ()
      ensures Valid() && fresh(mark.words) && fresh(tag) && OneEach(Content())
    {
      mark := new Bitmap(OSTAG_IPC_Total);
      tag := new Call[OSTAG_IPC_Total](_ => Call("", 0, false, false));
    }

    /** `aosmgr_args_next`; an empty or overlong name stops the program. */
    method NextCall(relayer: string, curr: nat) returns (ret: Option<nat>, next: nat)
      requires Valid() && curr <= OSTAG_IPC_Total && 0 < |relayer| < OSTAGName_Len
      ensures (ret, next) == Next(Content(), relayer, curr)
    {
      hide Marks.Bitmap.Set, FirstReady;
      ret := ScanReady(relayer, curr, OSTAG_IPC_Total);
      if ret.None? {
        ret := ScanReady(relayer, 0, curr);
      }
      next := if ret.Some? then (ret.value + 1) % OSTAG_IPC_Total else curr;
    }

    method ScanReady(relayer: string, from: nat, end: nat) returns (ret: Option<nat>)
      requires Valid() && from <= end <= OSTAG_IPC_Total
      ensures ret == FirstReady(Content(), relayer, from, end)
    {
      hide Marks.Bitmap.Set;
      var i := from;
      while i < end
        invariant from <= i <= end
        invariant FirstReady(Content(), relayer, i, end) == FirstReady(Content(), relayer, from, end)
      {
        var marked := mark.Get(i);
        if marked && tag[i].relayer == relayer && tag[i].ready {
          return Some(i);
        }
        i := i + 1;
      }
      return None;
    }

    method Put(i: nat, c: Option<Call>)
      requires Valid() && i < OSTAG_IPC_Total
      modifies mark.words, tag
      ensures Content() == old(Content())[i := c]
    {
      hide Marks.Bitmap.Set;
      ghost var s := Content();
      if c.Some? {
        mark.Mark(i);
        tag[i] := c.value;
      } else {
        tag[i] := Call("", 0, false, false);
        mark.Clear(i);
      }
      assert forall j :: 0 <= j < OSTAG_IPC_Total ==> Content()[j] == s[i := c][j];
    }

    /** `aosmgr_args_free`. */
    method Free(relayer: string, client: int) returns (ret: int)
      requires Valid()
      modifies mark.words, tag
      ensures Content() == Released(old(Content()), relayer, client) && ret == if relayer == "" then -1 else 0
    {
      hide Marks.Bitmap.Set;
      ghost var s := Content();
      if relayer == "" {
        return -1;
      }
      var i := 0;
      while i < OSTAG_IPC_Total
        invariant 0 <= i <= OSTAG_IPC_Total && Freed(Content(), relayer, client, i) == Freed(s, relayer, client, 0)
      {
        var marked := mark.Get(i);
        if marked && tag[i].relayer == relayer && (client <= 0 || client == tag[i].client) {
          if tag[i].reg {
            return 0;
          }
          Put(i, None);
          if client > 0 {
            return 0;
          }
        }
        i := i + 1;
      }
      return 0;
    }

    /** `aosmgr_ipc_gc`. */
    method Collect(w: World) returns (ok: bool)
      requires Valid()
      modifies mark.words, tag
      ensures (Content(), ok) == Collected(old(Content()), w, 0)
    {
      hide Marks.Bitmap.Set, Released;
      ghost var goal := Collected(Content(), w, 0);
      ok := false;
      var i := 0;
      while i < OSTAG_IPC_Total
        invariant 0 <= i <= OSTAG_IPC_Total
        invariant Collected(Content(), w, i).0 == goal.0 && (ok || Collected(Content(), w, i).1) == goal.1
      {
        var marked := mark.Get(i);
        if marked && Stale(tag[i], w) {
          var r := Free(tag[i].relayer, tag[i].client);
          ok := true;
        }
        i := i + 1;
      }
    }

    method ScanFree() returns (at: Option<nat>)
      requires Valid()
      ensures at == FindFree(Content(), 0)
    {
      hide Marks.Bitmap.Set;
      var i := 0;
      while i < OSTAG_IPC_Total
        invariant 0 <= i <= OSTAG_IPC_Total && FindFree(Content(), i) == FindFree(Content(), 0)
      {
        var marked := mark.Get(i);
        if !marked {
          return Some(i);
        }
        i := i + 1;
      }
      return None;
    }

    method ScanCall(relayer: string, client: int) returns (at: Option<nat>)
      requires Valid()
      ensures at == FindCall(Content(), relayer, client, 0)
    {
      hide Marks.Bitmap.Set;
      var i := 0;
      while i < OSTAG_IPC_Total
        invariant 0 <= i <= OSTAG_IPC_Total
        invariant FindCall(Content(), relayer, client, i) == FindCall(Content(), relayer, client, 0)
      {
        var marked := mark.Get(i);
        if marked && client == tag[i].client && tag[i].relayer == relayer {
          return Some(i);
        }
        i := i + 1;
      }
      return None;
    }

    /** `aosmgr_args_alloc`; `gcs` counts the collections. */
    method Allocate(relayer: string, client: int, w: World) returns (ret: Option<nat>, ghost gcs: nat)
      requires Valid()
      modifies mark.words, tag
      ensures (Content(), ret) == Allocated(old(Content()), relayer, client, w) && gcs <= 1
    {
      hide Content, FindFree, FindCall, Collected;
      gcs := 0;
      if client <= 0 || relayer == "" || |relayer| >= OSTAGName_Len {
        return None, 0;
      }
      var at := ScanCall(relayer, client);
      if at.Some? {
        return None, 0;
      }
      ghost var s := Content();
      var retried := false;
      while true
        invariant gcs == if retried then 1 else 0
        invariant !retried ==> Content() == s
        invariant retried ==> FindFree(s, 0).None? && Collected(s, w, 0) == (Content(), true)
        decreases !retried
      {
        var free := ScanFree();
        if free.Some? {
          Put(free.value, Some(Call(relayer, client, false, false)));
          return free, gcs;
        }
        if retried {
          return None, gcs;
        }
        retried := true;
        var ok := Collect(w);
        gcs := gcs + 1;
        if !ok {
          return None, gcs;
        }
      }
    }
  }
}
