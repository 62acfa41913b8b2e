/** The shared table of named resources in aosmgr.c: `aosmgr_op_reg`, `aosmgr_op_unreg`,
    `aosmgr_op_gethandle` and the garbage collection they fall back on. */
module Registry {
  import opened CStrings
  import opened Marks

  const OSTAG_Total: nat := 186
  const OSTAGName_Len: nat := 64

  /** `kind` is the tag type, `handle` the resource handle stored in the slot. */
  datatype Tag = Tag(id: int, kind: int, pid: int, name: string, handle: int)

  /** A slot is None while its mark is clear. */
  type Slots = seq<Option<Tag>>

  /** Entries are looked for by name when the id is 0, by id otherwise. */
  predicate Fits(t: Tag, name: string, id: int) {
    if id == 0 then t.name == name else t.id == id
  }

  function FindEntry(s: Slots, name: string, id: int, from: nat): (r: Option<nat>)
    requires from <= |s|
    ensures r.Some? ==> from <= r.value < |s| && s[r.value].Some? && Fits(s[r.value].value, name, id)
    ensures forall i :: from <= i < (if r.Some? then r.value else |s|) ==> s[i].None? || !Fits(s[i].value, name, id)
    decreases |s| - from
  {
    if from == |s| then None
    else if s[from].Some? && Fits(s[from].value, name, id) then Some(from)
    else FindEntry(s, name, id, from + 1)
  }

  /** What a collection callback did for one slot: whether it unregistered it, and whether it returned
      something other than -1. */
  datatype Verdict = Verdict(collected: bool, ok: bool)

  /** The two semaphores of the manager itself are never offered for collection. */
  predicate Protected(t: Tag) {
    && t.kind == 0
    && (t.name == "sema.system.lib.slos.osmgr.sema_tag_ipc" || t.name == "sema.system.lib.slos.osmgr.sema_tag")
  }

  /** The five tag types that have collection callbacks. */
  predicate Collectable(t: Tag) {
    0 <= t.kind <= 4 && !Protected(t)
  }

  predicate Asked(s: Slots, i: nat)
    requires i < |s|
  {
    s[i].Some? && Collectable(s[i].value)
  }

  function Collected(s: Slots, v: seq<Verdict>): (r: Slots)
    requires |v| == |s|
    ensures |r| == |s|
  {
    seq(|s|, i requires 0 <= i < |s| => if Asked(s, i) && v[i].collected then None else s[i])
  }

  predicate SomeOk(s: Slots, v: seq<Verdict>)
    requires |v| == |s|
  {
    exists i :: 0 <= i < |s| && Asked(s, i) && v[i].ok
  }

  // -- The map of live names -------------------------------------------------------------------------------

  /** No two live slots have the same name, and all names are short enough to be found again. */
  ghost predicate Distinct(s: Slots) {
    forall i, j :: 0 <= i < j < |s| && s[i].Some? && s[j].Some? ==> s[i].value.name != s[j].value.name
  }

  ghost predicate Live(s: Slots, name: string) {
    exists i :: 0 <= i < |s| && s[i].Some? && s[i].value.name == name
  }

  /** The table as a map from live names to their entries. */
  ghost function Names(s: Slots): (m: map<string, Tag>) {
    if s == [] then map[]
    else
      var last := s[|s| - 1];
      if last.Some? then Names(s[..|s| - 1])[last.value.name := last.value] else Names(s[..|s| - 1])
  }

  lemma {:induction false} NamesAre(s: Slots)
    requires Distinct(s)
    ensures forall n :: n in Names(s) <==> Live(s, n)
    ensures forall i :: 0 <= i < |s| && s[i].Some? ==>
            s[i].value.name in Names(s) && Names(s)[s[i].value.name] == s[i].value
  {
    if s != [] {
      var t := s[..|s| - 1];
      NamesAre(t);
      forall n ensures n in Names(s) <==> Live(s, n) {
        if Live(t, n) {
          var i :| 0 <= i < |t| && t[i].Some? && t[i].value.name == n;
          assert s[i] == t[i];
        }
        if Live(s, n) {
          var i :| 0 <= i < |s| && s[i].Some? && s[i].value.name == n;
          assert i < |t| ==> t[i] == s[i];
        }
      }
      forall i | 0 <= i < |s| && s[i].Some?
        ensures s[i].value.name in Names(s) && Names(s)[s[i].value.name] == s[i].value
      {
        if i < |t| { assert t[i] == s[i]; }
      }
    }
  }

  /** The number of live slots. */
  ghost function Count(s: Slots): (n: nat)
    ensures n <= |s|
    ensures n == |s| <==> forall i :: 0 <= i < |s| ==> s[i].Some?
  {
    if s == [] then 0
    else
      var t := s[..|s| - 1];
      var n := Count(t) + (if s[|s| - 1].Some? then 1 else 0);
      assert forall i :: 0 <= i < |t| ==> t[i] == s[i];
      n
  }

  /** There are as many live names as live slots, so the table is full exactly when it holds |s| names. */
  lemma {:induction false} NamesCounted(s: Slots)
    requires Distinct(s)
    ensures |Names(s)| == Count(s)
  {
    if s != [] {
      var t := s[..|s| - 1];
      NamesCounted(t);
      NamesAre(t);
    }
  }

  lemma Registered(s: Slots, i: nat, t: Tag)
    requires Distinct(s) && i < |s| && s[i].None? && !Live(s, t.name)
    ensures Distinct(s[i := Some(t)]) && Names(s[i := Some(t)]) == Names(s)[t.name := t]
  {
    var r := s[i := Some(t)];
    assert Distinct(r);
    NamesAre(s);
    NamesAre(r);
    forall n ensures n in Names(r) <==> n == t.name || n in Names(s) {
      if Live(s, n) {
        var j :| 0 <= j < |s| && s[j].Some? && s[j].value.name == n;
        assert r[j] == s[j];
      }
      assert r[i].value.name == t.name;
    }
    forall n | n in Names(r) ensures Names(r)[n] == Names(s)[t.name := t][n] {
      var j :| 0 <= j < |r| && r[j].Some? && r[j].value.name == n;
    }
  }

  /** Some slots became free: those with the names in `gone`. */
  lemma Shrunk(s: Slots, r: Slots, gone: set<string>)
    requires Distinct(s) && |r| == |s| && forall i :: 0 <= i < |s| ==> r[i].None? || r[i] == s[i]
    requires forall i :: 0 <= i < |s| && s[i].Some? ==> (r[i].None? <==> s[i].value.name in gone)
    ensures Distinct(r) && Names(r) == Names(s) - gone
  {
    hide Names;
    assert Distinct(r);
    NamesAre(s);
    NamesAre(r);
    forall n ensures n in Names(r) <==> n in Names(s) && n !in gone {
      if n in Names(s) && n !in gone {
        var j :| 0 <= j < |s| && s[j].Some? && s[j].value.name == n;
        assert r[j] == s[j];
      }
      if n in Names(r) {
        var j :| 0 <= j < |r| && r[j].Some? && r[j].value.name == n;
        assert s[j] == r[j];
      }
    }
    forall n | n in Names(r) ensures n in Names(s) && Names(r)[n] == Names(s)[n] {
      var j :| 0 <= j < |r| && r[j].Some? && r[j].value.name == n;
      assert s[j] == r[j];
    }
  }

  lemma Unregistered(s: Slots, i: nat)
    requires Distinct(s) && i < |s| && s[i].Some?
    ensures Distinct(s[i := None]) && Names(s[i := None]) == Names(s) - {s[i].value.name}
  {
    hide Names;
    Shrunk(s, s[i := None], {s[i].value.name});
  }

  /** The names a collection takes away. */
  ghost function Gone(s: Slots, v: seq<Verdict>): (g: set<string>)
    requires |v| == |s|
  {
    set i | 0 <= i < |s| && Asked(s, i) && v[i].collected :: s[i].value.name
  }

  lemma CollectedNames(s: Slots, v: seq<Verdict>)
    requires Distinct(s) && |v| == |s|
    ensures Distinct(Collected(s, v)) && Names(Collected(s, v)) == Names(s) - Gone(s, v)
  {
    hide Names, Asked;
    forall j | 0 <= j < |s| && Asked(s, j) ensures s[j].Some? { AskedLive(s, j); }
    forall i | 0 <= i < |s| && s[i].Some? && s[i].value.name in Gone(s, v) ensures Asked(s, i) && v[i].collected {
      var j :| 0 <= j < |s| && Asked(s, j) && v[j].collected && s[j].Some? && s[j].value.name == s[i].value.name;
      assert j == i;
    }
    Shrunk(s, Collected(s, v), Gone(s, v));
  }

  lemma AskedLive(s: Slots, i: nat)
    requires i < |s| && Asked(s, i)
    ensures s[i].Some?
  {
  }

  // -- The operations on the table ------------------------------------------------------------------------

  /** `aosmgr_op_reg` after its checks: the slot taken, if any, and the table before it is filled.  A full
      table is collected once. */
  function Place(s: Slots, v: seq<Verdict>): (r: (Slots, Option<nat>))
    requires |v| == |s|
    ensures |r.0| == |s| && (r.1.Some? ==> r.1.value < |s| && r.0[r.1.value].None?)
  {
    var free := FindFree(s, 0);
    if free.Some? then (s, free)
    else
      var c := Collected(s, v);
      (c, if SomeOk(s, v) then FindFree(c, 0) else None)
  }

  /** The arguments of `aosmgr_op_reg` and the calling process. */
  datatype Request = Request(name: string, id: int, kind: int, handle: Option<int>, pid: int)

  /** The entry stored; without a handle the slot keeps the handle it had. */
  function EntryOf(q: Request, stale: int): (t: Tag) {
    Tag(q.id, q.kind, q.pid, q.name, if q.handle.Some? then q.handle.value else stale)
  }

  /** `aosmgr_op_reg`: the table after it and its result. */
  function Reg(s: Slots, q: Request, stale: seq<int>, v: seq<Verdict>): (r: (Slots, int))
    requires |v| == |stale| == |s|
    ensures |r.0| == |s|
  {
    if q.id < 0 || |q.name| >= OSTAGName_Len then (s, -1)
    else if FindEntry(s, q.name, q.id, 0).Some? then (s, 1)
    else
      match Place(s, v)
      case (table, None) => (table, -1)
      case (table, Some(i)) => (table[i := Some(EntryOf(q, stale[i]))], 1)
  }

  /** The first live slot with this id. */
  function FindId(s: Slots, id: int, from: nat): (r: Option<nat>)
    requires from <= |s|
    ensures r.Some? ==> from <= r.value < |s| && s[r.value].Some?
    decreases |s| - from
  {
    if from == |s| then None
    else if s[from].Some? && s[from].value.id == id then Some(from)
    else FindId(s, id, from + 1)
  }

  /** `aosmgr_op_unreg`: by name when one is given, by id otherwise. */
  function Unreg(s: Slots, name: Option<string>, id: int): (r: (Slots, int))
    ensures |r.0| == |s|
  {
    if name.None? && id < 0 then (s, -1)
    else
      match (if name.Some? then FindEntry(s, name.value, 0, 0) else FindId(s, id, 0))
      case None => (s, 0)
      case Some(i) => (s[i := None], 1)
  }

  /** Registrations with id 0 and looking up by name refine a map: a live name is never registered twice, a
      new one is added when there is room, and a full table loses the collected names at most once before
      the request fails. */
  lemma RegRefines(s: Slots, q: Request, stale: seq<int>, v: seq<Verdict>)
    requires Distinct(s) && |v| == |stale| == |s| && q.id == 0 && |q.name| < OSTAGName_Len
    ensures var r := Reg(s, q, stale, v);
            var m := Names(s);
            && Distinct(r.0)
            && if q.name in m then r == (s, 1)
               else
                 var kept := if |m| < |s| then m else m - Gone(s, v);
                 if |m| < |s| || (SomeOk(s, v) && |kept| < |s|)
                 then r.1 == 1 && exists h :: Names(r.0) == kept[q.name := EntryOf(q, h)]
                 else r.1 == -1 && Names(r.0) == kept
  {
    hide Names, Count, Asked, Gone, Place, FindEntry, SomeOk, Collected;
    FoundIfLive(s, q.name);
    if q.name !in Names(s) {
      PlaceRefines(s, v);
      var p := Place(s, v);
      if p.1.Some? {
        var h := stale[p.1.value];
        NamesAre(p.0);
        Registered(p.0, p.1.value, EntryOf(q, h));
        assert Names(Reg(s, q, stale, v).0) == Names(p.0)[q.name := EntryOf(q, h)];
      }
    }
  }

  /** Making room: a full table loses the collected names. */
  lemma PlaceRefines(s: Slots, v: seq<Verdict>)
    requires Distinct(s) && |v| == |s|
    ensures var p, m := Place(s, v), Names(s);
            var kept := if |m| < |s| then m else m - Gone(s, v);
            && Distinct(p.0) && Names(p.0) == kept
            && (p.1.Some? <==> |m| < |s| || (SomeOk(s, v) && |kept| < |s|))
  {
    hide Names, Count, Asked, Gone, SomeOk, Collected;
    NamesCounted(s);
    CollectedNames(s, v);
    NamesCounted(Collected(s, v));
    FreeLeft(s);
    FreeLeft(Collected(s, v));
  }

  lemma FreeLeft(s: Slots)
    ensures FindFree(s, 0).Some? <==> Count(s) < |s|
  {
  }

  /** `aosmgr_op_gethandle` finds a name exactly when it is live. */
  lemma FoundIfLive(s: Slots, name: string)
    requires Distinct(s)
    ensures FindEntry(s, name, 0, 0).Some? <==> name in Names(s)
    ensures name in Names(s) ==> s[FindEntry(s, name, 0, 0).value] == Some(Names(s)[name])
  {
    NamesAre(s);
  }

  lemma UnregRefines(s: Slots, name: string)
    requires Distinct(s)
    ensures Distinct(Unreg(s, Some(name), 0).0)
    ensures Names(Unreg(s, Some(name), 0).0) == Names(s) - {name}
    ensures Unreg(s, Some(name), 0).1 == if name in Names(s) then 1 else 0
  {
    hide Names;
    FoundIfLive(s, name);
    var at := FindEntry(s, name, 0, 0);
    if at.Some? {
      Unregistered(s, at.value);
    } else {
      assert Names(s) - {name} == Names(s);
    }
  }

  /** With an id the first live slot of that id is found, whatever the name. */
  lemma {:induction false} FoundById(s: Slots, name: string, id: int, from: nat)
    requires id != 0 && from <= |s|
    ensures FindEntry(s, name, id, from).Some? <==> exists i :: from <= i < |s| && s[i].Some? && s[i].value.id == id
    ensures FindEntry(s, name, id, from).Some? ==>
              var at := FindEntry(s, name, id, from).value;
              s[at].Some? && s[at].value.id == id && forall i :: from <= i < at && s[i].Some? ==> s[i].value.id != id
  {
  }

  /** What fits a request already: an entry of its name, or of its id when that is not 0. */
  ghost predicate Taken(s: Slots, q: Request) {
    exists i :: 0 <= i < |s| && s[i].Some? && if q.id == 0 then s[i].value.name == q.name else s[i].value.id == q.id
  }

  /** Slot `i` went to the request. */
  ghost predicate Stored(s: Slots, i: nat, q: Request, stale: seq<int>)
    requires |stale| == |s|
  {
    && i < |s| && s[i].Some?
    && var t := s[i].value;
       && t.name == q.name && t.id == q.id && t.kind == q.kind && t.pid == q.pid
       && t.handle == match q.handle case Some(h) => h case None => stale[i]
  }

  lemma PlaceTakes(s: Slots, v: seq<Verdict>)
    requires |v| == |s|
    ensures var p := Place(s, v);
            && (p.1.Some? ==> p.0[p.1.value].None? && forall j :: 0 <= j < p.1.value ==> p.0[j].Some?)
            && forall j :: 0 <= j < |s| ==>
               p.0[j] == s[j] || (p.0[j].None? && Collectable(s[j].value) && v[j].collected)
  {
  }

  /** A registration that succeeds leaves an entry that is found by its name or id.  A new one takes the first
      free slot and holds everything that was given; of the other entries only collected ones are gone. */
  lemma RegisteredEntry(s: Slots, q: Request, stale: seq<int>, v: seq<Verdict>)
    requires |v| == |stale| == |s|
    ensures var r := Reg(s, q, stale, v);
            && (q.id < 0 || |q.name| >= 64 ==> r == (s, -1))
            && (q.id >= 0 && |q.name| < 64 && Taken(s, q) ==> r == (s, 1))
            && (q.id >= 0 && |q.name| < 64 && !Taken(s, q) && r.1 != -1 ==>
                  && r.1 == 1 && FindEntry(r.0, q.name, q.id, 0).Some?
                  && var at := FindEntry(r.0, q.name, q.id, 0).value;
                     && Stored(r.0, at, q, stale) && (forall j :: 0 <= j < at ==> r.0[j].Some?)
                     && forall j :: 0 <= j < |s| && j != at ==>
                          r.0[j] == s[j] || (r.0[j].None? && Collectable(s[j].value) && v[j].collected))
  {
    hide Place, Asked, Collected, Collectable;
    var found := FindEntry(s, q.name, q.id, 0);
    assert Taken(s, q) <==> found.Some?;
    PlaceTakes(s, v);
    var p := Place(s, v);
    if q.id >= 0 && |q.name| < 64 && found.None? && p.1.Some? {
      var i := p.1.value;
      var r := p.0[i := Some(EntryOf(q, stale[i]))];
      forall j | 0 <= j < |r| && j != i && r[j].Some? ensures !Fits(r[j].value, q.name, q.id) {
        assert r[j] == s[j];
      }
      assert Fits(r[i].value, q.name, q.id);
      assert FindEntry(r, q.name, q.id, 0) == Some(i);
    }
  }

  /** A collection never takes the two semaphores of the manager or entries of other types; of the rest it takes
      exactly those whose callback unregisters them. */
  lemma CollectedAre(s: Slots, v: seq<Verdict>, i: nat)
    requires |v| == |s| && i < |s| && s[i].Some?
    ensures var t := s[i].value;
            && (t.name == "sema.system.lib.slos.osmgr.sema_tag_ipc" && t.kind == 0 ==> Collected(s, v)[i] == s[i])
            && (t.name == "sema.system.lib.slos.osmgr.sema_tag" && t.kind == 0 ==> Collected(s, v)[i] == s[i])
            && (t.kind < 0 || t.kind > 4 ==> Collected(s, v)[i] == s[i])
            && (1 <= t.kind <= 4 ==> Collected(s, v)[i] == if v[i].collected then None else s[i])
            && (t.kind == 0 && t.name != "sema.system.lib.slos.osmgr.sema_tag_ipc"
                && t.name != "sema.system.lib.slos.osmgr.sema_tag" ==>
                  Collected(s, v)[i] == if v[i].collected then None else s[i])
  {
  }

  /** In a full table a request for something new succeeds exactly when the collection frees a slot and one of the
      callbacks, of whatever slot, reports success. */
  lemma FullTable(s: Slots, q: Request, stale: seq<int>, v: seq<Verdict>)
    requires |v| == |stale| == |s| && (forall i :: 0 <= i < |s| ==> s[i].Some?)
    requires q.id >= 0 && |q.name| < 64 && !Taken(s, q)
    ensures Reg(s, q, stale, v).1 == 1 <==>
              && (exists i :: 0 <= i < |s| && Collectable(s[i].value) && v[i].ok)
              && (exists i :: 0 <= i < |s| && Collectable(s[i].value) && v[i].collected)
  {
    hide Collectable;
    var c := Collected(s, v);
    assert FindEntry(s, q.name, q.id, 0).None?;
    assert FindFree(s, 0).None?;
    assert SomeOk(s, v) <==> exists i :: 0 <= i < |s| && Collectable(s[i].value) && v[i].ok by {
      assert forall i :: 0 <= i < |s| ==> (Asked(s, i) <==> Collectable(s[i].value));
    }
    if i :| 0 <= i < |s| && Collectable(s[i].value) && v[i].collected {
      assert c[i].None?;
    }
    if FindFree(c, 0).Some? {
      var i := FindFree(c, 0).value;
      assert Collectable(s[i].value) && v[i].collected;
    }
  }

  /** Without a name the first live slot of the id is freed; an id below 0 is refused. */
  lemma UnregById(s: Slots, id: int)
    ensures id < 0 ==> Unreg(s, None, id) == (s, -1)
    ensures id >= 0 && (forall i :: 0 <= i < |s| && s[i].Some? ==> s[i].value.id != id) ==> Unreg(s, None, id) == (s, 0)
    ensures forall at :: id >= 0 && 0 <= at < |s| && s[at].Some? && s[at].value.id == id
                         && (forall i :: 0 <= i < at && s[i].Some? ==> s[i].value.id != id) ==>
                           Unreg(s, None, id) == (s[at := None], 1)
  {
    FirstOfId(s, id, 0);
  }

  lemma {:induction false} FirstOfId(s: Slots, id: int, from: nat)
    requires from <= |s|
    ensures var r := FindId(s, id, from);
            && (r.Some? ==> s[r.value].value.id == id)
            && forall i :: from <= i < (if r.Some? then r.value else |s|) && s[i].Some? ==> s[i].value.id != id
    decreases |s| - from
  {
    if from < |s| {
      FirstOfId(s, id, from + 1);
    }
  }

  // -- Runs ------------------------------------------------------------------------------------------------

  datatype Op =
    | DoReg(q: Request, stale: seq<int>, v: seq<Verdict>)
    | DoUnreg(name: Option<string>, id: int)
    | DoCollect(v: seq<Verdict>)

  predicate Proper(op: Op, n: nat) {
    match op
    case DoReg(q, stale, v) => q.id == 0 && |v| == |stale| == n
    case DoUnreg(_, _) => true
    case DoCollect(v) => |v| == n
  }

  function Apply(s: Slots, op: Op): (r: Slots)
    requires Proper(op, |s|)
    ensures |r| == |s|
  {
    match op
    case DoReg(q, stale, v) => Reg(s, q, stale, v).0
    case DoUnreg(name, id) => Unreg(s, name, id).0
    case DoCollect(v) => Collected(s, v)
  }

  /** The table after these calls, from an empty table of `n` slots. */
  function Run(ops: seq<Op>, n: nat): (r: Slots)
    requires forall i :: 0 <= i < |ops| ==> Proper(ops[i], n)
    ensures |r| == n
  {
    if ops == [] then seq(n, i => None) else Apply(Run(ops[..|ops| - 1], n), ops[|ops| - 1])
  }

  /** However registering, unregistering and collecting are mixed, live names stay distinct. */
  lemma {:induction false} AlwaysDistinct(ops: seq<Op>, n: nat)
    requires forall i :: 0 <= i < |ops| ==> Proper(ops[i], n)
    ensures Distinct(Run(ops, n))
  {
    if ops != [] {
      var s := Run(ops[..|ops| - 1], n);
      AlwaysDistinct(ops[..|ops| - 1], n);
      match ops[|ops| - 1]
      case DoReg(q, stale, v) => if |q.name| < OSTAGName_Len { RegRefines(s, q, stale, v); }
      case DoUnreg(name, id) =>
        if name.Some? { UnregRefines(s, name.value); }
        else if FindId(s, id, 0).Some? { Unregistered(s, FindId(s, id, 0).value); }
      case DoCollect(v) => CollectedNames(s, v);
    }
  }

  /** The table of tags: an entry counts while its mark is set. */
  class TagTable {
    const mark: Bitmap
    const tag: array<Tag>

    ghost predicate Valid() {
      mark.Valid() && mark.total == tag.Length == OSTAG_Total
    }

    ghost function Content(): (s: Slots)
      requires Valid()
      reads mark.words, tag
      ensures |s| == OSTAG_Total
    {
      seq(OSTAG_Total, i requires 0 <= i < OSTAG_Total reads mark.words, tag =>
            if i in mark.Set() then Some(tag[i]) else None)
    }

    constructor ()
      ensures Valid() && fresh(mark.words) && fresh(tag) && forall i :: 0 <= i < OSTAG_Total ==> Content()[i] == None
    {
      mark := new Bitmap(OSTAG_Total);
      tag := new Tag[OSTAG_Total](_ => Tag(0, 0, 0, "", 0));
    }

    /** The scan that `aosmgr_op_gethandle` and `aosmgr_op_reg` begin with. */
    method Scan(name: string, id: int) returns (at: Option<nat>)
      requires Valid()
      ensures at == FindEntry(Content(), name, id, 0)
    {
      hide Marks.Bitmap.Set;
      var i := 0;
      while i < OSTAG_Total
        invariant 0 <= i <= OSTAG_Total && FindEntry(Content(), name, id, i) == FindEntry(Content(), name, id, 0)
      {
        var marked := mark.Get(i);
        if marked && (if id == 0 then name == tag[i].name else id == tag[i].id) {
          return Some(i);
        }
        i := i + 1;
      }
      return None;
    }

    method ScanFree() returns (at: Option<nat>)
      requires Valid()
      ensures at == FindFree(Content(), 0)
    {
      hide Marks.Bitmap.Set;
      var i := 0;
      while i < OSTAG_Total
        invariant 0 <= i <= OSTAG_Total && FindFree(Content(), i) == FindFree(Content(), 0)
      {
        var marked := mark.Get(i);
        if !marked {
          return Some(i);
        }
        i := i + 1;
      }
      return None;
    }

    /** `aosmgr_op_gethandle`: the handle of the entry, or None for a NULL pointer. */
    method GetHandle(name: string, id: int) returns (handle: Option<int>)
      requires Valid()
      ensures id < 0 ==> handle == None
      ensures id >= 0 ==> handle == match FindEntry(Content(), name, id, 0)
                                    case Some(i) => Some(Content()[i].value.handle)
                                    case None => None
    {
      if id < 0 {
        return None;
      }
      var at := Scan(name, id);
      if at.Some? {
        return Some(tag[at.value].handle);
      }
      return None;
    }

    /** `aosmgr_gc`: every live slot but the protected ones is offered to the callback of its type. */
    method Collect(v: seq<Verdict>) returns (ok: bool)
      requires Valid() && |v| == OSTAG_Total
      modifies mark.words, tag
      ensures Content() == Collected(old(Content()), v) && ok == SomeOk(old(Content()), v)
      ensures forall i :: 0 <= i < OSTAG_Total ==> tag[i].handle == old(tag[i].handle)
    {
      hide Marks.Bitmap.Set;
      ghost var s := Content();
      ok := false;
      var i := 0;
      while i < OSTAG_Total
        invariant 0 <= i <= OSTAG_Total
        invariant forall j :: 0 <= j < i ==> Content()[j] == Collected(s, v)[j]
        invariant forall j :: i <= j < OSTAG_Total ==> Content()[j] == s[j]
        invariant ok == exists j :: 0 <= j < i && Asked(s, j) && v[j].ok
        invariant forall j :: 0 <= j < OSTAG_Total ==> tag[j].handle == old(tag[j].handle)
      {
        var marked := mark.Get(i);
        if marked && Collectable(tag[i]) {
          assert Asked(s, i);
          if v[i].collected {
            Remove(i);
          }
          if v[i].ok {
            ok := true;
          }
        }
        i := i + 1;
      }
    }

    /** What unregistering does to a slot. */
    method Remove(i: nat)
      requires Valid() && i < OSTAG_Total
      modifies mark.words, tag
      ensures Content() == old(Content())[i := None]
      ensures forall j :: 0 <= j < OSTAG_Total ==> tag[j].handle == old(tag[j].handle)
    {
      hide Marks.Bitmap.Set;
      ghost var s := Content();
      tag[i] := tag[i].(name := "", pid := 0);
      mark.Clear(i);
      assert forall j :: 0 <= j < OSTAG_Total ==> Content()[j] == s[i := None][j];
    }

    method Store(i: nat, t: Tag)
      requires Valid() && i < OSTAG_Total
      modifies mark.words, tag
      ensures Content() == old(Content())[i := Some(t)]
    {
      hide Marks.Bitmap.Set;
      ghost var s := Content();
      mark.Mark(i);
      tag[i] := t;
      assert forall j :: 0 <= j < OSTAG_Total ==> Content()[j] == s[i := Some(t)][j];
    }

    /** `aosmgr_op_reg`; `pid` is the calling process, `v` what the collection callbacks would do, and
        `gcs` counts the collections. */
    method Register(name: string, id: int, kind: int, handle: Option<int>, pid: int, v: seq<Verdict>)
      returns (ret: int, ghost gcs: nat)
      requires Valid() && |v| == OSTAG_Total
      modifies mark.words, tag
      ensures gcs <= 1
      ensures Reg(old(Content()), Request(name, id, kind, handle, pid),
              seq(OSTAG_Total, i requires 0 <= i < OSTAG_Total => old(tag[i].handle)), v)
              == (Content(), ret)
    {
      hide FindEntry, FindFree, Content, Collected, SomeOk;
      ret, gcs := 0, 0;
      if id < 0 || |name| >= OSTAGName_Len {
        return -1, 0;
      }
      var at := Scan(name, id);
      if at.Some? {
        return 1, 0;
      }
      ghost var s := Content();
      while true
        invariant gcs <= 1 && ret == (if gcs == 0 then 0 else -1) && |Content()| == OSTAG_Total
        invariant gcs == 0 ==> Content() == s
        invariant gcs == 1 ==> FindFree(s, 0).None? && Content() == Collected(s, v) && SomeOk(s, v)
        invariant forall i :: 0 <= i < OSTAG_Total ==> tag[i].handle == old(tag[i].handle)
        decreases 1 - gcs
      {
        var free := ScanFree();
        if free.Some? {
          var i := free.value;
          Store(i, Tag(id, kind, pid, name, if handle.Some? then handle.value else tag[i].handle));
          return 1, gcs;
        }
        if ret == -1 {
          return;
        }
        ret := -1;
        var ok := Collect(v);
        gcs := gcs + 1;
        if !ok {
          return;
        }
      }
    }

    /** `aosmgr_op_unreg`; None stands for a NULL name. */
    method Unregister(name: Option<string>, id: int) returns (ret: int)
      requires Valid()
      modifies mark.words, tag
      ensures Unreg(old(Content()), name, id) == (Content(), ret)
    {
      hide Content, FindEntry, FindId;
      if name.None? && id < 0 {
        return -1;
      }
      var at: Option<nat>;
      if name.Some? {
        at := Scan(name.value, 0);
      } else {
        at := ScanId(id);
      }
      if at.Some? {
        Remove(at.value);
        return 1;
      }
      return 0;
    }

    method ScanId(id: int) returns (at: Option<nat>)
      requires Valid()
      ensures at == FindId(Content(), id, 0)
    {
      hide Marks.Bitmap.Set;
      var i := 0;
      while i < OSTAG_Total
        invariant 0 <= i <= OSTAG_Total && FindId(Content(), id, i) == FindId(Content(), id, 0)
      {
        var marked := mark.Get(i);
        if marked && tag[i].id == id {
          return Some(i);
        }
        i := i + 1;
      }
      return None;
    }
  }
}
