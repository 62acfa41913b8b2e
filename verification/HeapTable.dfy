/** The table of live blocks behind the debug heap (aheap.c): hash chains and a free list threaded through
    one static array of descriptors.  A pointer into that array is the number of the descriptor. */
module HeapTable {
  import opened CStrings

  const NUM_TABLES: nat := 2048
  const NUM_DSPTS: nat := 10240
  const NULL: int := -1

  /** What the table knows of a block. */
  datatype Block = Block(size: nat, file: string, line: nat)

  function Hash(p: nat): (h: nat)
    ensures h < NUM_TABLES
  {
    p / 8 % NUM_TABLES
  }

  // -- What the table stands for ------------------------------------------------------------------------

  datatype Op = Alloc(p: nat, block: Block) | Free(p: nat)

  ghost function Effect(live: map<nat, Block>, op: Op): (after: map<nat, Block>) {
    if op.Alloc? then live[op.p := op.block] else live - {op.p}
  }

  /** The blocks alive after these calls. */
  ghost function After(h: seq<Op>): (live: map<nat, Block>) {
    if h == [] then map[] else Effect(After(h[..|h| - 1]), h[|h| - 1])
  }

  /** Call number `i` is the last one about the pointer `p`. */
  ghost predicate LastAbout(h: seq<Op>, p: nat, i: int) {
    0 <= i < |h| && h[i].p == p && forall j :: i < j < |h| ==> h[j].p != p
  }

  /** A block is alive exactly when the last call about its pointer allocated it, and what is known of it is what that
      call gave. */
  lemma {:induction false} AliveIs(h: seq<Op>, p: nat)
    ensures p in After(h) <==> exists i :: LastAbout(h, p, i) && h[i].Alloc?
    ensures forall i :: LastAbout(h, p, i) && h[i].Alloc? ==> p in After(h) && After(h)[p] == h[i].block
    decreases |h|
  {
    if h != [] {
      var g, last := h[..|h| - 1], |h| - 1;
      AliveIs(g, p);
      if h[last].p == p {
        assert LastAbout(h, p, last);
      } else {
        forall i ensures LastAbout(h, p, i) <==> LastAbout(g, p, i) {
          assert 0 <= i < |g| ==> g[i] == h[i];
        }
      }
    }
  }

  /** The largest number of blocks alive at once so far. */
  ghost function Peak(h: seq<Op>): (n: nat)
    ensures |After(h)| <= n
  {
    if h == [] then 0
    else
      var before, now := Peak(h[..|h| - 1]), |After(h)|;
      if now > before then now else before
  }

  lemma OneMore(h: seq<Op>, op: Op)
    ensures (h + [op])[..|h|] == h
    ensures After(h + [op]) == Effect(After(h), op)
    ensures op.Free? ==> Peak(h + [op]) == Peak(h)
    ensures op.Alloc? && op.p !in After(h) ==> Peak(h + [op]) == if |After(h)| == Peak(h) then Peak(h) + 1 else Peak(h)
  {
    var g := h + [op];
    assert g[..|g| - 1] == h;
    if op.Free? {
      Fewer(After(h), op.p);
    }
  }

  /** `Peak` is the largest number of blocks alive after any part of the calls. */
  lemma {:induction false} PeakIsLargest(h: seq<Op>)
    ensures forall i :: 0 <= i <= |h| ==> |After(h[..i])| <= Peak(h)
    ensures exists i :: 0 <= i <= |h| && |After(h[..i])| == Peak(h)
  {
    if h == [] {
      assert |After(h[..0])| == Peak(h);
    } else {
      var g := h[..|h| - 1];
      PeakIsLargest(g);
      forall i | 0 <= i <= |h| ensures |After(h[..i])| <= Peak(h) {
        if i < |h| { assert h[..i] == g[..i]; } else { assert h[..i] == h; }
      }
      if Peak(h) == Peak(g) {
        var i :| 0 <= i <= |g| && |After(g[..i])| == Peak(g);
        assert h[..i] == g[..i];
      } else {
        assert h[..|h|] == h;
      }
    }
  }

  lemma Fewer<A, B>(m: map<A, B>, a: A)
    ensures |m - {a}| == if a in m then |m| - 1 else |m|
  {
    assert (m - {a}).Keys == m.Keys - {a};
  }

  // -- Lists of descriptors -------------------------------------------------------------------------------

  datatype Descriptor = Descriptor(link: int, ptr: nat, block: Block)

  function EntryOr(s: seq<nat>, k: int): (e: int) {
    if 0 <= k < |s| then s[k] else NULL
  }

  /** The list `s` starts at `head` and goes on through the links. */
  ghost predicate IsList(ds: seq<Descriptor>, head: int, s: seq<nat>) {
    && head == EntryOr(s, 0)
    && (forall k :: 0 <= k < |s| ==> s[k] < |ds|)
    && (forall k :: 0 <= k < |s| ==> ds[s[k]].link == EntryOr(s, k + 1))
  }

  ghost predicate NoDuplicates(s: seq<nat>) {
    forall i, j :: 0 <= i < j < |s| ==> s[i] != s[j]
  }

  lemma ListUntouched(ds: seq<Descriptor>, head: int, s: seq<nat>, d: nat, v: Descriptor)
    requires IsList(ds, head, s) && d < |ds| && (d in s ==> v.link == ds[d].link)
    ensures IsList(ds[d := v], head, s)
  {
  }

  lemma ListPushed(ds: seq<Descriptor>, head: int, s: seq<nat>, d: nat)
    requires IsList(ds, head, s) && d < |ds| && d !in s && NoDuplicates(s)
    ensures IsList(ds[d := ds[d].(link := head)], d, [d] + s) && NoDuplicates([d] + s)
  {
    var t, l := [d] + s, ds[d := ds[d].(link := head)];
    forall k | 0 <= k < |t| ensures t[k] < |l| && l[t[k]].link == EntryOr(t, k + 1) {
      if k > 0 { assert t[k] == s[k - 1] && l[s[k - 1]].link == EntryOr(s, k); }
    }
  }

  function RemoveAt(s: seq<nat>, k: nat): (r: seq<nat>)
    requires k < |s|
    ensures |r| == |s| - 1
  {
    s[..k] + s[k + 1..]
  }

  lemma RemovedEntries(s: seq<nat>, k: nat)
    requires k < |s| && NoDuplicates(s)
    ensures var t := RemoveAt(s, k);
            && (forall i :: 0 <= i < k ==> t[i] == s[i]) && (forall i :: k <= i < |t| ==> t[i] == s[i + 1])
            && NoDuplicates(t) && forall x :: x in t <==> x in s && x != s[k]
  {
    var t := RemoveAt(s, k);
    forall x | x in s && x != s[k] ensures x in t {
      var i :| 0 <= i < |s| && s[i] == x;
      assert x == if i < k then t[i] else t[i - 1];
    }
  }

  /** The array after the entry before `s[k]`, if any, is sent past it. */
  function Unlink(ds: seq<Descriptor>, s: seq<nat>, k: nat): (r: seq<Descriptor>)
    requires k < |s| && forall i :: 0 <= i < |s| ==> s[i] < |ds|
  {
    if k == 0 then ds else ds[s[k - 1] := ds[s[k - 1]].(link := ds[s[k]].link)]
  }

  lemma ListRemoved(ds: seq<Descriptor>, head: int, s: seq<nat>, k: nat)
    requires IsList(ds, head, s) && NoDuplicates(s) && k < |s|
    ensures IsList(Unlink(ds, s, k), if k == 0 then ds[s[k]].link else head, RemoveAt(s, k))
  {
    hide RemoveAt;
    var t, l := RemoveAt(s, k), Unlink(ds, s, k);
    RemovedEntries(s, k);
    assert ds[s[k]].link == EntryOr(s, k + 1);
    forall i | 0 <= i < |t| ensures t[i] < |l| && l[t[i]].link == EntryOr(t, i + 1) {
      RemovedLink(ds, head, s, k, i);
    }
  }

  lemma HeadAt(ds: seq<Descriptor>, head: int, s: seq<nat>)
    requires IsList(ds, head, s)
    ensures head == EntryOr(s, 0)
  {
  }

  lemma LinkAt(ds: seq<Descriptor>, head: int, s: seq<nat>, k: nat)
    requires IsList(ds, head, s) && k < |s|
    ensures s[k] < |ds| && ds[s[k]].link == if k + 1 < |s| then s[k + 1] else NULL
  {
  }

  lemma RemovedLink(ds: seq<Descriptor>, head: int, s: seq<nat>, k: nat, i: nat)
    requires IsList(ds, head, s) && NoDuplicates(s) && k < |s| && i < |s| - 1
    ensures forall j :: 0 <= j < |s| ==> s[j] < |ds|
    ensures var t, l := RemoveAt(s, k), Unlink(ds, s, k);
            t[i] < |l| && l[t[i]].link == EntryOr(t, i + 1)
  {
    hide RemoveAt, NoDuplicates, IsList;
    forall j | 0 <= j < |s| ensures s[j] < |ds| { LinkAt(ds, head, s, j); }
    var t, l := RemoveAt(s, k), Unlink(ds, s, k);
    RemovedEntries(s, k);
    LinkAt(ds, head, s, k);
    var e := if i < k then i else i + 1;
    LinkAt(ds, head, s, e);
    if e != k - 1 && k > 0 { Differ(s, e, k - 1); }
    assert i + 1 < |t| ==> t[i + 1] == if i + 1 < k then s[i + 1] else s[i + 2];
  }

  lemma Differ(s: seq<nat>, i: nat, j: nat)
    requires NoDuplicates(s) && i < |s| && j < |s| && i != j
    ensures s[i] != s[j]
  {
  }

  // -- Every descriptor in one place --------------------------------------------------------------------

  /** The lists of the hash chains and, last, of the free descriptors; `owner` tells for each descriptor in
      use the one list it is in, or NULL while it is being moved. */
  ghost predicate Placed(heads: seq<int>, ds: seq<Descriptor>, lists: seq<seq<nat>>, owner: seq<int>) {
    && |heads| == |lists| && |owner| <= |ds|
    && (forall i: nat :: i < |lists| ==> Chained(heads, ds, lists, i))
    && (forall i: nat, d: nat :: i < |lists| ==> Listed(lists, owner, i, d))
  }

  ghost predicate Chained(heads: seq<int>, ds: seq<Descriptor>, lists: seq<seq<nat>>, i: nat) {
    i < |lists| && i < |heads| && IsList(ds, heads[i], lists[i]) && NoDuplicates(lists[i])
  }

  ghost predicate Listed(lists: seq<seq<nat>>, owner: seq<int>, i: nat, d: nat) {
    i < |lists| && (d in lists[i] <==> d < |owner| && owner[d] == i)
  }

  lemma Owned(heads: seq<int>, ds: seq<Descriptor>, lists: seq<seq<nat>>, owner: seq<int>, i: nat, d: nat)
    requires Placed(heads, ds, lists, owner) && i < |lists|
    ensures IsList(ds, heads[i], lists[i]) && NoDuplicates(lists[i])
    ensures d in lists[i] <==> d < |owner| && owner[d] == i
  {
    hide IsList, NoDuplicates;
    assert Chained(heads, ds, lists, i);
    assert Listed(lists, owner, i, d);
  }

  lemma PushKeeps(heads: seq<int>, ds: seq<Descriptor>, lists: seq<seq<nat>>, owner: seq<int>, i: nat, d: nat)
    requires Placed(heads, ds, lists, owner) && i < |lists| && d < |owner| && owner[d] == NULL
    ensures Placed(heads[i := d], ds[d := ds[d].(link := heads[i])], lists[i := [d] + lists[i]], owner[d := i])
  {
    hide IsList, NoDuplicates;
    var heads', ds', lists', owner' :=
      heads[i := d], ds[d := ds[d].(link := heads[i])], lists[i := [d] + lists[i]], owner[d := i];
    Owned(heads, ds, lists, owner, i, d);
    ListPushed(ds, heads[i], lists[i], d);
    forall j: nat | j < |lists'| ensures Chained(heads', ds', lists', j) {
      if j != i {
        Owned(heads, ds, lists, owner, j, d);
        ListUntouched(ds, heads[j], lists[j], d, ds'[d]);
      }
    }
    forall j: nat, e: nat | j < |lists'| ensures Listed(lists', owner', j, e) {
      Owned(heads, ds, lists, owner, j, e);
      Owned(heads, ds, lists, owner, j, d);
    }
  }

  lemma RemoveKeeps(heads: seq<int>, ds: seq<Descriptor>, lists: seq<seq<nat>>, owner: seq<int>, i: nat, k: nat)
    requires Placed(heads, ds, lists, owner) && i < |lists| && k < |lists[i]|
    ensures forall j :: 0 <= j < |lists[i]| ==> lists[i][j] < |owner| <= |ds| && owner[lists[i][j]] == i
    ensures var d := lists[i][k];
            Placed(if k == 0 then heads[i := ds[d].link] else heads, Unlink(ds, lists[i], k),
                   lists[i := RemoveAt(lists[i], k)], owner[d := NULL])
  {
    hide IsList, NoDuplicates, RemoveAt;
    var s := lists[i];
    forall j | 0 <= j < |s| ensures s[j] < |owner| && owner[s[j]] == i { Owned(heads, ds, lists, owner, i, s[j]); }
    var d, ds' := s[k], Unlink(ds, s, k);
    var heads' := if k == 0 then heads[i := ds[d].link] else heads;
    var lists', owner' := lists[i := RemoveAt(s, k)], owner[d := NULL];
    Owned(heads, ds, lists, owner, i, d);
    ListRemoved(ds, heads[i], s, k);
    RemovedEntries(s, k);
    forall j: nat | j < |lists'| ensures Chained(heads', ds', lists', j) {
      Owned(heads, ds, lists, owner, j, d);
      if j != i && k > 0 {
        Owned(heads, ds, lists, owner, j, s[k - 1]);
        ListUntouched(ds, heads[j], lists[j], s[k - 1], ds'[s[k - 1]]);
      }
    }
    forall j: nat, e: nat | j < |lists'| ensures Listed(lists', owner', j, e) {
      Owned(heads, ds, lists, owner, j, e);
    }
  }

  /** Other fields of a descriptor, and descriptors in no list, may change freely. */
  lemma SetKeeps(heads: seq<int>, ds: seq<Descriptor>, lists: seq<seq<nat>>, owner: seq<int>, d: nat, v: Descriptor)
    requires Placed(heads, ds, lists, owner) && d < |ds| && v.link == ds[d].link
    ensures Placed(heads, ds[d := v], lists, owner)
  {
    hide IsList, NoDuplicates;
    var ds' := ds[d := v];
    forall j: nat | j < |lists| ensures Chained(heads, ds', lists, j) {
      Owned(heads, ds, lists, owner, j, d);
      ListUntouched(ds, heads[j], lists[j], d, v);
    }
  }

  lemma TakeKeeps(heads: seq<int>, ds: seq<Descriptor>, lists: seq<seq<nat>>, owner: seq<int>)
    requires Placed(heads, ds, lists, owner) && |owner| < |ds|
    ensures Placed(heads, ds, lists, owner + [NULL])
  {
    hide IsList, NoDuplicates;
    var owner' := owner + [NULL];
    forall j: nat, e: nat | j < |lists| ensures Listed(lists, owner', j, e) {
      Owned(heads, ds, lists, owner, j, e);
    }
  }

  /** `live` tells which descriptor stands for a pointer: the ones in hash chains, each in the chain of its
      pointer. */
  ghost predicate Describes(live: map<nat, nat>, ds: seq<Descriptor>, owner: seq<int>) {
    && |owner| <= |ds|
    && (forall p :: p in live ==> live[p] < |owner| && ds[live[p]].ptr == p && owner[live[p]] == Hash(p))
    && (forall d :: 0 <= d < |owner| && 0 <= owner[d] < NUM_TABLES ==> ds[d].ptr in live && live[ds[d].ptr] == d)
  }

  lemma InRange(live: map<nat, nat>, ds: seq<Descriptor>, owner: seq<int>)
    requires Describes(live, ds, owner)
    ensures forall p :: p in live ==> live[p] < |owner| <= |ds|
  {
  }

  lemma LiveAt(live: map<nat, nat>, ds: seq<Descriptor>, owner: seq<int>, p: nat)
    requires Describes(live, ds, owner) && p in live
    ensures live[p] < |owner| && ds[live[p]].ptr == p && owner[live[p]] == Hash(p)
  {
  }

  lemma PointerOf(live: map<nat, nat>, ds: seq<Descriptor>, owner: seq<int>, d: nat)
    requires Describes(live, ds, owner) && d < |owner| && 0 <= owner[d] < NUM_TABLES
    ensures ds[d].ptr in live && live[ds[d].ptr] == d
  {
  }

  ghost predicate SamePointers(ds: seq<Descriptor>, ds': seq<Descriptor>, d: nat) {
    |ds| == |ds'| && forall e :: 0 <= e < |ds| && e != d ==> ds'[e].ptr == ds[e].ptr && ds'[e].block == ds[e].block
  }

  lemma DescribesMore(live: map<nat, nat>, ds: seq<Descriptor>, ds': seq<Descriptor>, owner: seq<int>, p: nat, d: nat)
    requires Describes(live, ds, owner) && p !in live && d < |owner| && owner[d] == NULL
    requires SamePointers(ds, ds', d) && ds'[d].ptr == p
    ensures forall q :: q in live ==> live[q] < |owner| && live[q] != d
    ensures Describes(live[p := d], ds', owner[d := Hash(p)])
  {
    hide Hash;
    var live', owner' := live[p := d], owner[d := Hash(p)];
    forall q | q in live ensures live[q] < |owner| && live[q] != d { assert owner[live[q]] == Hash(q); }
    forall q | q in live' ensures live'[q] < |owner'| && ds'[live'[q]].ptr == q && owner'[live'[q]] == Hash(q) {
    }
    forall e | 0 <= e < |owner'| && 0 <= owner'[e] < NUM_TABLES ensures ds'[e].ptr in live' && live'[ds'[e].ptr] == e {
      if e != d { assert ds[e].ptr in live && live[ds[e].ptr] == e; }
    }
  }

  lemma DescribesLess(live: map<nat, nat>, ds: seq<Descriptor>, ds': seq<Descriptor>, owner: seq<int>,
                      owner': seq<int>, p: nat)
    requires Describes(live, ds, owner) && p in live && live[p] < |owner| && owner' == owner[live[p] := NUM_TABLES]
    requires |ds| == |ds'| && forall e :: 0 <= e < |ds| ==> ds'[e].ptr == ds[e].ptr
    ensures Describes(live - {p}, ds', owner')
  {
    hide Hash;
    var live', d := live - {p}, live[p];
    forall q | q in live' ensures live'[q] < |owner'| && ds'[live'[q]].ptr == q && owner'[live'[q]] == Hash(q) {
      assert ds[live[q]].ptr == q && ds[live[p]].ptr == p;
    }
    forall e | 0 <= e < |owner'| && 0 <= owner'[e] < NUM_TABLES ensures ds'[e].ptr in live' && live'[ds'[e].ptr] == e {
      assert e != d && ds[e].ptr in live && live[ds[e].ptr] == e;
    }
  }

  ghost function BlocksOf(live: map<nat, nat>, ds: seq<Descriptor>): (r: map<nat, Block>)
    requires forall p :: p in live ==> live[p] < |ds|
    ensures |r| == |live| && r.Keys == live.Keys
  {
    var r := map p | p in live :: ds[live[p]].block;
    assert r.Keys == live.Keys;
    assert |r| == |r.Keys| && |live| == |live.Keys|;
    r
  }

  lemma BlockAdded(live: map<nat, nat>, ds: seq<Descriptor>, ds': seq<Descriptor>, p: nat, d: nat)
    requires forall q :: q in live ==> live[q] < |ds| == |ds'| && ds'[live[q]].block == ds[live[q]].block
    requires d < |ds'|
    ensures BlocksOf(live[p := d], ds') == BlocksOf(live, ds)[p := ds'[d].block]
  {
  }

  lemma BlockRemoved(live: map<nat, nat>, ds: seq<Descriptor>, ds': seq<Descriptor>, p: nat)
    requires forall q :: q in live ==> live[q] < |ds| == |ds'| && ds'[live[q]].block == ds[live[q]].block
    ensures BlocksOf(live - {p}, ds') == BlocksOf(live, ds) - {p}
  {
  }

  lemma Freed(live: map<nat, nat>, ds: seq<Descriptor>, ds': seq<Descriptor>, owner: seq<int>, owner': seq<int>,
              p: nat, h: seq<Op>)
    requires Describes(live, ds, owner) && p in live && live[p] < |owner| && owner' == owner[live[p] := NUM_TABLES]
    requires |ds| == |ds'| && forall e :: 0 <= e < |ds| ==> ds'[e] == ds[e].(link := ds'[e].link)
    requires (forall q :: q in live ==> live[q] < |ds|) && BlocksOf(live, ds) == After(h)
    ensures Describes(live - {p}, ds', owner') && |live - {p}| == |live| - 1
    ensures BlocksOf(live - {p}, ds') == After(h + [Free(p)]) && Peak(h + [Free(p)]) == Peak(h)
  {
    hide Hash, After, Peak, Describes, BlocksOf;
    DescribesLess(live, ds, ds', owner, owner', p);
    BlockRemoved(live, ds, ds', p);
    Fewer(live, p);
    OneMore(h, Free(p));
  }

  class HeapTable {
    const htab: array<int>
    const dspts: array<Descriptor>
    var idx: nat
    var freelist: int

    ghost var lists: seq<seq<nat>>
    ghost var owner: seq<int>
    ghost var live: map<nat, nat>
    ghost var history: seq<Op>

    /** The heads of the hash chains and of the free list. */
    ghost function Heads(): (r: seq<int>)
      reads `freelist, htab
    {
      htab[..] + [freelist]
    }

    /** Every descriptor below `idx` is in exactly one place: the hash chain of its pointer, with the block it
        describes alive, or the free list. */
    ghost predicate Placement()
      reads `idx, `freelist, `lists, `owner, htab, dspts
    {
      && htab.Length == NUM_TABLES && dspts.Length == NUM_DSPTS && |lists| == NUM_TABLES + 1
      && |owner| == idx <= NUM_DSPTS
      && Placed(Heads(), dspts[..], lists, owner)
    }

    /** The blocks alive, with what is recorded about them. */
    ghost function Blocks(): (r: map<nat, Block>)
      requires forall p :: p in live ==> live[p] < dspts.Length
      reads `live, dspts
    {
      BlocksOf(live, dspts[..])
    }

    ghost predicate Valid()
      reads this, htab, dspts
    {
      && Placement() && Describes(live, dspts[..], owner) && idx < NUM_DSPTS
      && (forall d :: 0 <= d < idx ==> owner[d] != NULL)
      && |lists[NUM_TABLES]| + |live| == idx
      && Blocks() == After(history) && idx == Peak(history)
    }

    constructor ()
      ensures Valid() && history == [] && fresh(htab) && fresh(dspts)
    {
      htab := new int[NUM_TABLES](_ => NULL);
      dspts := new Descriptor[NUM_DSPTS](_ => Descriptor(NULL, 0, Block(0, "", 0)));
      idx, freelist := 0, NULL;
      lists, owner, live, history := seq(NUM_TABLES + 1, _ => []), [], map[], [];
    }

    /** `tab_find`. */
    method Find(p: nat) returns (bp: int)
      requires Valid()
      ensures bp == NULL <==> p !in Blocks()
      ensures bp != NULL ==> 0 <= bp < idx && dspts[bp].ptr == p && dspts[bp].block == Blocks()[p]
    {
      hide IsList, NoDuplicates, Placed, After, Peak, Hash, Describes;
      ghost var h := Hash(p);
      ghost var s, k := lists[h], 0;
      bp := htab[Hash(p)];
      AllOwned(h);
      HeadAt(dspts[..], htab[h], s);
      if p in live { LiveAt(live, dspts[..], owner, p); assert live[p] in s; }
      while bp != NULL && dspts[bp].ptr != p
        invariant 0 <= k <= |s| && bp == EntryOr(s, k)
        invariant forall i :: 0 <= i < k ==> dspts[s[i]].ptr != p
        decreases |s| - k
      {
        LinkAt(dspts[..], htab[h], s, k);
        bp := dspts[bp].link;
        k := k + 1;
      }
      if bp != NULL { PointerOf(live, dspts[..], owner, bp); }
    }

    /** What a chain, or the free list, holds. */
    lemma AllOwned(h: nat)
      requires Placement() && h <= NUM_TABLES
      ensures IsList(dspts[..], Heads()[h], lists[h]) && NoDuplicates(lists[h])
      ensures forall d: nat :: d in lists[h] <==> d < |owner| && owner[d] == h
      ensures forall k :: 0 <= k < |lists[h]| ==> lists[h][k] < idx && owner[lists[h][k]] == h
    {
      hide IsList, NoDuplicates, Placed;
      forall d: nat ensures d in lists[h] <==> d < |owner| && owner[d] == h {
        Owned(Heads(), dspts[..], lists, owner, h, d);
      }
      Owned(Heads(), dspts[..], lists, owner, h, 0);
      forall k | 0 <= k < |lists[h]| ensures lists[h][k] < idx && owner[lists[h][k]] == h {
        assert lists[h][k] in lists[h];
      }
    }

    /** `tab_put`. */
    method Put(d: nat)
      requires Placement() && d < idx && owner[d] == NULL
      modifies htab, dspts, `lists, `owner
      ensures Placement()
      ensures var h := Hash(dspts[d].ptr);
              lists == old(lists)[h := [d] + old(lists)[h]] && owner == old(owner)[d := h]
      ensures forall e :: 0 <= e < dspts.Length ==> dspts[e] == old(dspts[e]).(link := dspts[e].link)
    {
      hide Placed, Hash;
      var h := Hash(dspts[d].ptr);
      PushKeeps(Heads(), dspts[..], lists, owner, h, d);
      ghost var heads, ds := Heads(), dspts[..];
      dspts[d] := dspts[d].(link := htab[h]);
      htab[h] := d;
      lists, owner := lists[h := [d] + lists[h]], owner[d := h];
      assert Heads() == heads[h := d] && dspts[..] == ds[d := ds[d].(link := heads[h])];
    }

    /** `freedspt_get`; `ok` is false when the assertion that a descriptor is left fails. */
    method GetDescriptor() returns (d: nat, ok: bool)
      requires Placement() && idx < NUM_DSPTS && Describes(live, dspts[..], owner)
      requires forall e :: 0 <= e < idx ==> owner[e] != NULL
      modifies `idx, `freelist, `lists, `owner
      ensures Placement() && Describes(live, dspts[..], owner) && d < idx && owner[d] == NULL
      ensures forall e :: 0 <= e < idx && e != d ==> owner[e] != NULL
      ensures old(freelist) == NULL ==>
                idx == old(idx) + 1 && lists == old(lists) && old(lists[NUM_TABLES]) == []
      ensures old(freelist) != NULL ==>
                && idx == old(idx) && old(lists[NUM_TABLES]) != []
                && lists == old(lists)[NUM_TABLES := old(lists[NUM_TABLES])[1..]]
      ensures ok <==> old(freelist) != NULL || idx < NUM_DSPTS
    {
      hide Placed, IsList, NoDuplicates, Hash;
      ghost var ds, heads, s := dspts[..], Heads(), lists[NUM_TABLES];
      AllOwned(NUM_TABLES);
      HeadAt(ds, freelist, s);
      if freelist != NULL {
        RemoveKeeps(heads, ds, lists, owner, NUM_TABLES, 0);
        d := freelist;
        freelist := dspts[d].link;
        ok := true;
        assert RemoveAt(s, 0) == s[1..];
        lists, owner := lists[NUM_TABLES := s[1..]], owner[d := NULL];
        assert Heads() == heads[NUM_TABLES := freelist];
      } else {
        TakeKeeps(heads, ds, lists, owner);
        d := idx;
        idx := idx + 1;
        owner := owner + [NULL];
        ok := idx != NUM_DSPTS;
      }
    }

    /** `amem_alloc` after `malloc` gave the block at `p`; `ok` is false when the descriptors run out and the
        program stops. */
    method Allocate(p: nat, nbytes: nat, file: string, line: nat) returns (ok: bool)
      requires Valid() && p != 0 && p !in Blocks()
      modifies this, htab, dspts
      ensures ok <==> old(|Blocks()|) + 1 < NUM_DSPTS
      ensures ok ==>
              Valid() && history == old(history) + [Alloc(p, Block(if nbytes == 0 then 1 else nbytes, file, line))]
    {
      ok := Record(p, Block(if nbytes == 0 then 1 else nbytes, file, line));
    }

    method Record(p: nat, block: Block) returns (ok: bool)
      requires Valid() && p != 0 && p !in Blocks()
      modifies this, htab, dspts
      ensures ok <==> old(|Blocks()|) + 1 < NUM_DSPTS
      ensures ok ==> Valid() && history == old(history) + [Alloc(p, block)]
    {
      hide Placed, Hash, After, Peak, IsList, NoDuplicates, Describes, BlocksOf;
      ghost var before, owner1 := dspts[..], owner;
      FreeCount();
      var d;
      d, ok := GetDescriptor();
      if !ok {
        return;
      }
      owner1 := owner;
      Fill(d, p, block);
      Put(d);
      assert SamePointers(before, dspts[..], d);
      DescribesMore(live, before, dspts[..], owner1, p, d);
      BlockAdded(live, before, dspts[..], p, d);
      live := live[p := d];
      OneMore(history, Alloc(p, block));
      history := history + [Alloc(p, block)];
    }

    /** Nothing is free exactly when every descriptor taken so far is in use. */
    lemma FreeCount()
      requires Valid()
      ensures freelist == NULL <==> |Blocks()| == idx
    {
      hide Placed, IsList, NoDuplicates, After, Peak;
      AllOwned(NUM_TABLES);
      HeadAt(dspts[..], freelist, lists[NUM_TABLES]);
    }

    method Fill(d: nat, p: nat, block: Block)
      requires Placement() && d < idx
      modifies dspts
      ensures Placement() && dspts[..] == old(dspts[..])[d := Descriptor(old(dspts[d].link), p, block)]
    {
      hide Placed;
      SetKeeps(Heads(), dspts[..], lists, owner, d, Descriptor(dspts[d].link, p, block));
      ghost var ds := dspts[..];
      dspts[d] := Descriptor(dspts[d].link, p, block);
      assert dspts[..] == ds[d := Descriptor(ds[d].link, p, block)];
    }

    /** `amem_calloc` after `calloc` gave the block at `p`: the recorded size is a 32-bit product. */
    method AllocateArray(p: nat, count: nat, nbytes: nat, file: string, line: nat) returns (ok: bool)
      requires Valid() && p != 0 && p !in Blocks() && 0 < count < 0x1_0000_0000 && 0 < nbytes < 0x1_0000_0000
      modifies this, htab, dspts
      ensures ok <==> old(|Blocks()|) + 1 < NUM_DSPTS
      ensures ok ==> Valid() && history == old(history) + [Alloc(p, Block(nbytes * count % 0x1_0000_0000, file, line))]
    {
      ok := Record(p, Block(nbytes * count % 0x1_0000_0000, file, line));
    }

    /** `amem_free`. */
    method Release(p: nat)
      requires Valid()
      modifies this, htab, dspts
      ensures Valid() && history == if p == 0 then old(history) else old(history) + [Free(p)]
    {
      if p != 0 {
        Delete(p);
      }
    }

    /** `tab_del`: the descriptor of `p`, if there is one, moves to the free list. */
    method Delete(p: nat)
      requires Valid()
      modifies this, htab, dspts
      ensures Valid() && history == old(history) + [Free(p)]
    {
      hide Placed, Hash, After, Peak, IsList, NoDuplicates, Describes, BlocksOf, Placement;
      var prev, bp;
      ghost var k;
      Sizes();
      prev, bp, k := Locate(p, Hash(p));
      if bp != NULL {
        DeleteAt(p, prev, bp, k);
      } else {
        NotRecorded(p);
        history := history + [Free(p)];
      }
    }

    lemma Sizes()
      requires Placement()
      ensures htab.Length == NUM_TABLES && dspts.Length == NUM_DSPTS && |lists| == NUM_TABLES + 1
      ensures |owner| == idx <= NUM_DSPTS
    {
    }

    lemma NotRecorded(p: nat)
      requires Valid() && p !in live
      ensures After(history + [Free(p)]) == After(history) && Peak(history + [Free(p)]) == Peak(history)
    {
      hide Placed, IsList, NoDuplicates, Describes;
      OneMore(history, Free(p));
      assert After(history) - {p} == After(history);
    }

    method DeleteAt(p: nat, prev: int, bp: nat, ghost k: nat)
      requires Valid() && p in live
      requires var h := Hash(p); k < |lists[h]| && bp == lists[h][k] == live[p] && prev == EntryOr(lists[h], k - 1)
      modifies this, htab, dspts
      ensures Valid() && history == old(history) + [Free(p)]
    {
      hide Placed, Hash, After, Peak, IsList, NoDuplicates, Describes, BlocksOf, Placement;
      ghost var before, owner0 := dspts[..], owner;
      Sizes();
      InRange(live, before, owner);
      Move(Hash(p), prev, bp, k);
      Sizes();
      Freed(live, before, dspts[..], owner0, owner, p, history);
      live := live - {p};
      history := history + [Free(p)];
    }

    /** The search of `tab_del`: the entry for `p` and the one before it in the chain. */
    method Locate(p: nat, h: nat) returns (prev: int, bp: int, ghost k: nat)
      requires Valid() && h == Hash(p)
      ensures bp == NULL <==> p !in live
      ensures bp != NULL ==> k < |lists[h]| && bp == lists[h][k] == live[p] && prev == EntryOr(lists[h], k - 1)
    {
      hide IsList, NoDuplicates, Placed, After, Peak, Hash, BlocksOf, Describes;
      ghost var s := lists[h];
      k := 0;
      prev, bp := NULL, htab[h];
      AllOwned(h);
      HeadAt(dspts[..], htab[h], s);
      if p in live { LiveAt(live, dspts[..], owner, p); assert live[p] in s; }
      while bp != NULL && dspts[bp].ptr != p
        invariant 0 <= k <= |s| && bp == EntryOr(s, k) && prev == EntryOr(s, k - 1)
        invariant forall i :: 0 <= i < k ==> dspts[s[i]].ptr != p
        decreases |s| - k
      {
        LinkAt(dspts[..], htab[h], s, k);
        prev, bp := bp, dspts[bp].link;
        k := k + 1;
      }
      if bp != NULL { PointerOf(live, dspts[..], owner, bp); }
    }

    /** The unlinking of `tab_del`. */
    method Move(h: nat, prev: int, bp: nat, ghost k: nat)
      requires Placement() && h < NUM_TABLES && k < |lists[h]| && bp == lists[h][k] && prev == EntryOr(lists[h], k - 1)
      modifies htab, dspts, `freelist, `lists, `owner
      ensures Placement() && |lists[NUM_TABLES]| == old(|lists[NUM_TABLES]|) + 1
      ensures bp < idx && owner == old(owner)[bp := NUM_TABLES]
      ensures forall e :: 0 <= e < dspts.Length ==> dspts[e] == old(dspts[e]).(link := dspts[e].link)
    {
      hide Placed, IsList, NoDuplicates;
      Cut(h, prev, bp, k);
      ghost var heads, ds := Heads(), dspts[..];
      PushKeeps(heads, ds, lists, owner, NUM_TABLES, bp);
      dspts[bp] := dspts[bp].(link := freelist);
      freelist := bp;
      lists, owner := lists[NUM_TABLES := [bp] + lists[NUM_TABLES]], owner[bp := NUM_TABLES];
      assert Heads() == heads[NUM_TABLES := bp] && dspts[..] == ds[bp := ds[bp].(link := heads[NUM_TABLES])];
    }

    method Cut(h: nat, prev: int, bp: nat, ghost k: nat)
      requires Placement() && h < NUM_TABLES && k < |lists[h]| && bp == lists[h][k] && prev == EntryOr(lists[h], k - 1)
      modifies htab, dspts, `lists, `owner
      ensures Placement() && lists[NUM_TABLES] == old(lists[NUM_TABLES])
      ensures bp < idx && owner == old(owner)[bp := NULL]
      ensures forall e :: 0 <= e < dspts.Length ==> dspts[e] == old(dspts[e]).(link := dspts[e].link)
    {
      hide Placed, IsList, NoDuplicates, RemoveAt;
      ghost var heads, ds, s := Heads(), dspts[..], lists[h];
      RemoveKeeps(heads, ds, lists, owner, h, k);
      if prev == NULL {
        htab[h] := dspts[bp].link;
        assert Heads() == heads[h := ds[bp].link];
      } else {
        dspts[prev] := dspts[prev].(link := dspts[bp].link);
        assert dspts[..] == Unlink(ds, s, k);
      }
      lists, owner := lists[h := RemoveAt(s, k)], owner[bp := NULL];
    }
  }
}
