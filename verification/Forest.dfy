/** Forests of ordered trees over arbitrary nodes, and the two edits of mxml-node.c on them. */
module Forest {
  import opened CStrings

  /** Every node's children in order, its parent, and a height that grows towards the root. */
  datatype Forest<T> = Forest(kids: map<T, seq<T>>, up: map<T, Option<T>>, height: map<T, nat>)

  ghost predicate NoDuplicates<T>(s: seq<T>) {
    forall i, j :: 0 <= i < j < |s| ==> s[i] != s[j]
  }

  /** Children and parents agree, nobody is listed twice, and there are no cycles. */
  ghost predicate Wf<T>(f: Forest<T>) {
    && f.kids.Keys == f.up.Keys == f.height.Keys
    && (forall p, i {:trigger f.kids[p][i]} :: p in f.kids && 0 <= i < |f.kids[p]| ==>
          var c := f.kids[p][i]; c in f.kids && f.up[c] == Some(p) && f.height[c] < f.height[p])
    && (forall p :: p in f.kids ==> NoDuplicates(f.kids[p]))
    && (forall n :: n in f.kids && f.up[n].Some? ==> f.up[n].value in f.kids && n in f.kids[f.up[n].value])
  }

  ghost function IndexOf<T>(s: seq<T>, x: T): (i: nat)
    requires x in s
    ensures i < |s| && s[i] == x
  {
    if s[0] == x then 0 else 1 + IndexOf(s[1..], x)
  }

  lemma IndexUnique<T>(s: seq<T>, i: nat)
    requires NoDuplicates(s) && i < |s|
    ensures IndexOf(s, s[i]) == i
  {
    var j := IndexOf(s, s[i]);
    assert !(i < j) && !(j < i);
  }

  function RemoveAt<T>(s: seq<T>, i: nat): (r: seq<T>)
    requires i < |s|
  {
    s[..i] + s[i + 1..]
  }

  function InsertAt<T>(s: seq<T>, i: nat, x: T): (r: seq<T>)
    requires i <= |s|
  {
    s[..i] + [x] + s[i..]
  }

  /** The nodes higher than `n`; walking up from `n` stays among them. */
  ghost function Higher<T>(f: Forest<T>, n: T): (s: set<T>)
    requires n in f.height
  {
    set x | x in f.height && f.height[x] > f.height[n]
  }

  lemma ParentHigher<T>(f: Forest<T>, n: T)
    requires Wf(f) && n in f.kids && f.up[n].Some?
    ensures var p := f.up[n].value; p in f.kids && f.height[p] > f.height[n] && Higher(f, p) < Higher(f, n)
  {
    var p := f.up[n].value;
    var i := IndexOf(f.kids[p], n);
    assert f.kids[p][i] == n;
    assert p in Higher(f, n) && p !in Higher(f, p);
  }

  /** `a` is `n` or one of its ancestors. */
  ghost predicate AboveOrSelf<T>(f: Forest<T>, a: T, n: T)
    requires Wf(f) && n in f.kids
    decreases Higher(f, n)
  {
    a == n || (f.up[n].Some? && (ParentHigher(f, n); AboveOrSelf(f, a, f.up[n].value)))
  }

  /** The children of `p` are children. */
  lemma ChildOf<T>(f: Forest<T>, p: T, c: T)
    requires Wf(f) && p in f.kids
    ensures c in f.kids[p] <==> c in f.kids && f.up[c] == Some(p)
    ensures c in f.kids[p] ==> f.height[c] < f.height[p]
  {
    if c in f.kids[p] {
      var i := IndexOf(f.kids[p], c);
      assert f.kids[p][i] == c;
    }
  }

  // -- Removing ------------------------------------------------------------------------------------

  ghost function Detach<T>(f: Forest<T>, n: T): (g: Forest<T>)
    requires Wf(f) && n in f.kids
  {
    if f.up[n].None? then f
    else
      var p := f.up[n].value;
      f.(kids := f.kids[p := RemoveAt(f.kids[p], IndexOf(f.kids[p], n))], up := f.up[n := None])
  }

  lemma RemoveAtFacts<T>(s: seq<T>, i: nat)
    requires NoDuplicates(s) && i < |s|
    ensures NoDuplicates(RemoveAt(s, i))
    ensures forall x :: x in RemoveAt(s, i) <==> x in s && x != s[i]
    ensures forall k :: 0 <= k < |s| - 1 ==> RemoveAt(s, i)[k] == if k < i then s[k] else s[k + 1]
  {
    var r := RemoveAt(s, i);
    forall x ensures x in r <==> x in s && x != s[i] {
      if x in s && x != s[i] {
        var k := IndexOf(s, x);
        assert x == if k < i then r[k] else r[k - 1];
      }
    }
  }

  lemma DetachHeights<T>(f: Forest<T>, n: T, q: T, i: nat)
    requires Wf(f) && n in f.kids && q in f.kids && i < |Detach(f, n).kids[q]|
    ensures var g := Detach(f, n);
            var c := g.kids[q][i]; c in g.kids && g.up[c] == Some(q) && g.height[c] < g.height[q]
  {
    var g := Detach(f, n);
    if f.up[n].Some? {
      var p := f.up[n].value;
      RemoveAtFacts(f.kids[p], IndexOf(f.kids[p], n));
    }
    assert g.kids[q][i] in f.kids[q];
    ChildOf(f, q, g.kids[q][i]);
  }

  lemma DetachWf<T>(f: Forest<T>, n: T)
    requires Wf(f) && n in f.kids
    ensures Wf(Detach(f, n)) && Detach(f, n).kids.Keys == f.kids.Keys && Detach(f, n).up[n] == None
    ensures Detach(f, n).height == f.height
  {
    hide IndexOf, RemoveAt;
    if f.up[n].Some? {
      var p := f.up[n].value;
      var g := Detach(f, n);
      RemoveAtFacts(f.kids[p], IndexOf(f.kids[p], n));
      forall q, i {:trigger g.kids[q][i]} | q in g.kids && 0 <= i < |g.kids[q]|
        ensures var c := g.kids[q][i]; c in g.kids && g.up[c] == Some(q) && g.height[c] < g.height[q]
      {
        DetachHeights(f, n, q, i);
      }
    }
  }

  // -- Inserting -----------------------------------------------------------------------------------

  /** `n`, which has no parent, becomes child number `i` of `p`. */
  ghost function Attach<T>(f: Forest<T>, p: T, i: nat, n: T): (g: Forest<T>)
    requires Wf(f) && p in f.kids && n in f.kids && i <= |f.kids[p]|
  {
    Forest(f.kids[p := InsertAt(f.kids[p], i, n)], f.up[n := Some(p)],
           map x | x in f.kids :: if AboveOrSelf(f, x, p) then f.height[x] + f.height[n] + 1 else f.height[x])
  }

  lemma InsertAtFacts<T>(s: seq<T>, i: nat, x: T)
    requires NoDuplicates(s) && i <= |s| && x !in s
    ensures NoDuplicates(InsertAt(s, i, x))
    ensures |InsertAt(s, i, x)| == |s| + 1
    ensures forall k :: 0 <= k <= |s| ==> InsertAt(s, i, x)[k] == if k < i then s[k] else if k == i then x else s[k - 1]
  {
  }

  lemma AboveItself<T>(f: Forest<T>, p: T)
    requires Wf(f) && p in f.kids
    ensures AboveOrSelf(f, p, p) && f.kids.Keys == f.up.Keys == f.height.Keys
  {
  }

  /** Heights still grow towards the root. */
  lemma AttachHeights<T>(f: Forest<T>, p: T, i: nat, n: T, q: T, k: nat)
    requires Wf(f) && p in f.kids && n in f.kids && i <= |f.kids[p]| && f.up[n] == None && !AboveOrSelf(f, n, p)
    requires q in f.kids && k < |Attach(f, p, i, n).kids[q]|
    ensures var g := Attach(f, p, i, n);
            var c := g.kids[q][k]; c in g.kids && g.up[c] == Some(q) && g.height[c] < g.height[q]
  {
    hide Wf, AboveOrSelf;
    AboveItself(f, p);
    var g := Attach(f, p, i, n);
    var c := g.kids[q][k];
    if q != p || k != i {
      var j := if q == p && k > i then k - 1 else k;
      assert f.kids[q][j] == c;
      ChildOf(f, q, c);
      if AboveOrSelf(f, c, p) {
        AboveUp(f, c, p, q);
      }
    }
  }

  lemma AttachWf<T>(f: Forest<T>, p: T, i: nat, n: T)
    requires Wf(f) && p in f.kids && n in f.kids && i <= |f.kids[p]|
    requires f.up[n] == None && !AboveOrSelf(f, n, p)
    ensures Wf(Attach(f, p, i, n)) && Attach(f, p, i, n).kids.Keys == f.kids.Keys
  {
    hide AboveOrSelf, InsertAt, NoDuplicates;
    var g := Attach(f, p, i, n);
    ChildOf(f, p, n);
    InsertAtFacts(f.kids[p], i, n);
    forall q, k {:trigger g.kids[q][k]} | q in g.kids && 0 <= k < |g.kids[q]|
      ensures var c := g.kids[q][k]; c in g.kids && g.up[c] == Some(q) && g.height[c] < g.height[q]
    {
      AttachHeights(f, p, i, n, q, k);
    }
    forall m | m in g.kids && g.up[m].Some?
      ensures g.up[m].value in g.kids && m in g.kids[g.up[m].value]
    {
      AttachListed(f, p, i, n, m);
    }
  }

  /** Every node with a parent is still listed there. */
  lemma AttachListed<T>(f: Forest<T>, p: T, i: nat, n: T, m: T)
    requires Wf(f) && p in f.kids && n in f.kids && i <= |f.kids[p]| && f.up[n] == None
    requires m in f.kids && Attach(f, p, i, n).up[m].Some?
    ensures var g := Attach(f, p, i, n); g.up[m].value in g.kids && m in g.kids[g.up[m].value]
  {
    hide NoDuplicates, IndexOf;
    var g := Attach(f, p, i, n);
    if m == n {
      assert g.kids[p][i] == n;
    } else if g.up[m].value == p {
      ChildOf(f, p, m);
      var j := IndexOf(f.kids[p], m);
      assert m == g.kids[p][if j < i then j else j + 1];
    }
  }

  /** If `c` is above `p` then so is the parent of `c`. */
  lemma {:induction false} AboveUp<T>(f: Forest<T>, c: T, p: T, q: T)
    requires Wf(f) && p in f.kids && c in f.kids && AboveOrSelf(f, c, p) && f.up[c] == Some(q)
    ensures AboveOrSelf(f, q, p)
    decreases Higher(f, p)
  {
    if c == p {
      assert AboveOrSelf(f, q, q);
    } else {
      ParentHigher(f, p);
      AboveUp(f, c, f.up[p].value, q);
    }
  }

  // -- Adding: remove, then insert --------------------------------------------------------------------

  /** A new node on its own. */
  function AddRoot<T>(f: Forest<T>, n: T): (g: Forest<T>) {
    Forest(f.kids[n := []], f.up[n := None], f.height[n := 0])
  }

  lemma AddRootWf<T>(f: Forest<T>, n: T)
    requires Wf(f) && n !in f.kids
    ensures Wf(AddRoot(f, n))
  {
    var g := AddRoot(f, n);
    forall q, i {:trigger g.kids[q][i]} | q in g.kids && 0 <= i < |g.kids[q]|
      ensures var c := g.kids[q][i]; c in g.kids && g.up[c] == Some(q) && g.height[c] < g.height[q]
    {
      assert f.kids[q][i] in f.kids;
    }
  }

  /** Where `mxmlAdd` puts a node: before or after `child` when that is a child of `p`, otherwise at
      the front or at the end. */
  ghost function Position<T>(kids: seq<T>, before: bool, child: Option<T>): (i: nat)
    ensures i <= |kids|
  {
    if child.Some? && child.value in kids then
      var k := IndexOf(kids, child.value); if before then k else k + 1
    else if before then 0 else |kids|
  }

  ghost function Add<T>(f: Forest<T>, p: T, before: bool, child: Option<T>, n: T): (g: Forest<T>)
    requires Wf(f) && p in f.kids && n in f.kids
  {
    DetachWf(f, n);
    var g := Detach(f, n);
    Attach(g, p, Position(g.kids[p], before, child), n)
  }

  /** Removing `n` does not change who is above `p`, as long as `n` is not above `p`. */
  lemma {:induction false} DetachAbove<T>(f: Forest<T>, n: T, a: T, p: T)
    requires Wf(f) && n in f.kids && p in f.kids && !AboveOrSelf(f, n, p)
    ensures Wf(Detach(f, n)) && Detach(f, n).kids.Keys == f.kids.Keys
    ensures AboveOrSelf(Detach(f, n), a, p) <==> AboveOrSelf(f, a, p)
    decreases Higher(f, p)
  {
    DetachWf(f, n);
    if a != p && f.up[p].Some? {
      ParentHigher(f, p);
      DetachAbove(f, n, a, f.up[p].value);
    }
  }

  /** A new node `n`, on its own or as the last child of `p`. */
  ghost function NewChild<T>(f: Forest<T>, p: Option<T>, n: T): (g: Forest<T>)
    requires Wf(f) && n !in f.kids && (p.Some? ==> p.value in f.kids)
  {
    AddRootWf(f, n);
    if p.None? then AddRoot(f, n) else Add(AddRoot(f, n), p.value, false, None, n)
  }

  /** A new child comes last, and nothing else moves. */
  lemma NewChildFacts<T>(f: Forest<T>, p: T, n: T)
    requires Wf(f) && n !in f.kids && p in f.kids
    ensures var g := NewChild(f, Some(p), n);
            && Wf(g) && g.kids == f.kids[n := []][p := f.kids[p] + [n]] && g.up == f.up[n := Some(p)]
  {
    hide Wf, AboveOrSelf, NoDuplicates;
    AddRootWf(f, n);
    var r := AddRoot(f, n);
    RootAbove(r, n, p);
    AddWf(r, p, false, None, n);
    AboveItself(f, p);
    AddedLast(f, p, n);
  }

  lemma AddedLast<T>(f: Forest<T>, p: T, n: T)
    requires Wf(f) && n !in f.kids && p in f.kids && f.kids.Keys == f.up.Keys
    ensures Wf(AddRoot(f, n))
    ensures var g := Add(AddRoot(f, n), p, false, None, n);
            g.kids == f.kids[n := []][p := f.kids[p] + [n]] && g.up == f.up[n := Some(p)]
  {
    hide Wf;
    AddRootWf(f, n);
    var k := f.kids[p];
    assert InsertAt(k, |k|, n) == k + [n];
  }

  lemma AddWf<T>(f: Forest<T>, p: T, before: bool, child: Option<T>, n: T)
    requires Wf(f) && p in f.kids && n in f.kids && !AboveOrSelf(f, n, p)
    ensures Wf(Add(f, p, before, child, n)) && Add(f, p, before, child, n).kids.Keys == f.kids.Keys
  {
    DetachAbove(f, n, n, p);
    DetachWf(f, n);
    var g := Detach(f, n);
    AttachWf(g, p, Position(g.kids[p], before, child), n);
  }

  /** Removing a node right after adding it gives what removing it at once would have given. */
  lemma RemoveUndoesAdd<T>(f: Forest<T>, p: T, before: bool, child: Option<T>, n: T)
    requires Wf(f) && p in f.kids && n in f.kids && !AboveOrSelf(f, n, p)
    ensures Wf(Add(f, p, before, child, n)) && n in Add(f, p, before, child, n).kids
    ensures var g, h := Detach(f, n), Detach(Add(f, p, before, child, n), n); h.kids == g.kids && h.up == g.up
  {
    hide Wf, AboveOrSelf, Position;
    AddWf(f, p, before, child, n);
    DetachWf(f, n);
    DetachAbove(f, n, n, p);
    var g := Detach(f, n);
    DetachAttached(g, p, Position(g.kids[p], before, child), n);
  }

  lemma DetachAttached<T>(g: Forest<T>, p: T, i: nat, n: T)
    requires Wf(g) && p in g.kids && n in g.kids && g.up[n] == None && i <= |g.kids[p]|
    requires Wf(Attach(g, p, i, n)) && n in Attach(g, p, i, n).kids
    ensures var h := Detach(Attach(g, p, i, n), n); h.kids == g.kids && h.up == g.up
  {
    hide Wf, AboveOrSelf;
    AboveItself(g, p);
    ChildOf(g, p, n);
    var s := g.kids[p];
    assert NoDuplicates(s) by { Unduplicated(g, p); }
    InsertAtFacts(s, i, n);
    assert InsertAt(s, i, n)[i] == n;
    IndexUnique(InsertAt(s, i, n), i);
    assert RemoveAt(InsertAt(s, i, n), i) == s;
  }

  lemma Unduplicated<T>(f: Forest<T>, p: T)
    requires Wf(f) && p in f.kids
    ensures NoDuplicates(f.kids[p])
  {
  }

  /** Where an added node stands: next to `child` if that is a child of `p`, else first or last. */
  lemma AddPlace<T>(f: Forest<T>, p: T, before: bool, child: Option<T>, n: T)
    requires Wf(f) && p in f.kids && n in f.kids && !AboveOrSelf(f, n, p) && child != Some(n)
    ensures Wf(Add(f, p, before, child, n)) && p in Add(f, p, before, child, n).kids
    ensures var s := Add(f, p, before, child, n).kids[p];
            && n in s
            && (child.Some? && child.value in f.kids[p] ==>
               child.value in s && IndexOf(s, n) == IndexOf(s, child.value) + if before then -1 else 1)
            && (child.None? || child.value !in f.kids[p] ==> IndexOf(s, n) == if before then 0 else |s| - 1)
  {
    hide Wf, AboveOrSelf, NoDuplicates;
    AddWf(f, p, before, child, n);
    DetachWf(f, n);
    DetachAbove(f, n, n, p);
    var g := Detach(f, n);
    AboveItself(g, p);
    AboveItself(f, p);
    ChildOf(g, p, n);
    Unduplicated(g, p);
    DetachedKids(f, n, p);
    var s, i := g.kids[p], Position(g.kids[p], before, child);
    var r := InsertAt(s, i, n);
    InsertAtFacts(s, i, n);
    assert r[i] == n;
    IndexUnique(r, i);
    if child.Some? && child.value in s {
      var k := IndexOf(s, child.value);
      IndexUnique(r, if k < i then k else k + 1);
    }
  }

  lemma DetachedKids<T>(f: Forest<T>, n: T, p: T)
    requires Wf(f) && n in f.kids && p in f.kids
    ensures Wf(Detach(f, n)) && p in Detach(f, n).kids
    ensures forall c :: c != n ==> (c in Detach(f, n).kids[p] <==> c in f.kids[p])
  {
    DetachWf(f, n);
    if f.up[n].Some? {
      Unduplicated(f, f.up[n].value);
      RemoveAtFacts(f.kids[f.up[n].value], IndexOf(f.kids[f.up[n].value], n));
    }
  }

  // -- Deleting ------------------------------------------------------------------------------------------

  /** A node without parent and children is above itself only. */
  lemma {:induction false} RootAbove<T>(f: Forest<T>, n: T, x: T)
    requires Wf(f) && n in f.kids && x in f.kids && f.kids[n] == [] && x != n
    ensures !AboveOrSelf(f, n, x)
    decreases Higher(f, x)
  {
    if f.up[x].Some? {
      ParentHigher(f, x);
      ChildOf(f, n, x);
      RootAbove(f, n, f.up[x].value);
    }
  }

  /** `n` and everything below it. */
  ghost function Subtree<T>(f: Forest<T>, n: T): (s: set<T>)
    requires Wf(f)
  {
    set x | x in f.kids && AboveOrSelf(f, n, x)
  }

  ghost function Without<T>(f: Forest<T>, gone: set<T>): (g: Forest<T>) {
    Forest(f.kids - gone, f.up - gone, f.height - gone)
  }

  /** The forest after `n` and everything below it are gone. */
  ghost function Prune<T>(f: Forest<T>, n: T): (g: Forest<T>)
    requires Wf(f) && n in f.kids
  {
    DetachWf(f, n);
    Without(Detach(f, n), Subtree(Detach(f, n), n))
  }

  /** Another root stays. */
  lemma RootStays<T>(f: Forest<T>, n: T, root: T)
    requires Wf(f) && n in f.kids && root in f.kids && root != n && f.up[root] == None
    ensures root in Prune(f, n).kids
  {
    hide Wf;
    DetachWf(f, n);
    AboveItself(f, n);
    AboveItself(Detach(f, n), n);
  }

  lemma WithoutWf<T>(f: Forest<T>, n: T)
    requires Wf(f) && n in f.kids && f.up[n] == None
    ensures Wf(Without(f, Subtree(f, n)))
  {
    var g := Without(f, Subtree(f, n));
    forall q, i {:trigger g.kids[q][i]} | q in g.kids && 0 <= i < |g.kids[q]|
      ensures var c := g.kids[q][i]; c in g.kids && g.up[c] == Some(q) && g.height[c] < g.height[q]
    {
      ChildOf(f, q, g.kids[q][i]);
    }
    forall m | m in g.kids && g.up[m].Some?
      ensures g.up[m].value in g.kids && m in g.kids[g.up[m].value]
    {
      ParentHigher(f, m);
    }
  }

  /** Who is above a node depends on the `up` entries of what remains only. */
  lemma {:induction false} SameAbove<T>(f: Forest<T>, g: Forest<T>, a: T, x: T)
    requires Wf(f) && Wf(g) && g.kids.Keys <= f.kids.Keys && x in g.kids
    requires forall y :: y in g.kids ==> g.up[y] == f.up[y]
    ensures AboveOrSelf(g, a, x) <==> AboveOrSelf(f, a, x)
    decreases Higher(g, x)
  {
    if a != x && g.up[x].Some? {
      ParentHigher(g, x);
      SameAbove(f, g, a, g.up[x].value);
    }
  }

  lemma {:induction false} AboveHigher<T>(f: Forest<T>, a: T, x: T)
    requires Wf(f) && x in f.kids && AboveOrSelf(f, a, x)
    ensures a in f.kids && f.height[x] <= f.height[a] && (a != x ==> f.height[x] < f.height[a])
    decreases Higher(f, x)
  {
    if a != x {
      ParentHigher(f, x);
      AboveHigher(f, a, f.up[x].value);
    }
  }

  /** Below a node but not the node itself means below one of its children. */
  lemma {:induction false} BelowChild<T>(f: Forest<T>, n: T, x: T)
    requires Wf(f) && x in f.kids && AboveOrSelf(f, n, x) && x != n
    ensures n in f.kids && f.kids[n] != []
    decreases Higher(f, x)
  {
    ParentHigher(f, x);
    if f.up[x].value != n {
      BelowChild(f, n, f.up[x].value);
    }
  }

  /** Detaching a node does not change what is below it. */
  lemma {:induction false} DetachBelow<T>(f: Forest<T>, n: T, x: T)
    requires Wf(f) && n in f.kids && x in f.kids
    ensures Wf(Detach(f, n)) && x in Detach(f, n).kids
    ensures AboveOrSelf(Detach(f, n), n, x) <==> AboveOrSelf(f, n, x)
    decreases Higher(f, x)
  {
    DetachWf(f, n);
    if x != n && f.up[x].Some? {
      ParentHigher(f, x);
      DetachBelow(f, n, f.up[x].value);
    }
  }

  /** Part of the way through deleting `n`, which has no parent: `freed` is gone, `g` is left, and only
      the children of `n` have changed. */
  ghost predicate Partial<T>(h: Forest<T>, n: T, g: Forest<T>, freed: seq<T>)
    requires Wf(h) && Wf(g)
  {
    && n in g.kids && NoDuplicates(freed)
    && (forall x :: x in freed ==> x in Subtree(h, n) && x != n)
    && g.kids.Keys == h.kids.Keys - (set x | x in freed)
    && (forall x :: x in g.kids ==>
       g.up[x] == h.up[x] && g.height[x] == h.height[x] && (x != n ==> g.kids[x] == h.kids[x]))
  }

  /** What is freed below a child of `n` lies below `n`. */
  lemma BelowStep<T>(h: Forest<T>, n: T, g: Forest<T>, freed: seq<T>, c: T, x: T)
    requires Wf(h) && Wf(g) && Partial(h, n, g, freed) && c in g.kids[n] && x in Subtree(g, c)
    ensures x in Subtree(h, n) && x != n && x in g.kids && x !in freed
  {
    hide Wf, NoDuplicates;
    ChildOf(g, n, c);
    AboveHigher(g, c, x);
    AboveUp(g, c, x, n);
    SameAbove(h, g, n, x);
    var gone := set y | y in freed;
    assert x in freed ==> x in gone;
  }

  /** What remains after pruning at a child `c` of `n`. */
  lemma PruneFacts<T>(g: Forest<T>, n: T, c: T)
    requires Wf(g) && n in g.kids && c in g.kids[n]
    ensures c in g.kids && n !in Subtree(g, c)
    ensures var d := Prune(g, c);
            && d.kids.Keys == d.up.Keys == d.height.Keys == g.kids.Keys - Subtree(g, c)
            && (forall x :: x in d.kids ==>
               d.up[x] == g.up[x] && d.height[x] == g.height[x] && (x != n ==> d.kids[x] == g.kids[x]))
  {
    ChildOf(g, n, c);
    DetachWf(g, c);
    if n in Subtree(g, c) { AboveHigher(g, c, n); }
    forall x | x in g.kids ensures x in Subtree(Detach(g, c), c) <==> x in Subtree(g, c) {
      DetachBelow(g, c, x);
    }
    assert c in Subtree(g, c);
  }

  lemma Disjoint<T>(a: seq<T>, b: seq<T>)
    requires NoDuplicates(a) && NoDuplicates(b) && forall x :: x in b ==> x !in a
    ensures NoDuplicates(a + b)
  {
    var s := a + b;
    forall i, j | 0 <= i < j < |s| ensures s[i] != s[j] {
      if i < |a| <= j {
        assert s[i] in a && s[j] in b;
      }
    }
  }

  lemma PartialDomain<T>(h: Forest<T>, n: T, g: Forest<T>, freed: seq<T>)
    requires Wf(h) && Wf(g) && Partial(h, n, g, freed)
    ensures forall x :: x in g.kids <==> x in h.kids && x !in freed
  {
    var gone := set x | x in freed;
    assert forall x :: x in gone <==> x in freed;
  }

  /** Deleting a remaining child goes one part further. */
  lemma PartialStep<T>(h: Forest<T>, n: T, g: Forest<T>, freed: seq<T>, c: T, more: seq<T>)
    requires Wf(h) && Wf(g) && Partial(h, n, g, freed) && c in g.kids[n] && c in g.kids
    requires NoDuplicates(more) && forall x :: x in more <==> x in Subtree(g, c)
    requires Wf(Prune(g, c))
    ensures Partial(h, n, Prune(g, c), freed + more)
  {
    hide Wf, NoDuplicates, AboveOrSelf, Prune, Subtree;
    PruneFacts(g, n, c);
    PartialDomain(h, n, g, freed);
    var g2, all := Prune(g, c), freed + more;
    forall x | x in more ensures x in Subtree(h, n) && x != n && x in g.kids && x !in freed {
      BelowStep(h, n, g, freed, c, x);
    }
    Disjoint(freed, more);
    var gone := set x | x in all;
    assert forall x :: x in gone <==> x in freed || x in more;
    assert g2.kids.Keys == h.kids.Keys - gone;
  }

  /** When no child is left, everything below `n` has been freed. */
  lemma PartialDone<T>(h: Forest<T>, n: T, g: Forest<T>, freed: seq<T>)
    requires Wf(h) && Wf(g) && n in h.kids && Partial(h, n, g, freed) && g.kids[n] == []
    ensures forall x :: x in freed + [n] <==> x in Subtree(h, n)
    ensures NoDuplicates(freed + [n])
    ensures Without(g, {n}) == Without(h, Subtree(h, n))
  {
    hide Wf;
    PartialDomain(h, n, g, freed);
    forall x | x in Subtree(h, n) ensures x in freed + [n] {
      if x in g.kids && x != n {
        SameAbove(h, g, n, x);
        BelowChild(g, n, x);
      }
    }
    PartialKeys(h, n, g, freed);
  }

  lemma PartialKeys<T>(h: Forest<T>, n: T, g: Forest<T>, freed: seq<T>)
    requires Wf(h) && Wf(g) && n in h.kids && Partial(h, n, g, freed)
    requires forall x :: x in freed + [n] <==> x in Subtree(h, n)
    ensures Without(g, {n}) == Without(h, Subtree(h, n))
  {
    hide Subtree, NoDuplicates, Wf;
    PartialDomain(h, n, g, freed);
    AboveItself(g, n);
    AboveItself(h, n);
    var a, b := Without(g, {n}), Without(h, Subtree(h, n));
    forall x ensures x in a.kids <==> x in b.kids { assert x in freed + [n] <==> x in Subtree(h, n); }
    forall x | x in a.kids ensures a.kids[x] == b.kids[x] && a.up[x] == b.up[x] && a.height[x] == b.height[x] {
    }
    assert a.kids == b.kids && a.up == b.up && a.height == b.height;
  }
}
