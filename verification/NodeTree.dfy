/** The doubly linked node tree of mxml-node.c: `mxml_new`, `mxmlAdd`, `mxmlRemove` and `mxmlDelete`
    on nodes that point at each other, proved against the forests they stand for. */
module NodeTree {
  import opened CStrings
  import opened XmlTree
  import opened F = Forest

  /** The value part of a node: the union in `mxml_node_t`. */
  datatype Payload =
    | ElementValue(name: string, attrs: seq<Attr>)
    | OpaqueValue(data: string)
    | TextValue(whitespace: bool, data: string)

  class Node {
    var value: Payload
    var next: Node?
    var prev: Node?
    var parent: Node?
    var child: Node?
    var lastChild: Node?
    var refCount: int

    constructor (value: Payload)
      ensures this.value == value && refCount == 1
      ensures next == null && prev == null && parent == null && child == null && lastChild == null
    {
      this.value, refCount := value, 1;
      next, prev, parent, child, lastChild := null, null, null, null, null;
    }
  }

  type Shape = Forest<Node>

  function Ptr(o: Option<Node>): (p: Node?) {
    if o.Some? then o.value else null
  }

  function Opt(n: Node?): (o: Option<Node>) {
    if n == null then None else Some(n)
  }

  function AtOrNull(s: seq<Node>, i: int): (r: Node?) {
    if 0 <= i < |s| then s[i] else null
  }

  /** The five pointers of a node. */
  datatype Pointers = Pointers(next: Node?, prev: Node?, parent: Node?, child: Node?, lastChild: Node?)

  ghost function PointersOf(n: Node): (ps: Pointers)
    reads n`next, n`prev, n`parent, n`child, n`lastChild
  {
    Pointers(n.next, n.prev, n.parent, n.child, n.lastChild)
  }

  /** The pointers that `n` must have in `f`. */
  ghost function Right(n: Node, f: Shape): (ps: Pointers)
    requires Wf(f) && n in f.kids
  {
    var first, last := AtOrNull(f.kids[n], 0), AtOrNull(f.kids[n], |f.kids[n]| - 1);
    if f.up[n].None? then Pointers(null, null, null, first, last)
    else
      var s := f.kids[f.up[n].value];
      var i := IndexOf(s, n);
      Pointers(AtOrNull(s, i + 1), AtOrNull(s, i - 1), f.up[n].value, first, last)
  }

  ghost predicate Linked(n: Node, f: Shape)
    requires Wf(f) && n in f.kids
    reads n`next, n`prev, n`parent, n`child, n`lastChild
  {
    PointersOf(n) == Right(n, f)
  }

  ghost predicate Links(f: Shape)
    requires Wf(f)
    reads f.kids.Keys`next, f.kids.Keys`prev, f.kids.Keys`parent, f.kids.Keys`child, f.kids.Keys`lastChild
  {
    forall n :: n in f.kids ==> Linked(n, f)
  }

  lemma Domains(f: Shape)
    requires Wf(f)
    ensures f.kids.Keys == f.up.Keys == f.height.Keys
  {
  }

  lemma Siblings(f: Shape, n: Node)
    requires Wf(f) && n in f.kids && f.up[n].Some?
    ensures var p := f.up[n].value; p in f.kids && n in f.kids[p] && p != n
    ensures forall c :: c in f.kids[f.up[n].value] ==> c in f.kids && f.up[c] == f.up[n] && c != f.up[n].value
  {
    var p := f.up[n].value;
    forall c | c in f.kids[p] ensures c in f.kids && f.up[c] == Some(p) && c != p {
      ChildOf(f, p, c);
    }
    ChildOf(f, p, n);
  }

  lemma IndexAfterRemove(s: seq<Node>, i: nat, m: Node)
    requires NoDuplicates(s) && i < |s| && m in s && m != s[i]
    ensures var r := RemoveAt(s, i);
            m in r && IndexOf(r, m) == if IndexOf(s, m) < i then IndexOf(s, m) else IndexOf(s, m) - 1
  {
    RemoveAtFacts(s, i);
    var r := RemoveAt(s, i);
    var k := IndexOf(s, m);
    IndexUnique(r, if k < i then k else k - 1);
  }

  /** What the assignments of `mxmlRemove` make of the pointers `o` of a node `n`, when the removed
      node had the pointers `d`. */
  ghost function Unlinked(node: Node, d: Pointers, n: Node, o: Pointers): (ps: Pointers) {
    if n == node then o.(next := null, prev := null, parent := null)
    else Pointers(if n == d.prev then d.next else o.next,
                  if n == d.next then d.prev else o.prev,
                  o.parent,
                  if d.prev == null && n == d.parent then d.next else o.child,
                  if d.next == null && n == d.parent then d.prev else o.lastChild)
  }

  /** One entry after a removal. */
  lemma EntryAfterRemove(s: seq<Node>, i: nat, k: int)
    requires i < |s|
    ensures AtOrNull(RemoveAt(s, i), k) == if k < i then AtOrNull(s, k) else AtOrNull(s, k + 1)
  {
  }

  /** Removing entry `i` moves the neighbours of every other entry like this. */
  lemma NeighboursAfterRemove(s: seq<Node>, i: nat, m: Node)
    requires NoDuplicates(s) && i < |s| && m in s && m != s[i]
    ensures var r := RemoveAt(s, i);
            var k := IndexOf(s, m);
            && m in r
            && AtOrNull(r, IndexOf(r, m) + 1) ==
               (if m == AtOrNull(s, i - 1) then AtOrNull(s, i + 1) else AtOrNull(s, k + 1))
            && AtOrNull(r, IndexOf(r, m) - 1) ==
               (if m == AtOrNull(s, i + 1) then AtOrNull(s, i - 1) else AtOrNull(s, k - 1))
  {
    hide RemoveAt, NoDuplicates, IndexOf;
    IndexAfterRemove(s, i, m);
    var j: int := IndexOf(RemoveAt(s, i), m);
    EntryAfterRemove(s, i, j + 1);
    EntryAfterRemove(s, i, j - 1);
    if i > 0 && m == s[i - 1] { IndexUnique(s, i - 1); }
    if i < |s| - 1 && m == s[i + 1] { IndexUnique(s, i + 1); }
  }

  lemma EndsAfterRemove(s: seq<Node>, i: nat)
    requires NoDuplicates(s) && i < |s|
    ensures var r := RemoveAt(s, i);
            && AtOrNull(r, 0) == (if i == 0 then AtOrNull(s, 1) else AtOrNull(s, 0))
            && AtOrNull(r, |r| - 1) == (if i == |s| - 1 then AtOrNull(s, i - 1) else AtOrNull(s, |s| - 1))
  {
  }

  lemma ListedOnce(f: Shape, p: Node)
    requires Wf(f) && p in f.kids
    ensures NoDuplicates(f.kids[p])
  {
  }

  /** What right pointers mean: `child` and `next` list the children of `p` in order, `lastChild` and `prev`
      list them backwards, and each of them names `p` as its parent. */
  lemma ListedBothWays(f: Shape, p: Node)
    requires Wf(f) && Links(f) && p in f.kids
    ensures p.child == AtOrNull(f.kids[p], 0) && p.lastChild == AtOrNull(f.kids[p], |f.kids[p]| - 1)
    ensures forall i :: 0 <= i < |f.kids[p]| ==>
              var c := f.kids[p][i];
              c.parent == p && c.next == AtOrNull(f.kids[p], i + 1) && c.prev == AtOrNull(f.kids[p], i - 1)
    ensures f.up[p] == None ==> p.parent == null && p.next == null && p.prev == null
  {
    hide Wf, NoDuplicates;
    Domains(f);
    assert Linked(p, f);
    ListedOnce(f, p);
    forall i | 0 <= i < |f.kids[p]|
      ensures var c := f.kids[p][i];
              c.parent == p && c.next == AtOrNull(f.kids[p], i + 1) && c.prev == AtOrNull(f.kids[p], i - 1)
    {
      ChildOf(f, p, f.kids[p][i]);
      assert Linked(f.kids[p][i], f);
      IndexUnique(f.kids[p], i);
    }
  }

  /** The removed node's own pointers, in terms of its place among the children of its parent. */
  lemma OwnPointers(f: Shape, node: Node)
    requires Wf(f) && node in f.kids && f.up[node].Some?
    ensures var d := Right(node, f);
            var s := f.kids[f.up[node].value];
            var i := IndexOf(s, node);
            && d.parent == f.up[node].value
            && d.prev == AtOrNull(s, i - 1) && d.next == AtOrNull(s, i + 1)
            && (d.prev == null <==> i == 0) && (d.next == null <==> i == |s| - 1)
  {
  }

  lemma UnlinkedParent(f: Shape, node: Node)
    requires Wf(f) && node in f.kids && f.up[node].Some?
    ensures var n := f.up[node].value;
            && Wf(Detach(f, node)) && n in f.kids && n in Detach(f, node).kids
            && Unlinked(node, Right(node, f), n, Right(n, f)) == Right(n, Detach(f, node))
  {
    hide Wf, RemoveAt, NoDuplicates, AtOrNull;
    Domains(f);
    DetachWf(f, node);
    Siblings(f, node);
    OwnPointers(f, node);
    Neighbours(f, node);
    var p := f.up[node].value;
    ListedOnce(f, p);
    EndsAfterRemove(f.kids[p], IndexOf(f.kids[p], node));
    AtIn(f.kids[p], IndexOf(f.kids[p], node) - 1);
    AtIn(f.kids[p], IndexOf(f.kids[p], node) + 1);
    if f.up[p].Some? { Siblings(f, p); }
  }

  lemma AtIn(s: seq<Node>, i: int)
    ensures AtOrNull(s, i) == null || (0 <= i < |s| && AtOrNull(s, i) == s[i] && s[i] in s)
  {
  }

  lemma UnlinkedSibling(f: Shape, node: Node, n: Node)
    requires Wf(f) && node in f.kids && n in f.kids && f.up[node].Some? && f.up[n] == f.up[node] && n != node
    ensures Wf(Detach(f, node)) && n in Detach(f, node).kids
    ensures Unlinked(node, Right(node, f), n, Right(n, f)) == Right(n, Detach(f, node))
  {
    hide Wf, RemoveAt, NoDuplicates, AtOrNull;
    Domains(f);
    DetachWf(f, node);
    Siblings(f, node);
    Siblings(f, n);
    OwnPointers(f, node);
    ListedOnce(f, f.up[node].value);
    NeighboursAfterRemove(f.kids[f.up[node].value], IndexOf(f.kids[f.up[node].value], node), n);
  }

  /** Every other node keeps its pointers. */
  lemma UnlinkedOther(f: Shape, node: Node, n: Node)
    requires Wf(f) && node in f.kids && n in f.kids && f.up[node].Some?
    requires n == node || (f.up[n] != f.up[node] && n != f.up[node].value)
    ensures Wf(Detach(f, node)) && n in Detach(f, node).kids
    ensures Unlinked(node, Right(node, f), n, Right(n, f)) == Right(n, Detach(f, node))
  {
    hide Wf, RemoveAt, NoDuplicates, AtOrNull;
    Domains(f);
    DetachWf(f, node);
    Siblings(f, node);
    OwnPointers(f, node);
    Neighbours(f, node);
    var s := f.kids[f.up[node].value];
    AtIn(s, IndexOf(s, node) - 1);
    AtIn(s, IndexOf(s, node) + 1);
    if n != node && f.up[n].Some? { Siblings(f, n); }
  }

  lemma UnlinkedRight(f: Shape, node: Node, n: Node)
    requires Wf(f) && node in f.kids && n in f.kids && f.up[node].Some?
    ensures Wf(Detach(f, node)) && n in Detach(f, node).kids
    ensures Unlinked(node, Right(node, f), n, Right(n, f)) == Right(n, Detach(f, node))
  {
    hide Wf, Unlinked, Right, Detach;
    Domains(f);
    if n == f.up[node].value {
      UnlinkedParent(f, node);
    } else if n != node && f.up[n] == f.up[node] {
      UnlinkedSibling(f, node, n);
    } else {
      UnlinkedOther(f, node, n);
    }
  }

  /** The pointer assignments of `mxmlRemove`. */
  method Unlink(node: Node, ghost space: set<Node>)
    requires node in space && node.parent != null && node.parent in space
    requires node.prev == null || node.prev in space
    requires node.next == null || node.next in space
    requires node.parent != node && node.prev != node && node.next != node
    modifies space`next, space`prev, space`parent, space`child, space`lastChild
    ensures forall n :: n in space ==> PointersOf(n) == Unlinked(node, old(PointersOf(node)), n, old(PointersOf(n)))
  {
    if node.prev != null {
      node.prev.next := node.next;
    } else {
      node.parent.child := node.next;
    }
    if node.next != null {
      node.next.prev := node.prev;
    } else {
      node.parent.lastChild := node.prev;
    }
    node.parent := null;
    node.prev := null;
    node.next := null;
  }

  /** `mxmlRemove`. */
  method Remove(node: Node, ghost f: Shape) returns (ghost g: Shape)
    requires Wf(f) && Links(f) && node in f.kids
    modifies f.kids.Keys`next, f.kids.Keys`prev, f.kids.Keys`parent, f.kids.Keys`child, f.kids.Keys`lastChild
    ensures g == Detach(f, node) && Wf(g) && g.kids.Keys == f.kids.Keys && Links(g)
  {
    hide Wf, NoDuplicates, RemoveAt, Unlinked;
    Domains(f);
    g := Detach(f, node);
    DetachWf(f, node);
    assert Linked(node, f);
    if node.parent == null {
      return;
    }
    Neighbours(f, node);
    Unlink(node, f.kids.Keys);
    forall n | n in g.kids ensures Linked(n, g) {
      assert old(Linked(n, f));
      UnlinkedRight(f, node, n);
    }
  }

  lemma Neighbours(f: Shape, node: Node)
    requires Wf(f) && node in f.kids && f.up[node].Some?
    ensures var s := f.kids[f.up[node].value];
            var i := IndexOf(s, node);
            && (i > 0 ==> s[i - 1] != node && s[i - 1] != f.up[node].value)
            && (i < |s| - 1 ==> s[i + 1] != node && s[i + 1] != f.up[node].value)
            && (0 < i < |s| - 1 ==> s[i - 1] != s[i + 1])
            && (forall k :: 0 <= k < |s| ==> s[k] in f.kids) && f.up[node].value in f.kids && f.up[node].value != node
  {
    Siblings(f, node);
  }

  // -- Adding --------------------------------------------------------------------------------------------

  /** What the insertion of `node` under `p`, between `a` and `b`, makes of the pointers `o` of `n`. */
  ghost function Inserted(node: Node, p: Node, a: Node?, b: Node?, n: Node, o: Pointers): (ps: Pointers) {
    if n == node then o.(next := b, prev := a, parent := p)
    else Pointers(if n == a then node else o.next,
                  if n == b then node else o.prev,
                  o.parent,
                  if a == null && n == p then node else o.child,
                  if b == null && n == p then node else o.lastChild)
  }

  method LinkFirst(p: Node, node: Node, ghost space: set<Node>)
    requires p in space && node in space && p != node && (p.child == null || (p.child in space && p.child != node))
    requires node.prev == null && (p.child == null <==> p.lastChild == null)
    modifies space`next, space`prev, space`parent, space`child, space`lastChild
    ensures forall n :: n in space ==> PointersOf(n) == Inserted(node, p, null, old(p.child), n, old(PointersOf(n)))
  {
    node.parent := p;
    node.next := p.child;
    if p.child != null {
      p.child.prev := node;
    } else {
      p.lastChild := node;
    }
    p.child := node;
  }

  method LinkBefore(p: Node, child: Node, node: Node, ghost space: set<Node>)
    requires p in space && node in space && p != node && child in space && child != node
    requires child.prev == null || (child.prev in space && child.prev != node)
    modifies space`next, space`prev, space`parent, space`child, space`lastChild
    ensures forall n :: n in space ==> PointersOf(n) == Inserted(node, p, old(child.prev), child, n, old(PointersOf(n)))
  {
    node.parent := p;
    node.next := child;
    node.prev := child.prev;
    if child.prev != null {
      child.prev.next := node;
    } else {
      p.child := node;
    }
    child.prev := node;
  }

  method LinkLast(p: Node, node: Node, ghost space: set<Node>)
    requires p in space && node in space && p != node
    requires p.lastChild == null || (p.lastChild in space && p.lastChild != node)
    requires node.next == null && (p.child == null <==> p.lastChild == null)
    modifies space`next, space`prev, space`parent, space`child, space`lastChild
    ensures forall n :: n in space ==> PointersOf(n) == Inserted(node, p, old(p.lastChild), null, n, old(PointersOf(n)))
  {
    node.parent := p;
    node.prev := p.lastChild;
    if p.lastChild != null {
      p.lastChild.next := node;
    } else {
      p.child := node;
    }
    p.lastChild := node;
  }

  method LinkAfter(p: Node, child: Node, node: Node, ghost space: set<Node>)
    requires p in space && node in space && p != node && child in space && child != node
    requires child.next == null || (child.next in space && child.next != node)
    modifies space`next, space`prev, space`parent, space`child, space`lastChild
    ensures forall n :: n in space ==> PointersOf(n) == Inserted(node, p, child, old(child.next), n, old(PointersOf(n)))
  {
    node.parent := p;
    node.prev := child;
    node.next := child.next;
    if child.next != null {
      child.next.prev := node;
    } else {
      p.lastChild := node;
    }
    child.next := node;
  }

  /** One entry after an insertion. */
  lemma EntryAfterInsert(s: seq<Node>, i: nat, x: Node, k: int)
    requires i <= |s|
    ensures AtOrNull(InsertAt(s, i, x), k) == if k < i then AtOrNull(s, k) else if k == i then x else AtOrNull(s, k - 1)
  {
  }

  lemma IndexAfterInsert(s: seq<Node>, i: nat, x: Node, m: Node)
    requires NoDuplicates(s) && i <= |s| && x !in s && m in s
    ensures var r, k := InsertAt(s, i, x), IndexOf(s, m);
            m in r && IndexOf(r, m) == if k < i then k else k + 1
  {
    hide NoDuplicates, IndexOf;
    InsertAtFacts(s, i, x);
    var k := IndexOf(s, m);
    var j := if k < i then k else k + 1;
    assert InsertAt(s, i, x)[j] == m;
    IndexUnique(InsertAt(s, i, x), j);
  }

  lemma NeighboursAfterInsert(s: seq<Node>, i: nat, x: Node, m: Node)
    requires NoDuplicates(s) && i <= |s| && x !in s && m in s
    ensures var r := InsertAt(s, i, x);
            var k := IndexOf(s, m);
            && m in r
            && AtOrNull(r, IndexOf(r, m) + 1) == (if m == AtOrNull(s, i - 1) then x else AtOrNull(s, k + 1))
            && AtOrNull(r, IndexOf(r, m) - 1) == (if m == AtOrNull(s, i) then x else AtOrNull(s, k - 1))
  {
    hide InsertAt, NoDuplicates, IndexOf;
    IndexAfterInsert(s, i, x, m);
    var j: int := IndexOf(InsertAt(s, i, x), m);
    EntryAfterInsert(s, i, x, j + 1);
    EntryAfterInsert(s, i, x, j - 1);
    if i > 0 && m == s[i - 1] { IndexUnique(s, i - 1); }
    if i < |s| && m == s[i] { IndexUnique(s, i); }
  }

  lemma NewNeighbours(s: seq<Node>, i: nat, x: Node)
    requires NoDuplicates(s) && i <= |s| && x !in s
    ensures var r := InsertAt(s, i, x);
            && x in r && AtOrNull(r, IndexOf(r, x) + 1) == AtOrNull(s, i)
               && AtOrNull(r, IndexOf(r, x) - 1) == AtOrNull(s, i - 1)
            && AtOrNull(r, 0) == (if i == 0 then x else AtOrNull(s, 0))
            && AtOrNull(r, |r| - 1) == (if i == |s| then x else AtOrNull(s, |s| - 1))
  {
    InsertAtFacts(s, i, x);
    var r := InsertAt(s, i, x);
    assert r[i] == x;
    IndexUnique(r, i);
  }

  /** `node`, which has no parent, can become child number `i` of `p`. */
  ghost predicate CanAttach(f: Shape, p: Node, i: nat, node: Node)
    requires Wf(f)
  {
    p in f.kids && node in f.kids && i <= |f.kids[p]| && f.up[node] == None && !AboveOrSelf(f, node, p)
  }

  lemma AttachFacts(f: Shape, p: Node, i: nat, node: Node)
    requires Wf(f) && CanAttach(f, p, i, node)
    ensures Wf(Attach(f, p, i, node)) && Attach(f, p, i, node).kids.Keys == f.kids.Keys
    ensures node != p && node !in f.kids[p] && NoDuplicates(f.kids[p])
    ensures AtOrNull(f.kids[p], i - 1) != node && AtOrNull(f.kids[p], i) != node
    ensures AtOrNull(f.kids[p], i - 1) != p && AtOrNull(f.kids[p], i) != p
    ensures AtOrNull(f.kids[p], i - 1) == null <==> i == 0
    ensures AtOrNull(f.kids[p], i) == null <==> i == |f.kids[p]|
  {
    hide InsertAt;
    AttachWf(f, p, i, node);
    ChildOf(f, p, node);
    ChildOf(f, p, p);
  }

  lemma InsertedNew(f: Shape, p: Node, i: nat, node: Node)
    requires Wf(f) && CanAttach(f, p, i, node)
    ensures Wf(Attach(f, p, i, node)) && node in Attach(f, p, i, node).kids
    ensures Inserted(node, p, AtOrNull(f.kids[p], i - 1), AtOrNull(f.kids[p], i), node, Right(node, f)) ==
            Right(node, Attach(f, p, i, node))
  {
    hide Wf, InsertAt, NoDuplicates, AboveOrSelf, AtOrNull;
    AttachFacts(f, p, i, node);
    NewNeighbours(f.kids[p], i, node);
  }

  lemma InsertedParent(f: Shape, p: Node, i: nat, node: Node)
    requires Wf(f) && CanAttach(f, p, i, node)
    ensures Wf(Attach(f, p, i, node)) && p in Attach(f, p, i, node).kids
    ensures Inserted(node, p, AtOrNull(f.kids[p], i - 1), AtOrNull(f.kids[p], i), p, Right(p, f)) ==
            Right(p, Attach(f, p, i, node))
  {
    hide Wf, InsertAt, NoDuplicates, AboveOrSelf, AtOrNull;
    Domains(f);
    AttachFacts(f, p, i, node);
    NewNeighbours(f.kids[p], i, node);
    if f.up[p].Some? { Siblings(f, p); }
  }

  lemma InsertedSibling(f: Shape, p: Node, i: nat, node: Node, n: Node)
    requires Wf(f) && CanAttach(f, p, i, node) && n in f.kids && f.up[n] == Some(p)
    ensures Wf(Attach(f, p, i, node)) && n in Attach(f, p, i, node).kids
    ensures Inserted(node, p, AtOrNull(f.kids[p], i - 1), AtOrNull(f.kids[p], i), n, Right(n, f)) ==
            Right(n, Attach(f, p, i, node))
  {
    hide Wf, InsertAt, NoDuplicates, AboveOrSelf, AtOrNull;
    Domains(f);
    AttachFacts(f, p, i, node);
    Siblings(f, n);
    NeighboursAfterInsert(f.kids[p], i, node, n);
  }

  lemma InsertedOther(f: Shape, p: Node, i: nat, node: Node, n: Node)
    requires Wf(f) && CanAttach(f, p, i, node) && n in f.kids && f.up[n] != Some(p) && n != p && n != node
    ensures Wf(Attach(f, p, i, node)) && n in Attach(f, p, i, node).kids
    ensures Inserted(node, p, AtOrNull(f.kids[p], i - 1), AtOrNull(f.kids[p], i), n, Right(n, f)) ==
            Right(n, Attach(f, p, i, node))
  {
    hide Wf, InsertAt, NoDuplicates, AboveOrSelf, AtOrNull;
    Domains(f);
    AttachFacts(f, p, i, node);
    AtIn(f.kids[p], i - 1);
    AtIn(f.kids[p], i);
    ChildOf(f, p, n);
    if f.up[n].Some? { Siblings(f, n); }
  }

  /** Right pointers before, with the assignments made: right pointers after. */
  lemma InsertedRight(f: Shape, p: Node, i: nat, node: Node, n: Node)
    requires Wf(f) && CanAttach(f, p, i, node) && n in f.kids
    ensures Wf(Attach(f, p, i, node)) && n in Attach(f, p, i, node).kids
    ensures Inserted(node, p, AtOrNull(f.kids[p], i - 1), AtOrNull(f.kids[p], i), n, Right(n, f)) ==
            Right(n, Attach(f, p, i, node))
  {
    hide Wf, AtOrNull, Inserted, Right, Attach;
    Domains(f);
    if n == node {
      InsertedNew(f, p, i, node);
    } else if n == p {
      InsertedParent(f, p, i, node);
    } else if f.up[n] == Some(p) {
      InsertedSibling(f, p, i, node, n);
    } else {
      InsertedOther(f, p, i, node, n);
    }
  }

  /** The gap in the pointers that belongs to a position among the children. */
  lemma GapPointers(f: Shape, p: Node, before: bool, child: Option<Node>)
    requires Wf(f) && p in f.kids && (child.Some? ==> child.value in f.kids)
    ensures var s := f.kids[p];
            var i := Position(s, before, child);
            && (child.Some? && f.up[child.value] == Some(p) ==>
                  && AtOrNull(s, i - 1) == (if before then Right(child.value, f).prev else child.value)
                  && AtOrNull(s, i) == (if before then child.value else Right(child.value, f).next))
            && (child.None? || f.up[child.value] != Some(p) ==> i == if before then 0 else |s|)
            && (child.Some? && f.up[child.value] == Some(p) && before && child.value == AtOrNull(s, 0) ==> i == 0)
            && (child.Some? && f.up[child.value] == Some(p) && !before && child.value == AtOrNull(s, |s| - 1) ==>
               i == |s|)
            && (AtOrNull(s, 0) == null <==> AtOrNull(s, |s| - 1) == null)
  {
    var s := f.kids[p];
    if child.Some? {
      ChildOf(f, p, child.value);
      if child.value in s {
        ListedOnce(f, p);
        if |s| > 0 {
          IndexUnique(s, 0);
          IndexUnique(s, |s| - 1);
        }
      }
    }
  }

  /** The pointers read by the four ways of linking in. */
  lemma GapNodes(h: Shape, p: Node, before: bool, child: Node?, node: Node)
    requires Wf(h) && Links(h) && p in h.kids && (child != null ==> child in h.kids && child != node)
    requires CanAttach(h, p, Position(h.kids[p], before, Opt(child)), node)
    ensures p != node && p in h.kids && node.prev == null && node.next == null
    ensures p.child == null <==> p.lastChild == null
    ensures p.child == null || (p.child in h.kids && p.child != node)
    ensures p.lastChild == null || (p.lastChild in h.kids && p.lastChild != node)
    ensures child != null && child.parent == p ==>
      (child.prev == null || (child.prev in h.kids && child.prev != node))
      && (child.next == null || (child.next in h.kids && child.next != node))
    ensures var s := h.kids[p];
            var i := Position(s, before, Opt(child));
            && AtOrNull(s, i - 1) == (if child != null && child.parent == p then (if before then child.prev else child)
                                      else if before then null else p.lastChild)
            && AtOrNull(s, i) == (if child != null && child.parent == p then (if before then child else child.next)
                                  else if before then p.child else null)
    ensures child != null && child.parent == p && before && child == p.child ==> child.prev == null
    ensures child != null && child.parent == p && !before && child == p.lastChild ==> child.next == null
  {
    hide Wf, NoDuplicates, AboveOrSelf, Position;
    Domains(h);
    var where := Opt(child);
    var s := h.kids[p];
    AttachFacts(h, p, Position(s, before, where), node);
    GapPointers(h, p, before, where);
    KidsInside(h, p);
    assert Linked(p, h) && Linked(node, h);
    if child != null {
      assert Linked(child, h);
      assert child.parent == p <==> h.up[child] == Some(p);
      if h.up[child].Some? {
        Siblings(h, child);
        KidsInside(h, h.up[child].value);
      }
    }
  }

  /** The switch of `mxmlAdd`: `node` goes into the gap between `a` and `b`. */
  method Insert(p: Node, before: bool, child: Node?, node: Node, ghost a: Node?, ghost b: Node?, ghost space: set<Node>)
    requires p in space && node in space && p != node && node.prev == null && node.next == null
    requires child != null ==> child in space && child != node
    requires p.child == null <==> p.lastChild == null
    requires p.child == null || (p.child in space && p.child != node)
    requires p.lastChild == null || (p.lastChild in space && p.lastChild != node)
    requires child != null && child.parent == p ==>
      (child.prev == null || (child.prev in space && child.prev != node))
      && (child.next == null || (child.next in space && child.next != node))
    requires a == if child != null && child.parent == p then (if before then child.prev else child)
                  else if before then null else p.lastChild
    requires b == if child != null && child.parent == p then (if before then child else child.next)
                  else if before then p.child else null
    requires child != null && child.parent == p && before && child == p.child ==> child.prev == null
    requires child != null && child.parent == p && !before && child == p.lastChild ==> child.next == null
    modifies space`next, space`prev, space`parent, space`child, space`lastChild
    ensures forall n :: n in space ==> PointersOf(n) == Inserted(node, p, a, b, n, old(PointersOf(n)))
  {
    hide Inserted;
    if before {
      if child == null || child == p.child || child.parent != p {
        LinkFirst(p, node, space);
      } else {
        LinkBefore(p, child, node, space);
      }
    } else {
      if child == null || child == p.lastChild || child.parent != p {
        LinkLast(p, node, space);
      } else {
        LinkAfter(p, child, node, space);
      }
    }
  }

  method LinkIn(p: Node, before: bool, child: Node?, node: Node, ghost h: Shape) returns (ghost g: Shape)
    requires Wf(h) && Links(h) && p in h.kids && (child != null ==> child in h.kids) && child != node
    requires CanAttach(h, p, Position(h.kids[p], before, Opt(child)), node)
    modifies h.kids.Keys`next, h.kids.Keys`prev, h.kids.Keys`parent, h.kids.Keys`child, h.kids.Keys`lastChild
    ensures g == Attach(h, p, Position(h.kids[p], before, Opt(child)), node)
    ensures Wf(g) && g.kids.Keys == h.kids.Keys && Links(g)
  {
    hide Wf, NoDuplicates, Inserted, AtOrNull, Position, AboveOrSelf, Attach, Right;
    ghost var i: int := Position(h.kids[p], before, Opt(child));
    g := Attach(h, p, i, node);
    AttachFacts(h, p, i, node);
    GapNodes(h, p, before, child, node);
    Insert(p, before, child, node, AtOrNull(h.kids[p], i - 1), AtOrNull(h.kids[p], i), h.kids.Keys);
    forall n | n in g.kids ensures Linked(n, g) {
      assert old(Linked(n, h));
      InsertedRight(h, p, i, node, n);
    }
  }

  /** `mxmlAdd` with `where` MXML_ADD_BEFORE or MXML_ADD_AFTER: whatever tree `node` was in, it ends
      up where `Add` puts it, and nothing else moves. */
  method AddNode(p: Node, before: bool, child: Node?, node: Node, ghost f: Shape) returns (ghost g: Shape)
    requires Wf(f) && Links(f) && p in f.kids && node in f.kids && (child != null ==> child in f.kids)
    requires child != node && !AboveOrSelf(f, node, p)
    modifies f.kids.Keys`next, f.kids.Keys`prev, f.kids.Keys`parent, f.kids.Keys`child, f.kids.Keys`lastChild
    ensures g == Add(f, p, before, Opt(child), node)
    ensures Wf(g) && g.kids.Keys == f.kids.Keys && Links(g)
  {
    hide Wf, Links, NoDuplicates, Position, AboveOrSelf, Attach, Detach, Right;
    DetachAbove(f, node, node, p);
    DetachWf(f, node);
    ghost var h := Detach(f, node);
    if node.parent != null {
      ghost var h' := Remove(node, f);
    } else {
      ParentlessDetach(f, node);
    }
    g := LinkIn(p, before, child, node, h);
  }

  lemma ParentlessDetach(f: Shape, n: Node)
    requires Wf(f) && Links(f) && n in f.kids && n.parent == null
    ensures Detach(f, n) == f
  {
    hide Wf;
    Domains(f);
    assert Linked(n, f);
  }

  lemma KidsInside(f: Shape, p: Node)
    requires Wf(f) && p in f.kids
    ensures forall c :: c in f.kids[p] ==> c in f.kids && c != p
  {
    forall c | c in f.kids[p] ensures c in f.kids && c != p {
      ChildOf(f, p, c);
    }
  }

  /** `mxml_new`: a new node, appended to `p` unless that is null. */
  method New(p: Node?, value: Payload, ghost f: Shape) returns (node: Node, ghost g: Shape)
    requires Wf(f) && Links(f) && (p != null ==> p in f.kids)
    modifies f.kids.Keys`next, f.kids.Keys`prev, f.kids.Keys`parent, f.kids.Keys`child, f.kids.Keys`lastChild
    ensures fresh(node) && node !in f.kids && node.value == value && node.refCount == 1
    ensures g == NewChild(f, Opt(p), node)
    ensures Wf(g) && g.kids.Keys == f.kids.Keys + {node} && Links(g)
  {
    hide Wf, Add, Links, AddRoot;
    node := new Node(value);
    g := AddRoot(f, node);
    AddRootWf(f, node);
    AddRootLinks(f, node);
    if p != null {
      AloneInForest(f, node, p);
      g := AddNode(p, false, null, node, g);
    }
  }

  lemma AddRootRight(f: Shape, node: Node, n: Node)
    requires Wf(f) && node !in f.kids && n in f.kids
    ensures Wf(AddRoot(f, node)) && Right(n, AddRoot(f, node)) == Right(n, f)
  {
    hide Wf, AtOrNull;
    Domains(f);
    AddRootWf(f, node);
    if f.up[n].Some? { Siblings(f, n); }
  }

  lemma AddRootLinks(f: Shape, node: Node)
    requires Wf(f) && Links(f) && node !in f.kids && PointersOf(node) == Pointers(null, null, null, null, null)
    ensures Wf(AddRoot(f, node)) && Links(AddRoot(f, node)) && AddRoot(f, node).kids.Keys == f.kids.Keys + {node}
  {
    hide Wf, Right;
    AddRootWf(f, node);
    Domains(f);
    var g := AddRoot(f, node);
    assert PointersOf(node) == Right(node, g) by { NewRight(f, node); }
    forall n | n in f.kids ensures Linked(n, g) {
      assert Linked(n, f);
      AddRootRight(f, node, n);
    }
  }

  lemma NewRight(f: Shape, node: Node)
    requires Wf(f) && node !in f.kids
    ensures Wf(AddRoot(f, node)) && Right(node, AddRoot(f, node)) == Pointers(null, null, null, null, null)
  {
    AddRootWf(f, node);
  }

  lemma AloneInForest(f: Shape, node: Node, p: Node)
    requires Wf(f) && node !in f.kids && p in f.kids
    ensures Wf(AddRoot(f, node)) && !AboveOrSelf(AddRoot(f, node), node, p)
  {
    AddRootWf(f, node);
    RootAbove(AddRoot(f, node), node, p);
  }

  // -- Deleting ------------------------------------------------------------------------------------------

  /** Once `n` is gone too, everybody else keeps the right pointers. */
  lemma WithoutRight(g: Shape, gone: Node, n: Node)
    requires Wf(g) && gone in g.kids && g.up[gone] == None && g.kids[gone] == [] && Wf(Without(g, {gone}))
    requires n in g.kids && n != gone
    ensures n in Without(g, {gone}).kids && Right(n, Without(g, {gone})) == Right(n, g)
  {
    hide Wf;
    Domains(g);
    if g.up[n].Some? {
      Siblings(g, n);
    }
  }

  /** `mxmlDelete`: frees `node` and everything below it, each node exactly once and nothing else, and
      takes `node` out of its parent's children.  Every recursive call unlinks the head of the list
      the loop runs over. */
  method Delete(node: Node, ghost f: Shape) returns (ghost g: Shape, freed: seq<Node>)
    requires Wf(f) && Links(f) && node in f.kids
    modifies f.kids.Keys`next, f.kids.Keys`prev, f.kids.Keys`parent, f.kids.Keys`child, f.kids.Keys`lastChild
    ensures g == Prune(f, node) && Wf(g) && Links(g)
    ensures NoDuplicates(freed) && forall x :: x in freed <==> x in Subtree(f, node)
    decreases f.height[node]
  {
    hide Wf, NoDuplicates, AboveOrSelf, Right, Partial, Prune, Without, Detach;
    Domains(f);
    g := Remove(node, f);
    ghost var h := g;
    DetachWf(f, node);
    Domains(h);
    freed := [];
    PartialStart(h, node);
    ghost var left := g.kids[node];
    while node.child != null
      invariant Wf(g) && Links(g) && node in g.kids && g.kids.Keys <= f.kids.Keys
      invariant Partial(h, node, g, freed)
      invariant left == g.kids[node]
      decreases |left|
    {
      ghost var c := FirstChild(g, node);
      SmallerChild(h, node, g, freed, c);
      ghost var before := g;
      var more;
      g, more := Delete(node.child, g);
      PartialStep(h, node, before, freed, c, more);
      FewerChildren(before, node, c);
      freed := freed + more;
      left := g.kids[node];
    }
    NoChildren(g, node);
    PartialDone(h, node, g, freed);
    DeleteResult(f, node);
    NodeGone(h, node, g, freed);
    ghost var rest := g;
    g := Without(g, {node});
    forall n | n in g.kids ensures Linked(n, g) {
      assert Linked(n, rest);
      WithoutRight(rest, node, n);
    }
    freed := freed + [node];
  }

  lemma PartialStart(h: Shape, node: Node)
    requires Wf(h) && node in h.kids
    ensures Partial(h, node, h, [])
  {
  }

  ghost function FirstChild(g: Shape, node: Node): (c: Node)
    requires Wf(g) && Links(g) && node in g.kids && node.child != null
    reads g.kids.Keys
    ensures g.kids[node] != [] && c == node.child == g.kids[node][0] && c in g.kids
  {
    assert Linked(node, g);
    ChildOf(g, node, g.kids[node][0]);
    node.child
  }

  lemma SmallerChild(h: Shape, node: Node, g: Shape, freed: seq<Node>, c: Node)
    requires Wf(h) && Wf(g) && Partial(h, node, g, freed) && c in g.kids[node]
    ensures c in g.kids && c in g.height && node in h.height && g.height[c] < h.height[node]
  {
    ChildOf(g, node, c);
  }

  lemma FewerChildren(g: Shape, node: Node, c: Node)
    requires Wf(g) && node in g.kids && c in g.kids[node]
    ensures c in g.kids && node in Prune(g, c).kids && |Prune(g, c).kids[node]| < |g.kids[node]|
    ensures Prune(g, c).kids.Keys <= g.kids.Keys
  {
    ChildOf(g, node, c);
    PruneFacts(g, node, c);
  }

  lemma NoChildren(g: Shape, node: Node)
    requires Wf(g) && Links(g) && node in g.kids && node.child == null
    ensures g.kids[node] == []
  {
    assert Linked(node, g);
  }

  lemma DeleteResult(f: Shape, node: Node)
    requires Wf(f) && node in f.kids
    ensures Wf(Detach(f, node)) && node in Detach(f, node).kids
    ensures Prune(f, node) == Without(Detach(f, node), Subtree(Detach(f, node), node)) && Wf(Prune(f, node))
    ensures forall x :: x in Subtree(Detach(f, node), node) <==> x in Subtree(f, node)
  {
    hide Wf, AboveOrSelf, Without;
    DetachWf(f, node);
    WithoutWf(Detach(f, node), node);
    forall x | x in f.kids ensures x in Subtree(Detach(f, node), node) <==> x in Subtree(f, node) {
      DetachBelow(f, node, x);
    }
  }

  lemma NodeGone(h: Shape, node: Node, g: Shape, freed: seq<Node>)
    requires Wf(h) && Wf(g) && Partial(h, node, g, freed) && node in h.kids && h.up[node] == None
    ensures node in g.kids && g.up[node] == None
    ensures Without(g, {node}).kids.Keys == g.kids.Keys - {node}
  {
  }

  // -- Reference counts ------------------------------------------------------------------------------------

  /** `mxmlRetain`. */
  method Retain(node: Node) returns (count: int)
    modifies node`refCount
    ensures count == node.refCount == old(node.refCount) + 1
  {
    node.refCount := node.refCount + 1;
    count := node.refCount;
  }

  /** `mxmlRelease`: with the last reference the whole subtree goes, whoever else refers to nodes in it. */
  method Release(node: Node, ghost f: Shape) returns (count: int, ghost g: Shape)
    requires Wf(f) && Links(f) && node in f.kids
    modifies node`refCount
    modifies f.kids.Keys`next, f.kids.Keys`prev, f.kids.Keys`parent, f.kids.Keys`child, f.kids.Keys`lastChild
    ensures Wf(g) && Links(g) && node.refCount == old(node.refCount) - 1
    ensures if old(node.refCount) > 1 then count == node.refCount && g == f else count == 0 && g == Prune(f, node)
  {
    hide Wf, Links, Prune;
    node.refCount := node.refCount - 1;
    if node.refCount <= 0 {
      var freed;
      g, freed := Delete(node, f);
      count := 0;
    } else {
      g := f;
      count := node.refCount;
    }
  }
}
