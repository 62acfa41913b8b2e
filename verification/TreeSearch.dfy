/** `mxmlWalkNext`, `mxmlWalkPrev` and `mxmlFindElement` on linked nodes (mxml-search.c). */
module TreeSearch {
  import opened CStrings
  import opened F = Forest
  import opened NodeTree
  import opened Walk
  import XmlTree

  lemma WalkPointers(f: Shape, n: Node)
    requires Wf(f) && Links(f) && n in f.kids
    ensures n.parent == Ptr(f.up[n]) && (n.parent != null ==> n.parent in f.kids)
    ensures n.next == Ptr(NextSibling(f, n)) && n.prev == Ptr(PrevSibling(f, n))
    ensures n.child == AtOrNull(f.kids[n], 0) && n.lastChild == AtOrNull(f.kids[n], |f.kids[n]| - 1)
    ensures n.next != null ==> n.next in f.kids
    ensures n.prev != null ==> n.prev in f.kids
    ensures n.child != null ==> n.child in f.kids
    ensures n.lastChild != null ==> n.lastChild in f.kids && f.height[n.lastChild] < f.height[n]
  {
    hide Wf, NextSibling, PrevSibling, Right;
    Domains(f);
    assert PointersOf(n) == Right(n, f) by { assert Linked(n, f); }
    SiblingPointers(f, n);
    SiblingIn(f, n);
    if f.up[n].Some? { ParentHigher(f, n); }
    if f.kids[n] != [] {
      ChildOf(f, n, f.kids[n][0]);
      ChildOf(f, n, f.kids[n][|f.kids[n]| - 1]);
    }
  }

  lemma SiblingPointers(f: Shape, n: Node)
    requires Wf(f) && n in f.kids
    ensures var r := Right(n, f);
            && r.parent == Ptr(f.up[n]) && r.next == Ptr(NextSibling(f, n)) && r.prev == Ptr(PrevSibling(f, n))
            && r.child == AtOrNull(f.kids[n], 0) && r.lastChild == AtOrNull(f.kids[n], |f.kids[n]| - 1)
  {
    if f.up[n].Some? { ParentHigher(f, n); }
  }

  /** `mxmlWalkNext`; `descend` is false for MXML_NO_DESCEND only. */
  method WalkNext(node: Node, top: Node, descend: bool, ghost f: Shape) returns (r: Node?)
    requires Wf(f) && Links(f) && node in f.kids
    ensures r == Ptr(Next(f, node, top, descend)) && (r != null ==> r in f.kids)
  {
    hide Wf, Links, NextSibling, PrevSibling;
    WalkPointers(f, node);
    AboveItself(f, node);
    if node.child != null && descend {
      return node.child;
    } else if node == top {
      return null;
    } else if node.next != null {
      return node.next;
    } else if node.parent != null && node.parent != top {
      ghost var start := Following(f, node, top);
      var n := node.parent;
      ParentHigher(f, node);
      WalkPointers(f, n);
      while n.next == null
        invariant n in f.kids && n != top && Following(f, n, top) == start
        invariant n.next == Ptr(NextSibling(f, n)) && (n.next != null ==> n.next in f.kids)
        decreases Higher(f, n)
      {
        WalkPointers(f, n);
        if n.parent == top || n.parent == null {
          return null;
        }
        ParentHigher(f, n);
        n := n.parent;
        WalkPointers(f, n);
      }
      return n.next;
    } else {
      return null;
    }
  }

  /** `mxmlWalkPrev`. */
  method WalkPrev(node: Node, top: Node, descend: bool, ghost f: Shape) returns (r: Node?)
    requires Wf(f) && Links(f) && node in f.kids
    ensures r == Ptr(Prev(f, node, top, descend))
  {
    hide Wf, Links, NextSibling, PrevSibling;
    WalkPointers(f, node);
    AboveItself(f, node);
    if node == top {
      return null;
    } else if node.prev != null {
      WalkPointers(f, node.prev);
      if node.prev.lastChild != null && descend {
        ghost var goal := LastBelow(f, node.prev);
        var n := node.prev.lastChild;
        WalkPointers(f, n);
        while n.lastChild != null
          invariant n in f.kids && LastBelow(f, n) == goal
          invariant n.lastChild == AtOrNull(f.kids[n], |f.kids[n]| - 1)
          invariant n.lastChild != null ==> n.lastChild in f.kids && f.height[n.lastChild] < f.height[n]
          decreases f.height[n]
        {
          n := n.lastChild;
          WalkPointers(f, n);
        }
        return n;
      } else {
        return node.prev;
      }
    } else if node.parent != top {
      return node.parent;
    } else {
      return null;
    }
  }

  /** What `mxmlFindElement` looks for; None stands for NULL, a wildcard. */
  predicate Wanted(v: Payload, name: Option<string>, attr: Option<string>, value: Option<string>) {
    && v.ElementValue?
    && (name.Some? ==> v.name == name.value)
    && (attr.Some? ==>
          && XmlTree.GetAttr(v.attrs, attr.value).Some?
          && (value.Some? ==> XmlTree.GetAttr(v.attrs, attr.value) == value))
  }

  lemma {:induction false} AttrIn(attrs: seq<XmlTree.Attr>, name: string, value: string)
    requires XmlTree.DistinctNames(attrs)
    ensures XmlTree.GetAttr(attrs, name) == Some(value) <==> XmlTree.Attr(name, Some(value)) in attrs
  {
    if attrs != [] {
      AttrIn(attrs[1..], name, value);
      if attrs[0].name == name {
        assert forall k :: 1 <= k < |attrs| ==> attrs[k].name != attrs[0].name;
      }
      assert XmlTree.Attr(name, Some(value)) in attrs <==>
             attrs[0] == XmlTree.Attr(name, Some(value)) || XmlTree.Attr(name, Some(value)) in attrs[1..];
    }
  }

  /** An element is wanted when its name is the one given and the attribute given is among its attributes, with the
      value given or with any. */
  lemma WantedElement(n: string, attrs: seq<XmlTree.Attr>, name: string, attr: string, value: string)
    requires XmlTree.DistinctNames(attrs)
    ensures var v := ElementValue(n, attrs);
            && Wanted(v, None, None, None)
            && (Wanted(v, Some(name), None, None) <==> n == name)
            && (Wanted(v, None, Some(attr), Some(value)) <==> XmlTree.Attr(attr, Some(value)) in attrs)
            && (Wanted(v, None, Some(attr), None) <==> exists x :: XmlTree.Attr(attr, Some(x)) in attrs)
            && (Wanted(v, Some(name), Some(attr), Some(value)) <==>
               n == name && XmlTree.Attr(attr, Some(value)) in attrs)
            && (Wanted(v, Some(name), Some(attr), None) <==>
                  n == name && exists x :: XmlTree.Attr(attr, Some(x)) in attrs)
  {
    AttrIn(attrs, attr, value);
    var got := XmlTree.GetAttr(attrs, attr);
    if got.Some? { AttrIn(attrs, attr, got.value); }
    forall x | XmlTree.Attr(attr, Some(x)) in attrs ensures got == Some(x) { AttrIn(attrs, attr, x); }
  }

  /** Data never is. */
  lemma WantedData(v: Payload, name: Option<string>, attr: Option<string>, value: Option<string>)
    requires !v.ElementValue?
    ensures !Wanted(v, name, attr, value)
  {
  }

  /** How far `mxmlFindElement` goes down: MXML_NO_DESCEND, MXML_DESCEND_FIRST or MXML_DESCEND. */
  datatype Mode = NoDescend | DescendFirst | Descend

  /** The node looked at after `n`: in document order, or only along the siblings. */
  ghost function Successor(f: Shape, n: Node, top: Node, mode: Mode): (r: Option<Node>)
    requires Wf(f) && n in f.kids
  {
    if mode.Descend? then Next(f, n, top, true) else NextSibling(f, n)
  }

  /** The nodes `s` are those a search from `node` looks at in turn, and `end` is the next one. */
  ghost predicate Trail(f: Shape, node: Node, top: Node, mode: Mode, s: seq<Node>, end: Option<Node>)
    requires Wf(f) && node in f.kids
  {
    && (forall k :: 0 <= k < |s| ==> s[k] in f.kids)
    && (s == [] ==> Next(f, node, top, !mode.NoDescend?) == end)
    && (s != [] ==> Next(f, node, top, !mode.NoDescend?) == Some(s[0])
                    && Successor(f, s[|s| - 1], top, mode) == end)
    && (forall k :: 0 < k < |s| ==> Successor(f, s[k - 1], top, mode) == Some(s[k]))
  }

  lemma TrailStart(f: Shape, node: Node, top: Node, mode: Mode)
    requires Wf(f) && node in f.kids
    ensures Trail(f, node, top, mode, [], Next(f, node, top, !mode.NoDescend?))
  {
  }

  lemma TrailStep(f: Shape, node: Node, top: Node, mode: Mode, s: seq<Node>, n: Node)
    requires Wf(f) && node in f.kids && n in f.kids && Trail(f, node, top, mode, s, Some(n))
    ensures Trail(f, node, top, mode, s + [n], Successor(f, n, top, mode))
  {
    hide Wf, Next, NextSibling, Successor;
  }

  /** The root of the tree of `n`. */
  ghost function Root(f: Shape, n: Node): (r: Node)
    requires Wf(f) && n in f.kids
    ensures r in f.kids && f.up[r].None? && AboveOrSelf(f, r, n)
    decreases Higher(f, n)
  {
    if f.up[n].None? then n else (ParentHigher(f, n); Root(f, f.up[n].value))
  }

  lemma {:induction false} RootUnique(f: Shape, r: Node, n: Node)
    requires Wf(f) && r in f.kids && n in f.kids && f.up[r].None? && AboveOrSelf(f, r, n)
    ensures Root(f, n) == r
    decreases Higher(f, n)
  {
    if r != n {
      ParentHigher(f, n);
      RootUnique(f, r, f.up[n].value);
    }
  }

  /** Where a walk goes on, it does not depend on its top. */
  lemma {:induction false} FollowingAny(f: Shape, n: Node, top: Node, root: Node)
    requires Wf(f) && n in f.kids && root in f.kids && f.up[root].None? && Following(f, n, top).Some?
    ensures Following(f, n, root) == Following(f, n, top)
    decreases Higher(f, n)
  {
    if NextSibling(f, n).None? {
      ParentHigher(f, n);
      FollowingAny(f, f.up[n].value, top, root);
    }
  }

  /** What is left to look at: the rest of the tree in document order, or the siblings to come. */
  ghost function Left(f: Shape, n: Node, mode: Mode): (left: nat)
    requires Wf(f) && n in f.kids
  {
    if mode.Descend? then
      WalkVisitsAll(f, Root(f, n));
      var s := Preorder(f, Root(f, n));
      |s| - IndexOf(s, n)
    else if f.up[n].None? then 0
    else |f.kids[f.up[n].value]| - IndexOf(f.kids[f.up[n].value], n)
  }

  lemma LeftSibling(f: Shape, n: Node, mode: Mode)
    requires Wf(f) && n in f.kids && NextSibling(f, n).Some? && !mode.Descend?
    ensures var x := NextSibling(f, n).value; x in f.kids && Left(f, x, mode) < Left(f, n, mode)
  {
    var p := f.up[n].value;
    var i := IndexOf(f.kids[p], n);
    ChildOf(f, p, f.kids[p][i + 1]);
    Unduplicated(f, p);
    IndexUnique(f.kids[p], i + 1);
  }

  lemma LeftBelow(f: Shape, n: Node, top: Node)
    requires Wf(f) && n in f.kids && Next(f, n, top, true).Some?
    ensures var x := Next(f, n, top, true).value; x in f.kids && Left(f, x, Descend) < Left(f, n, Descend)
  {
    hide Wf, Preorder, Following, NoDuplicates, Chain, AboveOrSelf;
    var root := Root(f, n);
    var s := Preorder(f, root);
    var i := IndexOfOrder(f, n);
    if f.kids[n] == [] { FollowingAny(f, n, top, root); }
    InChain(f, root, s, i);
    var x := s[i + 1];
    RootUnique(f, root, x);
    IndexUnique(s, i + 1);
  }

  lemma IndexOfOrder(f: Shape, n: Node) returns (i: nat)
    requires Wf(f) && n in f.kids
    ensures var s := Preorder(f, Root(f, n));
            && i < |s| && s[i] == n && IndexOf(s, n) == i && NoDuplicates(s) && Chain(f, Root(f, n), s, None)
            && (forall k :: 0 <= k < |s| ==> s[k] in f.kids && AboveOrSelf(f, Root(f, n), s[k]))
  {
    hide Wf, Preorder, NoDuplicates, Chain, AboveOrSelf;
    var s := Preorder(f, Root(f, n));
    WalkVisitsAll(f, Root(f, n));
    i := IndexOf(s, n);
    IndexUnique(s, i);
    forall k | 0 <= k < |s| ensures s[k] in f.kids && AboveOrSelf(f, Root(f, n), s[k]) {
      assert s[k] in Subtree(f, Root(f, n));
    }
  }

  lemma LeftFalls(f: Shape, n: Node, top: Node, mode: Mode)
    requires Wf(f) && n in f.kids && Successor(f, n, top, mode).Some?
    ensures var x := Successor(f, n, top, mode).value; x in f.kids && Left(f, x, mode) < Left(f, n, mode)
  {
    hide Wf, Next, NextSibling, Left;
    if mode.Descend? { LeftBelow(f, n, top); } else { LeftSibling(f, n, mode); }
  }

  /** `mxmlFindElement`: the nodes `seen` are looked at in turn and are not wanted; the one after them is,
      or there is none. */
  method FindElement(node: Node?, top: Node?, name: Option<string>, attr: Option<string>, value: Option<string>,
                     mode: Mode, ghost f: Shape)
    returns (r: Node?, ghost seen: seq<Node>)
    requires Wf(f) && Links(f) && (node != null ==> node in f.kids)
    ensures node == null || top == null || (attr.None? && value.Some?) ==> r == null
    ensures node != null && top != null && (attr.Some? || value.None?) ==>
              && Trail(f, node, top, mode, seen, Opt(r))
              && (forall n :: n in seen ==> !Wanted(n.value, name, attr, value))
              && (r != null ==> r in f.kids && Wanted(r.value, name, attr, value))
  {
    hide Wf, Links, Next, Successor, Trail, NextSibling, Left;
    seen := [];
    if node == null || top == null || (attr.None? && value.Some?) {
      return null, [];
    }
    TrailStart(f, node, top, mode);
    r := WalkNext(node, top, !mode.NoDescend?, f);
    while r != null
      invariant r != null ==> r in f.kids
      invariant Trail(f, node, top, mode, seen, Opt(r))
      invariant forall n :: n in seen ==> !Wanted(n.value, name, attr, value)
      decreases if r == null then 0 else 1 + Left(f, r, mode)
    {
      if r.value.ElementValue? && (name.None? || r.value.name == name.value) {
        if attr.None? {
          return;
        }
        var temp := XmlTree.GetAttr(r.value.attrs, attr.value);
        if temp.Some? {
          if value.None? || value == temp {
            return;
          }
        }
      }
      TrailStep(f, node, top, mode, seen, r);
      seen := seen + [r];
      r := GoOn(r, top, mode, f);
    }
  }

  /** The end of the loop of `mxmlFindElement`. */
  method GoOn(node: Node, top: Node, mode: Mode, ghost f: Shape) returns (r: Node?)
    requires Wf(f) && Links(f) && node in f.kids
    ensures Opt(r) == Successor(f, node, top, mode)
    ensures r != null ==> r in f.kids && Left(f, r, mode) < Left(f, node, mode)
  {
    hide Wf, Links, Next, NextSibling, Left;
    WalkPointers(f, node);
    if mode == Descend {
      r := WalkNext(node, top, true, f);
    } else {
      r := node.next;
    }
    if r != null { LeftFalls(f, node, top, mode); }
  }

  /** With MXML_DESCEND, from entry `i` of the document order of `top`: the first later entry that is wanted,
      NULL if there is none. */
  lemma {:induction false} SeenInOrder(f: Shape, top: Node, i: nat, seen: seq<Node>, end: Option<Node>)
    requires Wf(f) && top in f.kids && i < |Preorder(f, top)| && Preorder(f, top)[i] in f.kids
    requires Trail(f, Preorder(f, top)[i], top, Descend, seen, end)
    ensures var s := Preorder(f, top);
            var j := i + 1 + |seen|;
            j <= |s| && seen == s[i + 1..j] && end == if j < |s| then Some(s[j]) else None
    decreases |seen|
  {
    hide Wf, Preorder, Next, NoDuplicates;
    var s := Preorder(f, top);
    WalkVisitsAll(f, top);
    InChain(f, top, s, i);
    if seen != [] {
      var last := |seen| - 1;
      TrailBefore(f, s[i], top, Descend, seen, end);
      SeenInOrder(f, top, i, seen[..last], Some(seen[last]));
      InChain(f, top, s, i + 1 + last);
      assert seen == seen[..last] + [seen[last]];
    }
  }

  lemma TrailBefore(f: Shape, node: Node, top: Node, mode: Mode, s: seq<Node>, end: Option<Node>)
    requires Wf(f) && node in f.kids && s != [] && Trail(f, node, top, mode, s, end)
    ensures var n := |s| - 1;
            && Trail(f, node, top, mode, s[..n], Some(s[n]))
            && s[n] in f.kids && Successor(f, s[n], top, mode) == end
  {
    hide Wf, Next, NextSibling, Successor;
    if |s| > 1 {
      assert Successor(f, s[|s| - 1 - 1], top, mode) == Some(s[|s| - 1]);
    }
  }

  /** With MXML_DESCEND_FIRST, from a node that has children: the first child that is wanted, NULL if there
      is none. */
  lemma {:induction false} SeenChildren(f: Shape, node: Node, top: Node, seen: seq<Node>, end: Option<Node>)
    requires Wf(f) && node in f.kids && f.kids[node] != [] && Trail(f, node, top, DescendFirst, seen, end)
    ensures |seen| <= |f.kids[node]| && seen == f.kids[node][..|seen|]
    ensures end == if |seen| < |f.kids[node]| then Some(f.kids[node][|seen|]) else None
    decreases |seen|
  {
    hide Wf, NextSibling;
    if seen != [] {
      var last := |seen| - 1;
      TrailBefore(f, node, top, DescendFirst, seen, end);
      SeenChildren(f, node, top, seen[..last], Some(seen[last]));
      ChildSibling(f, node, last);
      assert seen == seen[..last] + [seen[last]];
    }
  }

  /** With MXML_NO_DESCEND, from child `i` of `p` that has a later sibling: the first later sibling that is wanted,
      NULL if there is none. */
  lemma {:induction false} SeenSiblings(f: Shape, p: Node, i: nat, top: Node, seen: seq<Node>, end: Option<Node>)
    requires Wf(f) && p in f.kids && i + 1 < |f.kids[p]| && f.kids[p][i] in f.kids && f.kids[p][i] != top
    requires Trail(f, f.kids[p][i], top, NoDescend, seen, end)
    ensures var j := i + 1 + |seen|;
            && j <= |f.kids[p]| && seen == f.kids[p][i + 1..j]
            && end == if j < |f.kids[p]| then Some(f.kids[p][j]) else None
    decreases |seen|
  {
    hide Wf, NextSibling;
    if seen == [] {
      FollowingKid(f, p, i, top);
    } else {
      var last := |seen| - 1;
      TrailBefore(f, f.kids[p][i], top, NoDescend, seen, end);
      SeenSiblings(f, p, i, top, seen[..last], Some(seen[last]));
      ChildSibling(f, p, i + 1 + last);
      assert seen == seen[..last] + [seen[last]];
    }
  }

  /** With MXML_NO_DESCEND, from `top` itself: nothing at all. */
  lemma SeenFromTop(f: Shape, top: Node, seen: seq<Node>, end: Option<Node>)
    requires Wf(f) && top in f.kids && Trail(f, top, top, NoDescend, seen, end)
    ensures seen == [] && end == None
  {
    hide Wf, NextSibling, Successor;
  }

  lemma ChildSibling(f: Shape, p: Node, i: nat)
    requires Wf(f) && p in f.kids && i < |f.kids[p]|
    ensures f.kids[p][i] in f.kids
    ensures NextSibling(f, f.kids[p][i]) == if i + 1 < |f.kids[p]| then Some(f.kids[p][i + 1]) else None
  {
    ChildOf(f, p, f.kids[p][i]);
    Unduplicated(f, p);
    IndexUnique(f.kids[p], i);
  }

  lemma InChain(f: Shape, top: Node, s: seq<Node>, i: nat)
    requires Wf(f) && Chain(f, top, s, None) && i < |s|
    ensures s[i] in f.kids
    ensures i + 1 < |s| ==> Next(f, s[i], top, true) == Some(s[i + 1])
    ensures i + 1 == |s| ==> Next(f, s[i], top, true) == None
  {
    hide Wf, Next;
    if i + 1 < |s| {
      var k := i + 1;
      assert Next(f, s[k - 1], top, true) == Some(s[k]);
    }
  }
}
