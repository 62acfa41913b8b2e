/** The XML tree that a chain of linked nodes stands for, and the open elements of a tree being built. */
module TreeValue {
  import opened CStrings
  import opened Forest
  import T = NodeTree
  import L = Loader
  import opened XmlTree

  type Values = map<T.Node, T.Payload>

  /** The value parts of all nodes. */
  ghost function ValuesOf(f: T.Shape): (v: Values)
    reads f.kids.Keys`value
    ensures v.Keys == f.kids.Keys
  {
    map n | n in f.kids :: n.value
  }

  /** The tree below a node: children of value nodes do not count. */
  ghost function Tree(f: T.Shape, v: Values, n: T.Node): (r: Node)
    requires Wf(f) && v.Keys == f.kids.Keys && n in f.kids
    decreases f.height[n], |f.kids[n]| + 1
  {
    match v[n]
    case ElementValue(name, attrs) => Element(name, attrs, KidTrees(f, v, n, 0, |f.kids[n]|))
    case OpaqueValue(data) => Opaque(data)
    case TextValue(whitespace, data) => Text(whitespace, data)
  }

  /** The trees of the children of `p` from number `j` up to, not including, number `k`. */
  ghost function KidTrees(f: T.Shape, v: Values, p: T.Node, j: nat, k: nat): (r: seq<Node>)
    requires Wf(f) && v.Keys == f.kids.Keys && p in f.kids && j <= k <= |f.kids[p]|
    ensures |r| == k - j
    decreases f.height[p], k - j
  {
    if j == k then []
    else
      ChildOf(f, p, f.kids[p][j]);
      [Tree(f, v, f.kids[p][j])] + KidTrees(f, v, p, j + 1, k)
  }

  /** `Tree`, on the present values. */
  ghost function TreeOf(f: T.Shape, n: T.Node): (r: Node)
    requires Wf(f) && n in f.kids
    reads f.kids.Keys`value
  {
    Tree(f, ValuesOf(f), n)
  }

  lemma {:induction false} KidsSplit(f: T.Shape, v: Values, p: T.Node, j: nat, m: nat, k: nat)
    requires Wf(f) && v.Keys == f.kids.Keys && p in f.kids && j <= m <= k <= |f.kids[p]|
    ensures KidTrees(f, v, p, j, k) == KidTrees(f, v, p, j, m) + KidTrees(f, v, p, m, k)
    decreases m - j
  {
    hide Wf, Tree;
    if j < m {
      KidsSplit(f, v, p, j + 1, m, k);
    }
  }

  /** The nodes of `s` keep their children and values, and their children are in `s`. */
  ghost predicate Untouched(f: T.Shape, v: Values, g: T.Shape, w: Values, s: set<T.Node>)
    requires v.Keys == f.kids.Keys && w.Keys == g.kids.Keys
  {
    forall x :: x in s ==>
        x in f.kids && x in g.kids && g.kids[x] == f.kids[x] && w[x] == v[x] && forall c :: c in f.kids[x] ==> c in s
  }

  lemma UntouchedAt(f: T.Shape, v: Values, g: T.Shape, w: Values, s: set<T.Node>, x: T.Node)
    requires v.Keys == f.kids.Keys && w.Keys == g.kids.Keys && Untouched(f, v, g, w, s) && x in s
    ensures x in f.kids && x in g.kids && g.kids[x] == f.kids[x] && w[x] == v[x]
    ensures forall j :: 0 <= j < |f.kids[x]| ==> f.kids[x][j] in s
  {
  }

  lemma {:induction false} SameTree(f: T.Shape, v: Values, g: T.Shape, w: Values, s: set<T.Node>, n: T.Node)
    requires Wf(f) && Wf(g) && v.Keys == f.kids.Keys && w.Keys == g.kids.Keys && Untouched(f, v, g, w, s) && n in s
    ensures n in f.kids && n in g.kids && Tree(g, w, n) == Tree(f, v, n)
    decreases if n in f.height then f.height[n] else 0, |f.kids[n]| + 1
  {
    hide Wf, Untouched;
    UntouchedAt(f, v, g, w, s, n);
    SameKids(f, v, g, w, s, n, 0, |f.kids[n]|);
  }

  lemma {:induction false} SameKids(f: T.Shape, v: Values, g: T.Shape, w: Values, s: set<T.Node>, p: T.Node, j: nat,
                                    k: nat)
    requires Wf(f) && Wf(g) && v.Keys == f.kids.Keys && w.Keys == g.kids.Keys && Untouched(f, v, g, w, s)
    requires p in f.kids && p in g.kids
    requires j <= k <= |f.kids[p]| && k <= |g.kids[p]|
    requires forall i :: j <= i < k ==> f.kids[p][i] in s && g.kids[p][i] == f.kids[p][i]
    ensures KidTrees(g, w, p, j, k) == KidTrees(f, v, p, j, k)
    decreases if p in f.height then f.height[p] else 0, k - j
  {
    hide Wf, Untouched, Tree;
    if j < k {
      T.Domains(f);
      ChildOf(f, p, f.kids[p][j]);
      SameTree(f, v, g, w, s, f.kids[p][j]);
      SameKids(f, v, g, w, s, p, j + 1, k);
    }
  }

  // -- Open elements ----------------------------------------------------------------------------------------

  /** The open element inside `path[i]`, if any. */
  function Inside(path: seq<T.Node>, i: nat): (r: Option<T.Node>) {
    if i + 1 < |path| then Some(path[i + 1]) else None
  }

  ghost function LastKid(f: T.Shape, n: T.Node): (r: Option<T.Node>)
    requires n in f.kids
  {
    if f.kids[n] == [] then None else Some(f.kids[n][|f.kids[n]| - 1])
  }

  /** The elements on `path` are open, outermost first: each is the last child of the one before. */
  ghost predicate Spine(f: T.Shape, v: Values, path: seq<T.Node>)
    requires Wf(f) && v.Keys == f.kids.Keys
  {
    && (forall i :: 0 <= i < |path| ==> path[i] in f.kids && v[path[i]].ElementValue?)
    && (path != [] ==> path[0] in f.up && f.up[path[0]] == None)
    && (forall i :: 0 <= i < |path| ==> Inside(path, i).Some? ==> LastKid(f, path[i]) == Inside(path, i))
  }

  /** An open element with the children that are complete. */
  ghost function FrameOf(f: T.Shape, v: Values, n: T.Node, inside: Option<T.Node>): (r: L.Frame)
    requires Wf(f) && v.Keys == f.kids.Keys && n in f.kids && v[n].ElementValue?
    requires inside.Some? ==> LastKid(f, n) == inside
  {
    L.Frame(v[n].name, v[n].attrs, KidTrees(f, v, n, 0, if inside.Some? then |f.kids[n]| - 1 else |f.kids[n]|))
  }

  ghost function Stack(f: T.Shape, v: Values, path: seq<T.Node>): (r: seq<L.Frame>)
    requires Wf(f) && v.Keys == f.kids.Keys && Spine(f, v, path)
    ensures |r| == |path|
  {
    seq(|path|, i requires 0 <= i < |path| => FrameOf(f, v, path[i], Inside(path, i)))
  }

  lemma SpineAt(f: T.Shape, v: Values, path: seq<T.Node>, i: nat)
    requires Wf(f) && v.Keys == f.kids.Keys && Spine(f, v, path) && i < |path|
    ensures path[i] in f.kids && v[path[i]].ElementValue?
    ensures i + 1 < |path| ==>
            LastKid(f, path[i]) == Some(path[i + 1]) && path[i + 1] in f.kids && f.up[path[i + 1]] == Some(path[i])
    ensures i == 0 ==> f.up[path[i]] == None
    ensures i > 0 ==> path[i - 1] in f.kids && f.up[path[i]] == Some(path[i - 1])
  {
    hide Wf;
    assert Inside(path, i) == if i + 1 < |path| then Some(path[i + 1]) else None;
    if i + 1 < |path| { LastKidUp(f, path[i]); }
    if i > 0 {
      assert Inside(path, i - 1) == Some(path[i]);
      LastKidUp(f, path[i - 1]);
    }
  }

  lemma LastKidUp(f: T.Shape, n: T.Node)
    requires Wf(f) && n in f.kids
    ensures LastKid(f, n).Some? ==> LastKid(f, n).value in f.kids && f.up[LastKid(f, n).value] == Some(n)
  {
    hide Wf;
    if f.kids[n] != [] { ChildOf(f, n, f.kids[n][|f.kids[n]| - 1]); }
  }

  /** Walking down the path, heights fall; so nobody is on it twice. */
  lemma {:induction false} PathOnce(f: T.Shape, v: Values, path: seq<T.Node>, i: nat, j: nat)
    requires Wf(f) && v.Keys == f.kids.Keys && Spine(f, v, path) && i < j < |path|
    ensures path[i] in f.height && path[j] in f.height && f.height[path[j]] < f.height[path[i]] && path[i] != path[j]
    decreases j - i
  {
    hide Wf, Spine;
    SpineAt(f, v, path, j);
    SpineAt(f, v, path, j - 1);
    ParentHigher(f, path[j]);
    T.Domains(f);
    if i < j - 1 { PathOnce(f, v, path, i, j - 1); }
  }

  /** The nodes that are not open. */
  ghost function Closed(f: T.Shape, path: seq<T.Node>): (s: set<T.Node>) {
    f.kids.Keys - set n | n in path
  }

  /** A child of a node that is not open is not open. */
  lemma ClosedKids(f: T.Shape, v: Values, path: seq<T.Node>, x: T.Node)
    requires Wf(f) && v.Keys == f.kids.Keys && Spine(f, v, path) && x in Closed(f, path)
    ensures forall c :: c in f.kids[x] ==> c in Closed(f, path)
  {
    hide Wf, Spine;
    forall c | c in f.kids[x] ensures c in Closed(f, path) {
      ChildOf(f, x, c);
      if c in path {
        var i :| 0 <= i < |path| && path[i] == c;
        SpineAt(f, v, path, i);
      }
    }
  }

  /** The tree of a node without children. */
  function Leaf(val: T.Payload): (r: Node) {
    match val
    case ElementValue(name, attrs) => Element(name, attrs, [])
    case OpaqueValue(data) => Opaque(data)
    case TextValue(whitespace, data) => Text(whitespace, data)
  }

  /** How the forest grows: `node` with value `val` becomes the last child of the innermost open element. */
  ghost predicate Grown(f: T.Shape, v: Values, path: seq<T.Node>, node: T.Node, val: T.Payload, g: T.Shape, w: Values)
    requires Wf(f) && v.Keys == f.kids.Keys
  {
    && node !in f.kids && Spine(f, v, path)
    && (path != [] ==> path[|path| - 1] in f.kids)
    && g == NewChild(f, if path == [] then None else Some(path[|path| - 1]), node) && w == v[node := val]
  }

  lemma GrownFacts(f: T.Shape, v: Values, path: seq<T.Node>, node: T.Node, val: T.Payload, g: T.Shape, w: Values)
    requires Wf(f) && v.Keys == f.kids.Keys && Grown(f, v, path, node, val, g, w)
    ensures Wf(g) && w.Keys == g.kids.Keys == f.kids.Keys + {node} && node in g.up && g.kids[node] == []
    ensures node !in path
    ensures path == [] ==> g.kids == f.kids[node := []] && g.up == f.up[node := None]
    ensures path != [] ==> var p := path[|path| - 1];
            p in f.kids && g.kids == f.kids[node := []][p := f.kids[p] + [node]] && g.up == f.up[node := Some(p)]
    ensures f.up.Keys == f.kids.Keys
  {
    hide Wf, NewChild, LastKid;
    T.Domains(f);
    if path == [] {
      RootChild(f, node);
    } else {
      NewChildFacts(f, path[|path| - 1], node);
    }
  }

  lemma RootChild(f: T.Shape, node: T.Node)
    requires Wf(f) && node !in f.kids
    ensures var g := NewChild(f, None, node); Wf(g) && g.kids == f.kids[node := []] && g.up == f.up[node := None]
  {
    AddRootWf(f, node);
  }

  /** Nothing changes below the nodes that are not open. */
  lemma GrownUntouched(f: T.Shape, v: Values, path: seq<T.Node>, node: T.Node, val: T.Payload, g: T.Shape, w: Values)
    requires Wf(f) && v.Keys == f.kids.Keys && Grown(f, v, path, node, val, g, w)
    ensures w.Keys == g.kids.Keys && Untouched(f, v, g, w, Closed(f, path))
  {
    hide Wf, Spine, Grown;
    GrownFacts(f, v, path, node, val, g, w);
    GrownIs(f, v, path, node, val, g, w);
    forall x | x in Closed(f, path)
      ensures g.kids[x] == f.kids[x] && w[x] == v[x] && forall c :: c in f.kids[x] ==> c in Closed(f, path)
    {
      ClosedKids(f, v, path, x);
    }
  }

  lemma GrownIs(f: T.Shape, v: Values, path: seq<T.Node>, node: T.Node, val: T.Payload, g: T.Shape, w: Values)
    requires Wf(f) && v.Keys == f.kids.Keys && Grown(f, v, path, node, val, g, w)
    ensures Spine(f, v, path) && w == v[node := val] && node !in f.kids
  {
  }

  /** The complete children of an open element are not open. */
  lemma CompleteClosed(f: T.Shape, v: Values, path: seq<T.Node>, i: nat)
    requires Wf(f) && v.Keys == f.kids.Keys && Spine(f, v, path) && i < |path|
    ensures path[i] in f.kids
    ensures forall j :: 0 <= j < |f.kids[path[i]]| - (if i + 1 < |path| then 1 else 0) ==>
            f.kids[path[i]][j] in Closed(f, path)
  {
    hide Wf, Spine;
    var p := path[i];
    SpineAt(f, v, path, i);
    Unduplicated(f, p);
    forall j | 0 <= j < |f.kids[p]| - (if i + 1 < |path| then 1 else 0) ensures f.kids[p][j] in Closed(f, path) {
      var c := f.kids[p][j];
      ChildOf(f, p, c);
      if c in path {
        var k :| 0 <= k < |path| && path[k] == c;
        OpenChild(f, v, path, i, k);
      }
    }
  }

  /** The only open child of an open element is the next one on the path. */
  lemma OpenChild(f: T.Shape, v: Values, path: seq<T.Node>, i: nat, k: nat)
    requires Wf(f) && v.Keys == f.kids.Keys && Spine(f, v, path) && i < |path| && k < |path|
    requires path[k] in f.kids && f.up[path[k]] == Some(path[i])
    ensures k == i + 1 && LastKid(f, path[i]) == Some(path[k])
  {
    hide Wf, Spine, LastKid;
    SpineAt(f, v, path, k);
    SpineAt(f, v, path, i);
    if k > 0 {
      if k - 1 < i { PathOnce(f, v, path, k - 1, i); }
      if i < k - 1 { PathOnce(f, v, path, i, k - 1); }
    }
  }

  lemma SpineKept(f: T.Shape, v: Values, path: seq<T.Node>, node: T.Node, val: T.Payload, g: T.Shape, w: Values)
    requires Wf(f) && v.Keys == f.kids.Keys && Grown(f, v, path, node, val, g, w)
    ensures Wf(g) && w.Keys == g.kids.Keys && Spine(g, w, path) && node in g.kids && g.kids[node] == []
    ensures w[node] == val
    ensures val.ElementValue? ==> Spine(g, w, path + [node])
  {
    hide Wf, Grown, Spine;
    GrownFacts(f, v, path, node, val, g, w);
    GrownIs(f, v, path, node, val, g, w);
    forall i | 0 <= i < |path|
      ensures path[i] in g.kids && w[path[i]].ElementValue?
      ensures Inside(path, i).Some? ==> LastKid(g, path[i]) == Inside(path, i)
      ensures i == 0 ==> g.up[path[i]] == None
    {
      SpineAt(f, v, path, i);
      if i + 1 < |path| { PathOnce(f, v, path, i, |path| - 1); }
    }
    SpineFrom(g, w, path);
    if val.ElementValue? {
      var longer := path + [node];
      forall i | 0 <= i < |longer|
        ensures longer[i] in g.kids && w[longer[i]].ElementValue?
        ensures Inside(longer, i).Some? ==> LastKid(g, longer[i]) == Inside(longer, i)
        ensures i == 0 ==> g.up[longer[i]] == None
      {
        if i < |path| {
          assert i + 1 < |path| ==> Inside(longer, i) == Inside(path, i);
          SpineAt(f, v, path, i);
        }
      }
      SpineFrom(g, w, longer);
    }
  }

  lemma SpineFrom(f: T.Shape, v: Values, path: seq<T.Node>)
    requires Wf(f) && v.Keys == f.kids.Keys
    requires forall i :: 0 <= i < |path| ==> path[i] in f.kids && v[path[i]].ElementValue? && path[i] in f.up
    requires forall i :: 0 <= i < |path| ==> Inside(path, i).Some? ==> LastKid(f, path[i]) == Inside(path, i)
    requires path != [] ==> f.up[path[0]] == None
    ensures Spine(f, v, path)
  {
  }

  /** The frames of the open elements after a node was added: only the innermost one has a new child. */
  lemma FrameGrown(f: T.Shape, v: Values, path: seq<T.Node>, node: T.Node, val: T.Payload, g: T.Shape, w: Values,
                   i: nat)
    requires Wf(f) && v.Keys == f.kids.Keys && Grown(f, v, path, node, val, g, w) && i < |path|
    ensures Wf(g) && w.Keys == g.kids.Keys && Spine(g, w, path) && Spine(f, v, path)
    ensures var was, now := Stack(f, v, path)[i], Stack(g, w, path)[i];
            now == if i + 1 < |path| then was else was.(kids := was.kids + [Leaf(val)])
  {
    hide Wf, Grown, Spine, Tree, KidTrees, LastKid, Untouched, Closed;
    SpineKept(f, v, path, node, val, g, w);
    GrownFacts(f, v, path, node, val, g, w);
    GrownIs(f, v, path, node, val, g, w);
    GrownUntouched(f, v, path, node, val, g, w);
    CompleteClosed(f, v, path, i);
    SpineAt(f, v, path, i);
    var p := path[i];
    var k := |f.kids[p]| - (if i + 1 < |path| then 1 else 0);
    LastKidLen(f, p);
    if i + 1 < |path| { PathOnce(f, v, path, i, |path| - 1); }
    SameKids(f, v, g, w, Closed(f, path), p, 0, k);
    if i + 1 == |path| {
      NewKid(g, w, p, k, node, val);
    }
  }

  lemma LastKidLen(f: T.Shape, n: T.Node)
    requires n in f.kids
    ensures LastKid(f, n).Some? ==> |f.kids[n]| > 0
  {
  }

  lemma NewKid(g: T.Shape, w: Values, p: T.Node, k: nat, node: T.Node, val: T.Payload)
    requires Wf(g) && w.Keys == g.kids.Keys && p in g.kids && |g.kids[p]| == k + 1 && g.kids[p][k] == node
    requires node in g.kids && g.kids[node] == [] && w[node] == val
    ensures KidTrees(g, w, p, 0, k + 1) == KidTrees(g, w, p, 0, k) + [Leaf(val)]
  {
    hide Wf, Tree;
    KidsSplit(g, w, p, 0, k, k + 1);
    LeafTree(g, w, node);
    assert KidTrees(g, w, p, k + 1, k + 1) == [];
    assert KidTrees(g, w, p, k, k + 1) == [Tree(g, w, node)] + KidTrees(g, w, p, k + 1, k + 1);
  }

  lemma LeafTree(g: T.Shape, w: Values, node: T.Node)
    requires Wf(g) && w.Keys == g.kids.Keys && node in g.kids && g.kids[node] == []
    ensures Tree(g, w, node) == Leaf(w[node])
  {
    hide Wf;
  }

  // -- The state of the loader ------------------------------------------------------------------------------

  /** `first` is a root: the outermost open element, when there is one. */
  ghost predicate Rooted(f: T.Shape, path: seq<T.Node>, first: T.Node?) {
    && (first != null ==> first in f.kids && first in f.up && f.up[first] == None)
    && (path != [] ==> first == path[0])
  }

  ghost function StateOf(f: T.Shape, v: Values, path: seq<T.Node>, first: T.Node?, vtype: L.VType, ws: bool,
                         buf: string): (st: L.State)
    requires Wf(f) && v.Keys == f.kids.Keys && Spine(f, v, path) && Rooted(f, path, first)
  {
    L.State(Stack(f, v, path), if path == [] && first != null then Some(Tree(f, v, first)) else None, vtype, ws, buf)
  }

  /** A new leaf under the innermost open element is `AddLeaf`. */
  lemma LeafAdded(f: T.Shape, v: Values, path: seq<T.Node>, first: T.Node?, node: T.Node, val: T.Payload, g: T.Shape,
                  w: Values,
                  vtype: L.VType, ws: bool, buf: string)
    requires Wf(f) && v.Keys == f.kids.Keys && Grown(f, v, path, node, val, g, w) && Spine(f, v, path)
    requires Rooted(f, path, first)
    ensures var first' := if first == null then node else first;
            && Wf(g) && w.Keys == g.kids.Keys && Spine(g, w, path) && Rooted(g, path, first')
            && StateOf(g, w, path, first', vtype, ws, buf) ==
               L.AddLeaf(StateOf(f, v, path, first, vtype, ws, buf), Leaf(val))
  {
    hide Wf, Grown, Spine, Tree, LastKid, Untouched, Closed, FrameOf, Stack;
    SpineKept(f, v, path, node, val, g, w);
    GrownFacts(f, v, path, node, val, g, w);
    if path == [] {
      NoFrames(f, v);
      NoFrames(g, w);
      LeafTree(g, w, node);
      if first != null {
        GrownUntouched(f, v, path, node, val, g, w);
        AllClosed(f);
        SameTree(f, v, g, w, Closed(f, path), first);
      }
    } else {
      var s, t, n := Stack(f, v, path), Stack(g, w, path), |path| - 1;
      forall i | 0 <= i < |path| ensures t[i] == if i < n then s[i] else s[i].(kids := s[i].kids + [Leaf(val)]) {
        FrameGrown(f, v, path, node, val, g, w, i);
      }
      assert t == s[..n] + [s[n].(kids := s[n].kids + [Leaf(val)])];
    }
  }

  lemma NoFrames(f: T.Shape, v: Values)
    requires Wf(f) && v.Keys == f.kids.Keys && Spine(f, v, [])
    ensures Stack(f, v, []) == []
  {
  }

  lemma AllClosed(f: T.Shape)
    ensures Closed(f, []) == f.kids.Keys
  {
  }

  /** A new element that is then open is `Open`. */
  lemma ElementOpened(f: T.Shape, v: Values, path: seq<T.Node>, first: T.Node?, node: T.Node, val: T.Payload,
                      g: T.Shape, w: Values,
                      vtype: L.VType, ws: bool, buf: string)
    requires Wf(f) && v.Keys == f.kids.Keys && Grown(f, v, path, node, val, g, w) && Spine(f, v, path)
    requires Rooted(f, path, first)
    requires val.ElementValue? && (path == [] ==> first == null)
    ensures var first' := if first == null then node else first;
            && Wf(g) && w.Keys == g.kids.Keys && Spine(g, w, path + [node]) && Rooted(g, path + [node], first')
            && StateOf(g, w, path + [node], first', vtype, ws, buf) ==
               L.Open(StateOf(f, v, path, first, vtype, ws, buf), val.name, val.attrs)
  {
    hide Wf, Grown, Spine, Tree, LastKid, Untouched, Closed, FrameOf, Stack;
    SpineKept(f, v, path, node, val, g, w);
    GrownFacts(f, v, path, node, val, g, w);
    var longer := path + [node];
    var s, t := Stack(f, v, path), Stack(g, w, longer);
    forall i | 0 <= i < |path| ensures t[i] == s[i] {
      FrameKept(f, v, path, node, val, g, w, i);
    }
    NewFrame(g, w, longer, node);
    assert t == s + [L.Frame(val.name, val.attrs, [])];
    if path == [] { NoFrames(f, v); }
  }

  lemma NewFrame(g: T.Shape, w: Values, path: seq<T.Node>, node: T.Node)
    requires Wf(g) && w.Keys == g.kids.Keys && Spine(g, w, path) && path != [] && path[|path| - 1] == node
    requires node in g.kids && g.kids[node] == []
    ensures w[node].ElementValue? && Stack(g, w, path)[|path| - 1] == L.Frame(w[node].name, w[node].attrs, [])
  {
    hide Wf, Spine;
    SpineAt(g, w, path, |path| - 1);
  }

  /** The frames of the elements that were open before. */
  lemma FrameKept(f: T.Shape, v: Values, path: seq<T.Node>, node: T.Node, val: T.Payload, g: T.Shape, w: Values, i: nat)
    requires Wf(f) && v.Keys == f.kids.Keys && Grown(f, v, path, node, val, g, w) && i < |path| && val.ElementValue?
    ensures Wf(g) && w.Keys == g.kids.Keys && Spine(g, w, path + [node]) && Spine(f, v, path)
    ensures Stack(g, w, path + [node])[i] == Stack(f, v, path)[i]
  {
    hide Wf, Grown, Spine, Tree, KidTrees, LastKid, Untouched, Closed;
    SpineKept(f, v, path, node, val, g, w);
    GrownFacts(f, v, path, node, val, g, w);
    GrownIs(f, v, path, node, val, g, w);
    GrownUntouched(f, v, path, node, val, g, w);
    CompleteClosed(f, v, path, i);
    SpineAt(f, v, path, i);
    SpineAt(g, w, path + [node], i);
    var p := path[i];
    var k := |f.kids[p]| - (if i + 1 < |path| then 1 else 0);
    LastKidLen(f, p);
    if i + 1 < |path| { PathOnce(f, v, path, i, |path| - 1); }
    SameKids(f, v, g, w, Closed(f, path), p, 0, k);
  }

  /** Going up to the parent is `Pop`. */
  lemma ElementClosed(f: T.Shape, v: Values, path: seq<T.Node>, first: T.Node?, vtype: L.VType, ws: bool, buf: string)
    requires Wf(f) && v.Keys == f.kids.Keys && Spine(f, v, path) && Rooted(f, path, first) && path != []
    ensures var shorter := path[..|path| - 1];
            && Spine(f, v, shorter) && Rooted(f, shorter, first)
            && StateOf(f, v, shorter, first, vtype, ws, buf) == L.Pop(StateOf(f, v, path, first, vtype, ws, buf))
  {
    hide Wf, Spine, Tree, LastKid, FrameOf, Stack;
    var n := |path| - 1;
    var shorter := path[..n];
    ShorterSpine(f, v, path);
    WholeTree(f, v, path);
    var s, t := Stack(f, v, path), Stack(f, v, shorter);
    if n == 0 {
      NoFrames(f, v);
    } else {
      forall i | 0 <= i < n ensures t[i] == if i < n - 1 then s[i] else s[i].(kids := s[i].kids + [L.Closed(s[n])]) {
        FrameClosed(f, v, path, i);
      }
      assert t == s[..n - 1] + [s[n - 1].(kids := s[n - 1].kids + [L.Closed(s[n])])];
    }
  }

  lemma ShorterSpine(f: T.Shape, v: Values, path: seq<T.Node>)
    requires Wf(f) && v.Keys == f.kids.Keys && Spine(f, v, path) && path != []
    ensures Spine(f, v, path[..|path| - 1])
  {
    hide Wf, Spine, LastKid;
    var shorter := path[..|path| - 1];
    T.Domains(f);
    forall i | 0 <= i < |shorter|
      ensures shorter[i] in f.kids && v[shorter[i]].ElementValue? && shorter[i] in f.up
      ensures Inside(shorter, i).Some? ==> LastKid(f, shorter[i]) == Inside(shorter, i)
      ensures i == 0 ==> f.up[shorter[i]] == None
    {
      SpineAt(f, v, path, i);
    }
    SpineFrom(f, v, shorter);
  }

  /** The innermost open element is complete as it stands. */
  lemma WholeTree(f: T.Shape, v: Values, path: seq<T.Node>)
    requires Wf(f) && v.Keys == f.kids.Keys && Spine(f, v, path) && path != []
    ensures path[|path| - 1] in f.kids
    ensures Tree(f, v, path[|path| - 1]) == L.Closed(Stack(f, v, path)[|path| - 1])
  {
    hide Wf, Spine, KidTrees;
    SpineAt(f, v, path, |path| - 1);
  }

  lemma FrameClosed(f: T.Shape, v: Values, path: seq<T.Node>, i: nat)
    requires Wf(f) && v.Keys == f.kids.Keys && Spine(f, v, path) && i < |path| - 1
    ensures Spine(f, v, path[..|path| - 1])
    ensures var s, n := Stack(f, v, path), |path| - 1;
            Stack(f, v, path[..n])[i] == if i < n - 1 then s[i] else s[i].(kids := s[i].kids + [L.Closed(s[n])])
  {
    hide Wf, Spine, KidTrees, Tree;
    ShorterSpine(f, v, path);
    WholeTree(f, v, path);
    SpineAt(f, v, path, i);
    var n, p := |path| - 1, path[i];
    if i == n - 1 {
      var k := |f.kids[p]| - 1;
      KidsSplit(f, v, p, 0, k, k + 1);
      OneKid(f, v, p, k);
    }
  }

  lemma OneKid(f: T.Shape, v: Values, p: T.Node, k: nat)
    requires Wf(f) && v.Keys == f.kids.Keys && p in f.kids && k < |f.kids[p]|
    ensures f.kids[p][k] in f.kids && KidTrees(f, v, p, k, k + 1) == [Tree(f, v, f.kids[p][k])]
  {
    hide Wf, Tree;
    ChildOf(f, p, f.kids[p][k]);
    assert KidTrees(f, v, p, k + 1, k + 1) == [];
  }
}
