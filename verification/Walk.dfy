/** Walking a tree in document order (mxml-search.c), on forests. */
module Walk {
  import opened CStrings
  import opened Forest

  ghost function NextSibling<T>(f: Forest<T>, n: T): (r: Option<T>)
    requires Wf(f) && n in f.kids
  {
    if f.up[n].None? then None
    else
      var s := f.kids[f.up[n].value];
      var i := IndexOf(s, n);
      if i + 1 < |s| then Some(s[i + 1]) else None
  }

  ghost function PrevSibling<T>(f: Forest<T>, n: T): (r: Option<T>)
    requires Wf(f) && n in f.kids
  {
    if f.up[n].None? then None
    else
      var s := f.kids[f.up[n].value];
      var i := IndexOf(s, n);
      if i > 0 then Some(s[i - 1]) else None
  }

  /** The node after the subtree of `n`, inside the subtree of `top`. */
  ghost function Following<T>(f: Forest<T>, n: T, top: T): (r: Option<T>)
    requires Wf(f) && n in f.kids
    decreases Higher(f, n)
  {
    if n == top then None
    else if NextSibling(f, n).Some? then NextSibling(f, n)
    else if f.up[n].None? || f.up[n].value == top then None
    else (ParentHigher(f, n); Following(f, f.up[n].value, top))
  }

  /** `mxmlWalkNext`. */
  ghost function Next<T>(f: Forest<T>, n: T, top: T, descend: bool): (r: Option<T>)
    requires Wf(f) && n in f.kids
  {
    if f.kids[n] != [] && descend then Some(f.kids[n][0]) else Following(f, n, top)
  }

  /** The last node of the subtree of `n` in document order. */
  ghost function LastBelow<T>(f: Forest<T>, n: T): (r: T)
    requires Wf(f) && n in f.kids
    decreases f.height[n]
  {
    if f.kids[n] == [] then n
    else
      var c := f.kids[n][|f.kids[n]| - 1];
      ChildOf(f, n, c);
      LastBelow(f, c)
  }

  /** `mxmlWalkPrev`. */
  ghost function Prev<T>(f: Forest<T>, n: T, top: T, descend: bool): (r: Option<T>)
    requires Wf(f) && n in f.kids
  {
    if n == top then None
    else if PrevSibling(f, n).Some? then
      var s := PrevSibling(f, n).value;
      SiblingIn(f, n);
      if descend then Some(LastBelow(f, s)) else Some(s)
    else if f.up[n] != Some(top) then f.up[n]
    else None
  }

  lemma SiblingIn<T>(f: Forest<T>, n: T)
    requires Wf(f) && n in f.kids
    ensures PrevSibling(f, n).Some? ==> PrevSibling(f, n).value in f.kids
    ensures NextSibling(f, n).Some? ==> NextSibling(f, n).value in f.kids
  {
    if f.up[n].Some? {
      var p := f.up[n].value;
      ChildOf(f, p, n);
      forall c | c in f.kids[p] ensures c in f.kids { ChildOf(f, p, c); }
    }
  }

  // -- Document order --------------------------------------------------------------------------------

  ghost function Preorder<T>(f: Forest<T>, n: T): (s: seq<T>)
    requires Wf(f) && n in f.kids
    decreases f.height[n], |f.kids[n]| + 1
  {
    [n] + PreorderFrom(f, n, 0)
  }

  /** The subtrees of the children of `p` from number `j` on. */
  ghost function PreorderFrom<T>(f: Forest<T>, p: T, j: nat): (s: seq<T>)
    requires Wf(f) && p in f.kids && j <= |f.kids[p]|
    decreases f.height[p], |f.kids[p]| - j
  {
    if j == |f.kids[p]| then []
    else
      ChildOf(f, p, f.kids[p][j]);
      Preorder(f, f.kids[p][j]) + PreorderFrom(f, p, j + 1)
  }

  /** Entry `i` is followed by entry `i + 1`, and the last one by `end`. */
  ghost predicate Chain<T>(f: Forest<T>, top: T, s: seq<T>, end: Option<T>)
    requires Wf(f)
  {
    && (forall i :: 0 <= i < |s| ==> s[i] in f.kids)
    && (forall i :: 0 < i < |s| ==> Next(f, s[i - 1], top, true) == Some(s[i]))
    && (s != [] ==> Next(f, s[|s| - 1], top, true) == end)
  }

  lemma ChainJoin<T>(f: Forest<T>, top: T, a: seq<T>, b: seq<T>, end: Option<T>)
    requires Wf(f) && Chain(f, top, a, if b == [] then end else Some(b[0])) && Chain(f, top, b, end)
    ensures Chain(f, top, a + b, end)
  {
    hide Wf, Next;
    var s := a + b;
    forall i | 0 <= i < |s| ensures s[i] in f.kids {
      assert s[i] == if i < |a| then a[i] else b[i - |a|];
    }
    forall i | 0 < i < |s| ensures Next(f, s[i - 1], top, true) == Some(s[i]) {
      assert s[i] == if i < |a| then a[i] else b[i - |a|];
    }
  }

  lemma FollowingKid<T>(f: Forest<T>, p: T, j: nat, top: T)
    requires Wf(f) && p in f.kids && j < |f.kids[p]| && f.kids[p][j] != top
    ensures var c := f.kids[p][j];
            c in f.kids && Following(f, c, top) ==
                           if j + 1 < |f.kids[p]| then Some(f.kids[p][j + 1]) else Following(f, p, top)
  {
    var c := f.kids[p][j];
    ChildOf(f, p, c);
    Unduplicated(f, p);
    IndexUnique(f.kids[p], j);
  }

  /** Inside the subtree of `n`, the walk follows document order; then it goes on after `n`. */
  lemma {:induction false} WalkSubtree<T>(f: Forest<T>, n: T, top: T)
    requires Wf(f) && n in f.kids && AboveOrSelf(f, top, n)
    ensures Chain(f, top, Preorder(f, n), Following(f, n, top))
    decreases f.height[n], |f.kids[n]| + 1
  {
    hide Wf, Following, AboveOrSelf;
    AboveItself(f, n);
    WalkKids(f, n, 0, top);
    var rest := PreorderFrom(f, n, 0);
    FirstOf(f, n, 0);
    assert Chain(f, top, [n], Next(f, n, top, true));
    assert Next(f, n, top, true) == if rest == [] then Following(f, n, top) else Some(rest[0]);
    ChainJoin(f, top, [n], rest, Following(f, n, top));
  }

  lemma FirstOf<T>(f: Forest<T>, p: T, j: nat)
    requires Wf(f) && p in f.kids && j <= |f.kids[p]|
    ensures j == |f.kids[p]| ==> PreorderFrom(f, p, j) == []
    ensures j < |f.kids[p]| ==> PreorderFrom(f, p, j) != [] && PreorderFrom(f, p, j)[0] == f.kids[p][j]
  {
    if j < |f.kids[p]| { ChildOf(f, p, f.kids[p][j]); }
  }

  lemma {:induction false} WalkKids<T>(f: Forest<T>, p: T, j: nat, top: T)
    requires Wf(f) && p in f.kids && j <= |f.kids[p]| && AboveOrSelf(f, top, p)
    ensures Chain(f, top, PreorderFrom(f, p, j), Following(f, p, top))
    decreases f.height[p], |f.kids[p]| - j
  {
    hide Wf, Following, AboveOrSelf, Chain;
    AboveItself(f, p);
    if j == |f.kids[p]| {
      assert Chain(f, top, [], Following(f, p, top)) by { EmptyChain(f, top, Following(f, p, top)); }
    } else {
      var c := f.kids[p][j];
      ChildOf(f, p, c);
      BelowTop(f, top, p, c);
      WalkSubtree(f, c, top);
      WalkKids(f, p, j + 1, top);
      FollowingKid(f, p, j, top);
      FirstOf(f, p, j + 1);
      ChainJoin(f, top, Preorder(f, c), PreorderFrom(f, p, j + 1), Following(f, p, top));
    }
  }

  lemma EmptyChain<T>(f: Forest<T>, top: T, end: Option<T>)
    requires Wf(f)
    ensures Chain(f, top, [], end)
  {
  }

  lemma BelowTop<T>(f: Forest<T>, top: T, p: T, c: T)
    requires Wf(f) && p in f.kids && c in f.kids && f.up[c] == Some(p) && AboveOrSelf(f, top, p)
    ensures AboveOrSelf(f, top, c) && c != top
  {
    ChildUp(f, p, c);
    AboveHigher(f, top, p);
  }

  lemma ChildUp<T>(f: Forest<T>, p: T, c: T)
    requires Wf(f) && c in f.kids && f.up[c] == Some(p)
    ensures p in f.kids && f.height[c] < f.height[p]
  {
    ParentHigher(f, c);
  }

  // -- Everything below top, once -----------------------------------------------------------------------

  /** Document order lists the subtree. */
  lemma {:induction false} PreorderLists<T>(f: Forest<T>, n: T)
    requires Wf(f) && n in f.kids
    ensures forall x :: x in Preorder(f, n) <==> x in Subtree(f, n)
    decreases f.height[n], |f.kids[n]| + 1
  {
    hide Wf;
    AboveItself(f, n);
    KidsList(f, n, 0);
    forall x ensures x in Preorder(f, n) <==> x in Subtree(f, n) {
      if x in Subtree(f, n) && x != n { ChildAbove(f, n, x); }
      if x in PreorderFrom(f, n, 0) {
        var k :| 0 <= k < |f.kids[n]| && x in Subtree(f, f.kids[n][k]);
        ChildOf(f, n, f.kids[n][k]);
        AboveUp(f, f.kids[n][k], x, n);
      }
    }
  }

  /** Below `n` but not `n`: below one of its children. */
  lemma {:induction false} ChildAbove<T>(f: Forest<T>, n: T, x: T)
    requires Wf(f) && x in f.kids && x != n && AboveOrSelf(f, n, x)
    ensures n in f.kids && InSomeKid(f, n, 0, x)
    decreases Higher(f, x)
  {
    hide Wf;
    AboveItself(f, x);
    ParentHigher(f, x);
    var p := f.up[x].value;
    if p == n {
      ChildOf(f, n, x);
      var k := IndexOf(f.kids[n], x);
      assert x in Subtree(f, f.kids[n][k]);
    } else {
      ChildAbove(f, n, p);
      var k :| 0 <= k < |f.kids[n]| && p in Subtree(f, f.kids[n][k]);
      assert x in Subtree(f, f.kids[n][k]);
    }
  }

  lemma {:induction false} KidsList<T>(f: Forest<T>, p: T, j: nat)
    requires Wf(f) && p in f.kids && j <= |f.kids[p]|
    ensures forall x :: x in PreorderFrom(f, p, j) <==> InSomeKid(f, p, j, x)
    decreases f.height[p], |f.kids[p]| - j
  {
    hide Wf, Subtree;
    AboveItself(f, p);
    if j < |f.kids[p]| {
      var c := f.kids[p][j];
      ChildOf(f, p, c);
      PreorderLists(f, c);
      KidsList(f, p, j + 1);
    }
  }

  /** `x` lies below one of the children of `p` from number `j` on. */
  ghost predicate InSomeKid<T>(f: Forest<T>, p: T, j: nat, x: T)
    requires Wf(f) && p in f.kids
  {
    exists k :: j <= k < |f.kids[p]| && x in Subtree(f, f.kids[p][k])
  }

  /** Two different children of a node are never both above the same node. */
  lemma {:induction false} OneChildAbove<T>(f: Forest<T>, p: T, a: T, b: T, x: T)
    requires Wf(f) && x in Subtree(f, a) && x in Subtree(f, b)
    requires a in f.kids && b in f.kids && f.up[a] == Some(p) && f.up[b] == Some(p)
    ensures a == b
    decreases Higher(f, x)
  {
    hide Wf;
    ChildUp(f, p, a);
    AboveItself(f, x);
    if x == a && x != b {
      ParentHigher(f, x);
      AboveHigher(f, b, p);
      ChildUp(f, p, b);
    } else if x == b && x != a {
      ParentHigher(f, x);
      AboveHigher(f, a, p);
    } else if x != a {
      ParentHigher(f, x);
      OneChildAbove(f, p, a, b, f.up[x].value);
    }
  }

  lemma {:induction false} PreorderOnce<T>(f: Forest<T>, n: T)
    requires Wf(f) && n in f.kids
    ensures NoDuplicates(Preorder(f, n))
    decreases f.height[n], |f.kids[n]| + 1
  {
    hide Wf, NoDuplicates, AboveOrSelf;
    AboveItself(f, n);
    KidsOnce(f, n, 0);
    KidsList(f, n, 0);
    forall x | x in PreorderFrom(f, n, 0) ensures x != n {
      assert InSomeKid(f, n, 0, x);
      var k :| 0 <= k < |f.kids[n]| && x in Subtree(f, f.kids[n][k]);
      NotItself(f, n, f.kids[n][k], x);
    }
    OneAlone(n);
    Disjoint([n], PreorderFrom(f, n, 0));
  }

  lemma OneAlone<T>(n: T)
    ensures NoDuplicates([n])
  {
  }

  lemma NotItself<T>(f: Forest<T>, p: T, c: T, x: T)
    requires Wf(f) && p in f.kids && c in f.kids[p] && x in Subtree(f, c)
    ensures x != p
  {
    ChildOf(f, p, c);
    AboveHigher(f, c, x);
  }

  lemma {:induction false} KidsOnce<T>(f: Forest<T>, p: T, j: nat)
    requires Wf(f) && p in f.kids && j <= |f.kids[p]|
    ensures NoDuplicates(PreorderFrom(f, p, j))
    decreases f.height[p], |f.kids[p]| - j
  {
    hide Wf, NoDuplicates, AboveOrSelf;
    AboveItself(f, p);
    if j == |f.kids[p]| {
      NoneAlone<T>();
    } else {
      var c := f.kids[p][j];
      ChildOf(f, p, c);
      PreorderOnce(f, c);
      PreorderLists(f, c);
      KidsOnce(f, p, j + 1);
      KidsList(f, p, j + 1);
      forall x | x in PreorderFrom(f, p, j + 1) ensures x !in Preorder(f, c) {
        assert InSomeKid(f, p, j + 1, x);
        var k :| j + 1 <= k < |f.kids[p]| && x in Subtree(f, f.kids[p][k]);
        TwoChildren(f, p, j, k, x);
      }
      Disjoint(Preorder(f, c), PreorderFrom(f, p, j + 1));
    }
  }

  lemma NoneAlone<T>()
    ensures NoDuplicates<T>([])
  {
  }

  lemma TwoChildren<T>(f: Forest<T>, p: T, j: nat, k: nat, x: T)
    requires Wf(f) && p in f.kids && j < k < |f.kids[p]| && x in Subtree(f, f.kids[p][k])
    ensures x !in Subtree(f, f.kids[p][j])
  {
    if x in Subtree(f, f.kids[p][j]) {
      ChildOf(f, p, f.kids[p][j]);
      ChildOf(f, p, f.kids[p][k]);
      Unduplicated(f, p);
      OneChildAbove(f, p, f.kids[p][j], f.kids[p][k], x);
    }
  }

  /** Starting at `top` and walking with MXML_DESCEND visits the whole subtree in document order, each
      node once, and then ends without leaving `top`. */
  lemma WalkVisitsAll<T>(f: Forest<T>, top: T)
    requires Wf(f) && top in f.kids
    ensures Preorder(f, top)[0] == top && Chain(f, top, Preorder(f, top), None)
    ensures NoDuplicates(Preorder(f, top)) && forall x :: x in Preorder(f, top) <==> x in Subtree(f, top)
  {
    hide Wf, NoDuplicates, Subtree, Chain;
    AboveItself(f, top);
    WalkSubtree(f, top, top);
    PreorderOnce(f, top);
    PreorderLists(f, top);
  }

  /** Two chains from the same node agree as far as both go. */
  lemma {:induction false} SameChain<T>(f: Forest<T>, top: T, s: seq<T>, i: nat, a: seq<T>, end: Option<T>, k: nat)
    requires Wf(f) && Chain(f, top, s, None) && Chain(f, top, a, end) && i < |s| && k < |a| && a[0] == s[i]
    ensures i + k < |s| && a[k] == s[i + k]
    decreases k
  {
    hide Wf, Next;
    if k > 0 {
      SameChain(f, top, s, i, a, end, k - 1);
      assert Next(f, a[k - 1], top, true) == Some(a[k]);
      ChainAt(f, top, s, i + k - 1);
    }
  }

  lemma ChainAt<T>(f: Forest<T>, top: T, s: seq<T>, i: nat)
    requires Wf(f) && Chain(f, top, s, None) && i < |s|
    ensures s[i] in f.kids && Next(f, s[i], top, true) == if i + 1 < |s| then Some(s[i + 1]) else None
  {
    hide Wf, Next;
    if i + 1 < |s| {
      var k := i + 1;
      assert Next(f, s[k - 1], top, true) == Some(s[k]);
    }
  }

  /** With MXML_NO_DESCEND the walk goes past the subtree of the node: in the document order of `top`, where that
      stands in one piece, to the entry after it, or it ends. */
  lemma SubtreeSkipped<T>(f: Forest<T>, top: T, i: nat)
    requires Wf(f) && top in f.kids && i < |Preorder(f, top)|
    ensures var s := Preorder(f, top);
            && s[i] in f.kids
            && var j := i + |Preorder(f, s[i])|;
            && j <= |s| && s[i..j] == Preorder(f, s[i])
            && Next(f, s[i], top, false) == if j < |s| then Some(s[j]) else None
  {
    hide Wf, NoDuplicates, Chain, AboveOrSelf, Following, Preorder, Next;
    var s := Preorder(f, top);
    WalkVisitsAll(f, top);
    ChainAt(f, top, s, i);
    var n := s[i];
    assert n in Subtree(f, top);
    WalkSubtree(f, n, top);
    StartsWithItself(f, n, top);
    var a := Preorder(f, n);
    forall k | 0 <= k < |a| ensures i + k < |s| && a[k] == s[i + k] {
      SameChain(f, top, s, i, a, Following(f, n, top), k);
    }
    var last := |a| - 1;
    assert a[last] == s[i + last];
    ChainAt(f, top, s, i + last);
    ChainEnds(f, top, a, Following(f, n, top));
  }

  lemma StartsWithItself<T>(f: Forest<T>, n: T, top: T)
    requires Wf(f) && n in f.kids
    ensures Preorder(f, n) != [] && Preorder(f, n)[0] == n && Next(f, n, top, false) == Following(f, n, top)
  {
  }

  lemma ChainEnds<T>(f: Forest<T>, top: T, a: seq<T>, end: Option<T>)
    requires Wf(f) && Chain(f, top, a, end) && a != []
    ensures a[|a| - 1] in f.kids && Next(f, a[|a| - 1], top, true) == end
  {
  }

  // -- Backwards --------------------------------------------------------------------------------------------

  lemma {:induction false} LastOfPreorder<T>(f: Forest<T>, n: T)
    requires Wf(f) && n in f.kids
    ensures Preorder(f, n)[|Preorder(f, n)| - 1] == LastBelow(f, n)
    decreases f.height[n], |f.kids[n]| + 1
  {
    hide Wf;
    AboveItself(f, n);
    if f.kids[n] != [] {
      LastOfKids(f, n, 0);
    }
  }

  lemma {:induction false} LastOfKids<T>(f: Forest<T>, p: T, j: nat)
    requires Wf(f) && p in f.kids && j < |f.kids[p]|
    ensures var s := PreorderFrom(f, p, j); s != [] && s[|s| - 1] == LastBelow(f, p)
    decreases f.height[p], |f.kids[p]| - j
  {
    hide Wf;
    AboveItself(f, p);
    var c := f.kids[p][j];
    ChildOf(f, p, c);
    if j + 1 < |f.kids[p]| {
      LastOfKids(f, p, j + 1);
    } else {
      LastOfPreorder(f, c);
    }
  }

  /** Walking back from entry `i` leads to entry `i - 1`, from the first to `start`. */
  ghost predicate BackChain<T>(f: Forest<T>, top: T, s: seq<T>, start: Option<T>)
    requires Wf(f)
  {
    && (forall i :: 0 <= i < |s| ==> s[i] in f.kids)
    && (forall i :: 0 < i < |s| ==> Prev(f, s[i], top, true) == Some(s[i - 1]))
    && (s != [] ==> Prev(f, s[0], top, true) == start)
  }

  lemma BackJoin<T>(f: Forest<T>, top: T, a: seq<T>, b: seq<T>, start: Option<T>)
    requires Wf(f) && a != [] && BackChain(f, top, a, start) && BackChain(f, top, b, Some(a[|a| - 1]))
    ensures BackChain(f, top, a + b, start)
  {
    hide Wf, Prev;
    var s := a + b;
    forall i | 0 <= i < |s| ensures s[i] in f.kids {
      assert s[i] == if i < |a| then a[i] else b[i - |a|];
    }
    forall i | 0 < i < |s| ensures Prev(f, s[i], top, true) == Some(s[i - 1]) {
      assert s[i] == if i < |a| then a[i] else b[i - |a|];
    }
  }

  lemma PrevKid<T>(f: Forest<T>, p: T, j: nat, top: T)
    requires Wf(f) && p in f.kids && j < |f.kids[p]| && f.kids[p][j] != top
    ensures f.kids[p][j] in f.kids
    ensures j > 0 ==>
            f.kids[p][j - 1] in f.kids && Prev(f, f.kids[p][j], top, true) == Some(LastBelow(f, f.kids[p][j - 1]))
    ensures j == 0 ==> Prev(f, f.kids[p][j], top, true) == if p == top then None else Some(p)
  {
    ChildOf(f, p, f.kids[p][j]);
    Unduplicated(f, p);
    IndexUnique(f.kids[p], j);
    SiblingIn(f, f.kids[p][j]);
  }

  /** With MXML_NO_DESCEND the walk goes back to the child before, from the first child to the parent, and never
      to or past `top`. */
  lemma BackToSibling<T>(f: Forest<T>, p: T, j: nat, top: T)
    requires Wf(f) && p in f.kids && j < |f.kids[p]|
    ensures f.kids[p][j] in f.kids
    ensures Prev(f, f.kids[p][j], top, false) ==
            if f.kids[p][j] == top then None
            else if j > 0 then Some(f.kids[p][j - 1])
            else if p == top then None else Some(p)
  {
    ChildOf(f, p, f.kids[p][j]);
    Unduplicated(f, p);
    IndexUnique(f.kids[p], j);
  }

  lemma {:induction false} BackSubtree<T>(f: Forest<T>, n: T, top: T)
    requires Wf(f) && n in f.kids && AboveOrSelf(f, top, n) && n != top
    ensures BackChain(f, top, Preorder(f, n), Prev(f, n, top, true))
    decreases f.height[n], |f.kids[n]| + 1
  {
    hide Wf, AboveOrSelf, Prev;
    AboveItself(f, n);
    BackKids(f, n, 0, top);
    BackJoin(f, top, [n], PreorderFrom(f, n, 0), Prev(f, n, top, true));
  }

  lemma {:induction false} BackKids<T>(f: Forest<T>, p: T, j: nat, top: T)
    requires Wf(f) && p in f.kids && j <= |f.kids[p]| && AboveOrSelf(f, top, p)
    ensures j > 0 && j < |f.kids[p]| ==> f.kids[p][j - 1] in f.kids
    ensures BackChain(f, top, PreorderFrom(f, p, j),
                      if j == |f.kids[p]| then None
                      else if j > 0 then Some(LastBelow(f, f.kids[p][j - 1])) else if p == top then None else Some(p))
    ensures p != top && j == 0 ==> BackChain(f, top, PreorderFrom(f, p, 0), Some(p))
    decreases f.height[p], |f.kids[p]| - j
  {
    hide Wf, AboveOrSelf, BackChain, Prev, LastBelow;
    AboveItself(f, p);
    if j == |f.kids[p]| {
      EmptyBack(f, top, None);
      EmptyBack(f, top, Some(p));
    } else {
      var c := f.kids[p][j];
      ChildOf(f, p, c);
      BelowTop(f, top, p, c);
      PrevKid(f, p, j, top);
      BackSubtree(f, c, top);
      BackKids(f, p, j + 1, top);
      LastOfPreorder(f, c);
      if j + 1 == |f.kids[p]| {
        EmptyBack(f, top, Some(LastBelow(f, c)));
      }
      BackJoin(f, top, Preorder(f, c), PreorderFrom(f, p, j + 1), Prev(f, c, top, true));
    }
  }

  lemma EmptyBack<T>(f: Forest<T>, top: T, start: Option<T>)
    requires Wf(f)
    ensures BackChain(f, top, [], start)
  {
  }

  /** `mxmlWalkPrev` undoes `mxmlWalkNext` at every node below `top`, except that it returns NULL
      instead of `top` at the first child of `top`. */
  lemma PrevUndoesNext<T>(f: Forest<T>, top: T)
    requires Wf(f) && top in f.kids
    ensures BackChain(f, top, Preorder(f, top)[1..], None)
  {
    hide Wf, BackChain, AboveOrSelf;
    AboveItself(f, top);
    BackKids(f, top, 0, top);
    assert Preorder(f, top)[1..] == PreorderFrom(f, top, 0);
  }
}
