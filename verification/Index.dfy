/** The index of a tree (mxml-index.c): `mxmlIndexNew`, `mxmlIndexReset`, `mxmlIndexEnum` and
    `mxmlIndexFind`. */
module Index {
  import opened CStrings
  import opened F = Forest
  import opened NodeTree
  import opened Walk
  import opened TreeSearch
  import opened IndexSort
  import opened IndexFind
  import XmlTree

  /** The entries of `s` that are in `w`, in their order. */
  ghost function Keep(s: seq<Node>, w: set<Node>): (r: seq<Node>) {
    if s == [] then [] else (if s[0] in w then [s[0]] else []) + Keep(s[1..], w)
  }

  lemma {:induction false} KeepAppend(a: seq<Node>, b: seq<Node>, w: set<Node>)
    ensures Keep(a + b, w) == Keep(a, w) + Keep(b, w)
  {
    if a == [] {
      assert a + b == b;
    } else {
      KeepAppend(a[1..], b, w);
      assert (a + b)[1..] == a[1..] + b && (a + b)[0] == a[0];
      var first := if a[0] in w then [a[0]] else [];
      assert first + (Keep(a[1..], w) + Keep(b, w)) == first + Keep(a[1..], w) + Keep(b, w);
    }
  }

  lemma {:induction false} KeepNone(s: seq<Node>, w: set<Node>)
    requires forall i :: 0 <= i < |s| ==> s[i] !in w
    ensures Keep(s, w) == []
  {
    if s != [] {
      KeepNone(s[1..], w);
    }
  }

  /** The nodes of `s` that `mxmlFindElement` would stop at. */
  ghost function WantedOf(s: seq<Node>, name: Option<string>, attr: Option<string>, value: Option<string>)
    : (r: set<Node>)
    reads set n | n in s
  {
    set n | n in s && Wanted(n.value, name, attr, value)
  }

  /** What `mxmlFindElement` finds along `s`. */
  ghost function Hits(s: seq<Node>, name: Option<string>, attr: Option<string>, value: Option<string>): (r: seq<Node>)
    reads set n | n in s
  {
    Keep(s, WantedOf(s, name, attr, value))
  }

  /** The nodes an index covers: the descendants of `top`, and `top` itself when neither an element name
      nor an attribute is given. */
  ghost function Scope(f: Shape, top: Node, element: Option<string>, attr: Option<string>): (r: seq<Node>)
    requires Wf(f) && top in f.kids
  {
    FirstIsTop(f, top);
    if element.None? && attr.None? then Preorder(f, top) else Preorder(f, top)[1..]
  }

  lemma FirstIsTop(f: Shape, top: Node)
    requires Wf(f) && top in f.kids
    ensures |Preorder(f, top)| > 0 && Preorder(f, top)[0] == top
  {
  }

  ghost function Keys(s: seq<Node>, attr: Option<string>): (r: seq<Key>)
    reads set n | n in s
    ensures |r| == |s| && forall i :: 0 <= i < |s| ==> r[i] == KeyOf(s[i].value, attr)
  {
    seq(|s|, i requires 0 <= i < |s| reads set n | n in s => KeyOf(s[i].value, attr))
  }

  /** `mxmlFindElement` from entry `i` of the document order `s` to entry `j`, on an index that starts at
      entry `b`. */
  lemma NextHit(s: seq<Node>, b: nat, i: nat, j: nat, w: set<Node>)
    requires b <= i + 1 && i < j <= |s| && forall k :: i < k < j ==> s[k] !in w
    requires j < |s| ==> s[j] in w
    ensures j < |s| ==> Keep(s[b..j + 1], w) == Keep(s[b..i + 1], w) + [s[j]]
    ensures j == |s| ==> Keep(s[b..], w) == Keep(s[b..i + 1], w)
  {
    var seen, skipped := s[b..i + 1], s[i + 1..j];
    KeepNone(skipped, w);
    assert s[b..j] == seen + skipped;
    KeepAppend(seen, skipped, w);
    if j < |s| {
      KeepAppend(s[b..j], [s[j]], w);
      assert s[b..j + 1] == s[b..j] + [s[j]];
      assert Keep([s[j]], w) == [s[j]];
    } else {
      assert s[b..j] == s[b..];
    }
  }

  /** What sorts an index: the keys of its nodes, as a function of the node. */
  ghost function KeyMap(s: seq<Node>, attr: Option<string>): (key: Node -> Key)
    reads set n | n in s
    ensures Keyed(s, attr, key)
  {
    var m := map n | n in s :: KeyOf(n.value, attr);
    n => if n in m then m[n] else Key("", "")
  }

  lemma KeyedSorted(s: seq<Node>, attr: Option<string>, key: Node -> Key)
    requires Keyed(s, attr, key) && SortedKeys(s, key)
    ensures Sorted(Keys(s, attr))
  {
    hide Le;
    forall i | 0 <= i < |s| ensures Keys(s, attr)[i] == key(s[i]) {
      KeyedAt(s, attr, key, i);
    }
  }

  lemma FrontShuffled(s: seq<Node>, t: seq<Node>, n: nat, attr: Option<string>, key: Node -> Key)
    requires n <= |s| && Shuffled(s, t, 0, n) && Keyed(s, attr, key)
    ensures Permutation(s[..n], t[..n]) && Keyed(t[..n], attr, key) && t[..n] == t[0..n]
  {
    assert s[..n] == s[0..n] && t[..n] == t[0..n];
    ShuffledAll(s, t, 0, n);
  }

  lemma ListedIn(s: seq<Node>, b: nat)
    requires b <= |s|
    ensures forall k :: b <= k < |s| ==> s[k] in s[b..]
  {
    forall k | b <= k < |s| ensures s[k] in s[b..] { assert s[b..][k - b] == s[k]; }
  }

  lemma AllInShape(f: Shape, top: Node)
    requires Wf(f) && top in f.kids
    ensures forall k :: 0 <= k < |Preorder(f, top)| ==> Preorder(f, top)[k] in f.kids
  {
    hide Wf, Preorder;
    WalkVisitsAll(f, top);
  }

  lemma AnyElement(v: Payload)
    ensures Wanted(v, None, None, None) <==> v.ElementValue?
  {
  }

  lemma {:induction false} KeptAre(s: seq<Node>, w: set<Node>, x: Node)
    ensures x in Keep(s, w) <==> x in s && x in w
  {
    if s != [] {
      KeptAre(s[1..], w, x);
      assert x in s <==> x == s[0] || x in s[1..];
    }
  }

  /** An index holds the elements below `top` that have the name and the attribute given; `top` itself only when neither
      is given. */
  lemma IndexHolds(f: Shape, top: Node, element: Option<string>, attr: Option<string>, x: Node)
    requires Wf(f) && top in f.kids
    ensures x in Hits(Scope(f, top, element, attr), element, attr, None) <==>
              && x in Subtree(f, top) && (x == top ==> element.None? && attr.None?)
              && Wanted(x.value, element, attr, None)
  {
    hide Wf, Preorder, Wanted, Keep, Subtree, Chain;
    var s, order := Preorder(f, top), Scope(f, top, element, attr);
    WalkVisitsAll(f, top);
    FirstIsTop(f, top);
    KeptAre(order, WantedOf(order, element, attr, None), x);
    assert x in s <==> x == top || x in s[1..];
    assert top !in s[1..];
  }

  lemma KeepTop(n: Node, w: set<Node>)
    requires n in w
    ensures Keep([n], w) == [n]
  {
  }

  lemma SearchStep(s: seq<Key>, element: Option<string>, value: Option<string>, first: nat, last: nat)
    requires first <= last < |s|
    ensures var current := (first + last) / 2;
            Search(s, element, value, first, last) ==
            if last - first <= 1 then Between(s, element, value, first, last)
            else if Probe(element, value, s[current]) == 0 then Some(RunStart(s, element, value, current))
            else if Probe(element, value, s[current]) < 0 then Search(s, element, value, first, current)
            else Search(s, element, value, current, last)
  {
  }

  /** Where the search for nodes starts. */
  lemma Start(f: Shape, top: Node, element: Option<string>, attr: Option<string>, b: nat, w: set<Node>)
    requires Wf(f) && top in f.kids && w == WantedOf(Scope(f, top, element, attr), element, attr, None)
    requires b == if element.None? && attr.None? then 0 else 1
    requires element.None? && attr.None? ==> top.value.ElementValue?
    ensures var s := Preorder(f, top);
            && |s| > 0 && s[0] == top && Scope(f, top, element, attr) == s[b..]
            && Keep(s[b..1], w) == if b == 0 then [top] else []
  {
    hide Wf, Preorder, Wanted;
    FirstIsTop(f, top);
    AnyElement(top.value);
    var s := Preorder(f, top);
    if b == 0 {
      assert s[0..1] == [top] && s[b..][0] == top;
      KeepTop(top, w);
    }
  }

  class Index {
    var attr: Option<string>
    var nodes: array<Node>
    var numNodes: nat
    var curNode: nat

    ghost predicate Valid()
      reads this
    {
      numNodes <= nodes.Length && curNode <= numNodes
    }

    ghost function Entries(): (s: seq<Node>)
      requires Valid()
      reads this, nodes
    {
      nodes[..numNodes]
    }

    /** `mxmlIndexNew`: the nodes `mxmlFindElement` finds in document order, then sorted. */
    constructor (node: Node, element: Option<string>, attr: Option<string>, ghost f: Shape)
      requires Wf(f) && Links(f) && node in f.kids
      requires element.None? && attr.None? ==> node.value.ElementValue?
      ensures Valid() && fresh(nodes) && this.attr == attr && curNode == 0
      ensures Permutation(Hits(Scope(f, node, element, attr), element, attr, None), Entries())
      ensures Sorted(Keys(Entries(), attr))
    {
      hide Wf, Links, Preorder, Wanted, Keep, Permutation, Sorted, Keys;
      this.attr := attr;
      nodes := new Node[0];
      numNodes, curNode := 0, 0;
      new;
      ghost var scope := Scope(f, node, element, attr);
      ghost var w := WantedOf(scope, element, attr, None);
      Collect(node, element, f, w);
      SortAll();
      assert WantedOf(scope, element, attr, None) == w;
    }

    /** The next node for the index, after entry `was` of the document order. */
    method NextFound(current: Node, node: Node, element: Option<string>, ghost f: Shape, ghost b: nat,
                     ghost was: nat, ghost w: set<Node>)
      returns (next: Node?, ghost i: nat)
      requires Valid() && Wf(f) && Links(f) && node in f.kids
      requires var s := Preorder(f, node);
               b <= was + 1 && was < |s| && s[was] == current && w == WantedOf(s[b..], element, attr, None)
      ensures var s := Preorder(f, node);
              && was < i <= |s| && (next == null <==> i == |s|)
              && (next != null ==> s[i] == next && Keep(s[b..i + 1], w) == Keep(s[b..was + 1], w) + [next])
              && (next == null ==> Keep(s[b..], w) == Keep(s[b..was + 1], w))
    {
      hide Wf, Links, Preorder, Keep, Wanted;
      ghost var s := Preorder(f, node);
      ListedIn(s, b);
      AllInShape(f, node);
      assert forall k :: b <= k < |s| ==> (s[k] in w <==> Wanted(s[k].value, element, attr, None));
      ghost var seen;
      next, seen := FindElement(current, node, element, attr, None, Descend, f);
      SeenInOrder(f, node, was, seen, Opt(next));
      i := was + 1 + |seen|;
      assert forall k :: was < k < i ==> s[k] == seen[k - was - 1];
      NextHit(s, b, was, i, w);
    }

    /** One turn of the loop of `mxmlIndexNew`: the node found is added, and the next one is looked for. */
    method AppendNext(current: Node, node: Node, element: Option<string>, ghost f: Shape, ghost b: nat, ghost was: nat,
                      ghost w: set<Node>)
      returns (next: Node?, ghost i: nat)
      requires Valid() && Wf(f) && Links(f) && node in f.kids
      requires var s := Preorder(f, node);
               && b <= was < |s| && s[was] == current && w == WantedOf(s[b..], element, attr, None)
               && Keep(s[b..was + 1], w) == nodes[..numNodes] + [current]
      modifies this, nodes
      ensures Valid() && attr == old(attr) && curNode == old(curNode) && (nodes == old(nodes) || fresh(nodes))
      ensures var s := Preorder(f, node);
              && was < i <= |s| && (next == null <==> i == |s|) && w == WantedOf(s[b..], element, attr, None)
              && (next != null ==> s[i] == next && Keep(s[b..i + 1], w) == nodes[..numNodes] + [next])
              && (next == null ==> Keep(s[b..], w) == nodes[..numNodes])
    {
      hide Wf, Links, Preorder, Keep, Wanted;
      ghost var s := Preorder(f, node);
      AllInShape(f, node);
      Append(current);
      assert forall n :: n in s[b..] ==> n in f.kids && n.value == old(n.value);
      next, i := NextFound(current, node, element, f, b, was, w);
    }

    /** The loop of `mxmlIndexNew`. */
    method Collect(node: Node, element: Option<string>, ghost f: Shape, ghost w: set<Node>)
      requires Valid() && numNodes == 0
      requires Wf(f) && Links(f) && node in f.kids
      requires element.None? && attr.None? ==> node.value.ElementValue?
      requires w == WantedOf(Scope(f, node, element, attr), element, attr, None)
      modifies this, nodes
      ensures Valid() && attr == old(attr) && curNode == old(curNode) && (nodes == old(nodes) || fresh(nodes))
      ensures Entries() == Keep(Scope(f, node, element, attr), w)
    {
      hide Wf, Links, Preorder, Keep, Wanted;
      ghost var s := Preorder(f, node);
      ghost var b, i := if element.None? && attr.None? then 0 else 1, 0;
      var current: Node? := node;
      Start(f, node, element, attr, b, w);
      AllInShape(f, node);
      if !(element.None? && attr.None?) {
        current, i := NextFound(node, node, element, f, b, 0, w);
      }
      while current != null
        invariant Valid() && attr == old(attr) && curNode == old(curNode) && (nodes == old(nodes) || fresh(nodes))
        invariant current != null ==>
                  b <= i < |s| && s[i] == current && Keep(s[b..i + 1], w) == nodes[..numNodes] + [current]
        invariant current == null ==> Keep(s[b..], w) == nodes[..numNodes]
        invariant w == WantedOf(s[b..], element, attr, None)
        decreases |s| - i, current != null
      {
        current, i := AppendNext(current, node, element, f, b, i, w);
      }
    }

    /** Adds a node to an index under construction; the array grows by 64 entries at a time. */
    method Append(n: Node)
      requires Valid()
      modifies this, nodes
      ensures Valid() && attr == old(attr) && curNode == old(curNode) && (nodes == old(nodes) || fresh(nodes))
      ensures nodes[..numNodes] == old(nodes[..numNodes]) + [n]
    {
      if numNodes >= nodes.Length {
        var temp := new Node[nodes.Length + 64](_ => n);
        forall i | 0 <= i < numNodes { temp[i] := nodes[i]; }
        nodes := temp;
      }
      nodes[numNodes] := n;
      numNodes := numNodes + 1;
    }

    method SortAll()
      requires Valid()
      modifies nodes
      ensures Permutation(old(Entries()), Entries())
      ensures Sorted(Keys(Entries(), attr))
    {
      hide Permutation, SortedKeys, Le;
      ghost var key := KeyMap(nodes[..], attr);
      if numNodes > 1 {
        Sort(nodes, 0, numNodes - 1, attr, key);
      } else {
        SortedShort(nodes[..numNodes], key);
        NotShuffled(nodes[..], 0, numNodes);
      }
      FrontShuffled(old(nodes[..]), nodes[..], numNodes, attr, key);
      KeyedSorted(Entries(), attr, key);
    }

    /** `mxmlIndexReset`. */
    method Reset() returns (r: Node?)
      requires Valid()
      modifies this`curNode
      ensures Valid() && curNode == 0
      ensures r == AtOrNull(Entries(), 0)
    {
      curNode := 0;
      if numNodes > 0 {
        return nodes[0];
      } else {
        return null;
      }
    }

    /** `mxmlIndexEnum`. */
    method Enum() returns (r: Node?)
      requires Valid()
      modifies this`curNode
      ensures Valid()
      ensures var a := Enumerate(Keys(Entries(), attr), old(curNode));
              curNode == a.cursor && r == At(Entries(), a.at)
    {
      if curNode < numNodes {
        curNode := curNode + 1;
        return nodes[curNode - 1];
      } else {
        return null;
      }
    }

    /** `mxmlIndexFind`. */
    method Find(element: Option<string>, value: Option<string>) returns (r: Node?)
      requires Valid()
      modifies this`curNode
      ensures Valid()
      ensures var a := IndexFind.Find(Keys(Entries(), attr), attr.Some?, element, value, old(curNode));
              curNode == a.cursor && r == At(Entries(), a.at)
    {
      hide Probe, Search, Keys, KeyOf;
      ghost var s := Keys(Entries(), attr);
      if attr.None? && value.Some? {
        return null;
      }
      if element.None? && value.None? {
        r := Enum();
        return;
      }
      if numNodes == 0 {
        return null;
      }
      if curNode == 0 {
        var found, at := FindFirst(element, value, s);
        if found {
          curNode := at + 1;
          return nodes[at];
        }
        curNode := numNodes;
        return null;
      } else if curNode < numNodes {
        var diff := Diff(element, value, curNode, s);
        if diff == 0 {
          curNode := curNode + 1;
          return nodes[curNode - 1];
        }
      }
      curNode := numNodes;
      return null;
    }

    /** `index_find` on entry `i`. */
    method Diff(element: Option<string>, value: Option<string>, i: nat, ghost s: seq<Key>) returns (diff: int)
      requires Valid() && i < numNodes && s == Keys(Entries(), attr)
      ensures diff == Probe(element, value, s[i])
    {
      hide KeyOf, StrCmp, Keys;
      var k := KeyOf(nodes[i].value, attr);
      if element.Some? {
        diff := StrCmp(element.value, k.name);
        if diff != 0 {
          return;
        }
      }
      if value.Some? {
        diff := StrCmp(value.value, k.val);
        if diff != 0 {
          return;
        }
      }
      diff := 0;
    }

    /** The modified binary search of `mxmlIndexFind`. */
    method FindFirst(element: Option<string>, value: Option<string>, ghost s: seq<Key>)
      returns (found: bool, current: nat)
      requires Valid() && numNodes > 0 && s == Keys(Entries(), attr)
      ensures var r := Search(s, element, value, 0, numNodes - 1);
              found == r.Some? && (found ==> current == r.value)
    {
      hide Probe, Keys, KeyOf, RunStart, Between, Search;
      var first: nat, last: nat := 0, numNodes - 1;
      ghost var goal := Search(s, element, value, first, last);
      while last - first > 1
        invariant first <= last < numNodes && Search(s, element, value, first, last) == goal
        decreases last - first
      {
        SearchStep(s, element, value, first, last);
        current := (first + last) / 2;
        var diff := Diff(element, value, current, s);
        if diff == 0 {
          current := MoveBack(element, value, current, s);
          return true, current;
        } else if diff < 0 {
          last := current;
        } else {
          first := current;
        }
      }
      SearchStep(s, element, value, first, last);
      found, current := FindBetween(element, value, first, last, s);
    }

    method FindBetween(element: Option<string>, value: Option<string>, first: nat, last: nat, ghost s: seq<Key>)
      returns (found: bool, current: nat)
      requires Valid() && first <= last < numNodes && s == Keys(Entries(), attr)
      ensures var r := Between(s, element, value, first, last);
              found == r.Some? && (found ==> current == r.value)
    {
      hide Probe, Keys;
      current := first;
      while current <= last
        invariant first <= current <= last + 1
        invariant Between(s, element, value, current, last) == Between(s, element, value, first, last)
      {
        var diff := Diff(element, value, current, s);
        if diff == 0 {
          return true, current;
        }
        current := current + 1;
      }
      return false, 0;
    }

    /** Back over the matches before entry `start`. */
    method MoveBack(element: Option<string>, value: Option<string>, start: nat, ghost s: seq<Key>)
      returns (current: nat)
      requires Valid() && start < numNodes && s == Keys(Entries(), attr)
      ensures current == RunStart(s, element, value, start)
    {
      hide Probe, Keys;
      current := start;
      while current > 0
        invariant current <= start
        invariant RunStart(s, element, value, current) == RunStart(s, element, value, start)
      {
        var diff := Diff(element, value, current - 1, s);
        if diff != 0 {
          return;
        }
        current := current - 1;
      }
    }
  }

  function At(s: seq<Node>, i: Option<nat>): (r: Node?) {
    if i.Some? && i.value < |s| then s[i.value] else null
  }

  // -- The index against the search ---------------------------------------------------------------------

  /** The nodes that the calls of `mxmlIndexFind` give which find something. */
  ghost function Found(s: seq<Node>, m: seq<nat>): (r: seq<Node>)
    requires forall i :: 0 <= i < |m| ==> m[i] < |s|
  {
    seq(|m|, i requires 0 <= i < |m| => s[m[i]])
  }

  lemma {:induction false} FoundKept(s: seq<Node>, k: seq<Key>, element: Option<string>, value: Option<string>,
                                     from: nat, w: set<Node>)
    requires |k| == |s| && from <= |s|
    requires forall i :: 0 <= i < |s| ==> (s[i] in w <==> Probe(element, value, k[i]) == 0)
    ensures Found(s, Matches(k, element, value, from)) == Keep(s[from..], w)
    decreases |s| - from
  {
    hide Probe;
    if from < |s| {
      hide Found;
      FoundKept(s, k, element, value, from + 1, w);
      KeepFrom(s, from, w);
      FoundStep(s, from, Matches(k, element, value, from + 1));
    }
  }

  lemma KeepFrom(s: seq<Node>, from: nat, w: set<Node>)
    requires from < |s|
    ensures Keep(s[from..], w) == (if s[from] in w then [s[from]] else []) + Keep(s[from + 1..], w)
  {
    assert s[from..][0] == s[from] && s[from..][1..] == s[from + 1..];
  }

  lemma FoundStep(s: seq<Node>, i: nat, m: seq<nat>)
    requires i < |s| && forall j :: 0 <= j < |m| ==> m[j] < |s|
    ensures Found(s, [i] + m) == [s[i]] + Found(s, m)
  {
  }

  ghost function Count(s: seq<Node>, x: Node): (n: nat) {
    multiset(s)[x]
  }

  lemma CountsAgree(a: seq<Node>, b: seq<Node>)
    requires forall x: Node :: Count(a, x) == Count(b, x)
    ensures Permutation(a, b)
  {
    var m: multiset<Node>, n: multiset<Node> := multiset(a), multiset(b);
    forall x: Node ensures m[x] == n[x] { assert Count(a, x) == Count(b, x); }
    assert m == n;
    assert |a| == |m| && |b| == |n|;
  }

  lemma {:induction false} KeepCount(s: seq<Node>, w: set<Node>, x: Node)
    ensures Count(Keep(s, w), x) == if x in w then Count(s, x) else 0
  {
    if s != [] {
      KeepCount(s[1..], w, x);
      assert s == [s[0]] + s[1..];
    }
  }

  lemma KeepTwice(s: seq<Node>, t: seq<Node>, w: set<Node>, v: set<Node>)
    requires Permutation(Keep(s, w), t) && v <= w
    ensures Permutation(Keep(s, v), Keep(t, v))
  {
    forall x: Node ensures Count(Keep(s, v), x) == Count(Keep(t, v), x) {
      KeepCount(s, w, x);
      KeepCount(s, v, x);
      KeepCount(t, v, x);
    }
    CountsAgree(Keep(s, v), Keep(t, v));
  }

  lemma KeepIn(s: seq<Node>, t: seq<Node>, w: set<Node>, x: Node)
    requires Permutation(Keep(s, w), t) && x in t
    ensures x in w && x in s
  {
    KeepCount(s, w, x);
    assert Count(t, x) > 0;
  }

  /** An entry of the index matches the keys looked for when the search for the same keys stops at it. */
  lemma ProbeWanted(v: Payload, name: Option<string>, attr: Option<string>, element: Option<string>,
                    value: Option<string>)
    requires Wanted(v, name, attr, None) && (attr.Some? || value.None?)
    requires element.None? || name.None? || element == name
    ensures Probe(element, value, KeyOf(v, attr)) == 0 <==>
            Wanted(v, if element.Some? then element else name, attr, value)
  {
    var k := KeyOf(v, attr);
    if element.Some? { StrCmpZero(element.value, k.name); }
    if value.Some? { StrCmpZero(value.value, k.val); }
  }

  lemma NamesAgree(s: seq<Node>, name: string, attr: Option<string>)
    requires forall n :: n in s ==> Wanted(n.value, Some(name), attr, None)
    ensures OneName(Keys(s, attr))
  {
    forall i | 0 <= i < |s| ensures Keys(s, attr)[i].name == name { assert s[i] in s; }
  }

  /** On an index just made, calling `mxmlIndexFind` again and again after a reset gives exactly the nodes
      that a scan of the tree with `mxmlFindElement` for the same keys gives, each once, and then NULL for
      ever. */
  lemma IndexAgrees(f: Shape, top: Node, name: Option<string>, attr: Option<string>, s: seq<Node>,
                    element: Option<string>, value: Option<string>, n: nat)
    requires Wf(f) && top in f.kids
    requires Permutation(Hits(Scope(f, top, name, attr), name, attr, None), s) && Sorted(Keys(s, attr))
    requires attr.Some? || value.None?
    requires element.Some? || name.Some? || value.None?
    requires element.None? || name.None? || element == name
    ensures var m := Matches(Keys(s, attr), element, value, 0);
            && Permutation(Found(s, m),
               Hits(Scope(f, top, name, attr), if element.Some? then element else name, attr, value))
            && Calls(Keys(s, attr), attr.Some?, element, value, 0, n) ==
               seq(n, i requires 0 <= i < n => if i < |m| then Some(m[i]) else None)
  {
    hide Wf, Scope, Wanted, Probe, Keep, Permutation, Sorted, Matches, Calls;
    var order := Scope(f, top, name, attr);
    var k := Keys(s, attr);
    var goal := if element.Some? then element else name;
    var w, v := WantedOf(order, name, attr, None), WantedOf(order, goal, attr, value);
    forall x | x in s ensures x in w && x in order { KeepIn(order, s, w, x); }
    assert v <= w by { WantedLess(order, name, attr, element, value); }
    forall i | 0 <= i < |s| ensures s[i] in v <==> Probe(element, value, k[i]) == 0 {
      assert s[i] in s;
      ProbeWanted(s[i].value, name, attr, element, value);
    }
    FoundKept(s, k, element, value, 0, v);
    assert s[0..] == s;
    KeepTwice(order, s, w, v);
    if element.None? && value.Some? { NamesAgree(s, name.value, attr); }
    FindsAll(k, attr.Some?, element, value, n);
    Symmetric(Keep(order, v), Keep(s, v));
  }

  lemma Symmetric(a: seq<Node>, b: seq<Node>)
    requires Permutation(a, b)
    ensures Permutation(b, a)
  {
  }

  lemma WantedLess(s: seq<Node>, name: Option<string>, attr: Option<string>, element: Option<string>,
                   value: Option<string>)
    requires element.None? || name.None? || element == name
    ensures WantedOf(s, if element.Some? then element else name, attr, value) <= WantedOf(s, name, attr, None)
  {
  }
}
