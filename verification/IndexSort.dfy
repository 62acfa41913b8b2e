/** `index_compare` and the in-place quicksort `index_sort` (mxml-index.c). */
module IndexSort {
  import opened CStrings
  import opened NodeTree
  import XmlTree

  /** What an index sorts by: the element name, then the value of the indexed attribute. */
  datatype Key = Key(name: string, val: string)

  /** The key of an element; without an indexed attribute the values do not count. */
  function KeyOf(v: Payload, attr: Option<string>): (k: Key) {
    if !v.ElementValue? then Key("", "")
    else Key(v.name, if attr.None? then "" else
                     match XmlTree.GetAttr(v.attrs, attr.value)
                     case Some(s) => s
                     case None => "")
  }

  /** The value of the indexed attribute counts, or an empty string if the element has none. */
  lemma KeyIs(name: string, attrs: seq<XmlTree.Attr>, attr: string)
    ensures KeyOf(ElementValue(name, attrs), None) == Key(name, "")
    ensures XmlTree.GetAttr(attrs, attr).None? ==> KeyOf(ElementValue(name, attrs), Some(attr)) == Key(name, "")
    ensures forall x :: XmlTree.GetAttr(attrs, attr) == Some(x) ==>
                          KeyOf(ElementValue(name, attrs), Some(attr)) == Key(name, x)
  {
  }

  /** The sign of `index_compare`. */
  function KeyCmp(a: Key, b: Key): (r: int) {
    if StrCmp(a.name, b.name) != 0 then StrCmp(a.name, b.name) else StrCmp(a.val, b.val)
  }

  predicate Le(a: Key, b: Key) { KeyCmp(a, b) <= 0 }

  lemma LeTransitive(a: Key, b: Key, c: Key)
    requires Le(a, b) && Le(b, c)
    ensures Le(a, c)
  {
    StrCmpTransitive(a.name, b.name, c.name);
    StrCmpZero(a.name, b.name);
    StrCmpZero(b.name, c.name);
    StrCmpZero(a.name, c.name);
    if a.name == b.name == c.name {
      StrCmpTransitive(a.val, b.val, c.val);
    }
  }

  lemma LeTotal(a: Key, b: Key)
    ensures Le(a, b) || Le(b, a)
    ensures KeyCmp(a, b) > 0 <==> !Le(a, b)
    ensures KeyCmp(a, a) == 0
  {
    StrCmpAntisymmetric(a.name, b.name);
    StrCmpAntisymmetric(a.val, b.val);
    StrCmpZero(a.name, a.name);
    StrCmpZero(a.val, a.val);
  }

  /** `index_compare`. */
  method Compare(first: Node, second: Node, attr: Option<string>) returns (diff: int)
    ensures diff == KeyCmp(KeyOf(first.value, attr), KeyOf(second.value, attr))
  {
    var a, b := KeyOf(first.value, attr), KeyOf(second.value, attr);
    diff := StrCmp(a.name, b.name);
    if diff != 0 {
      return diff;
    }
    StrCmpZero("", "");
    if attr.Some? {
      diff := StrCmp(a.val, b.val);
    }
  }

  ghost predicate SortedKeys(s: seq<Node>, key: Node -> Key) {
    forall i, j :: 0 <= i < j < |s| ==> Le(key(s[i]), key(s[j]))
  }

  /** Every entry of `a` is below or level with every entry of `b`. */
  ghost predicate Below(a: seq<Node>, b: seq<Node>, key: Node -> Key) {
    forall x, y :: x in a && y in b ==> Le(key(x), key(y))
  }

  ghost predicate Permutation(a: seq<Node>, b: seq<Node>) {
    |a| == |b| && multiset(a) == multiset(b)
  }

  lemma SameMembers(a: seq<Node>, b: seq<Node>)
    requires Permutation(a, b)
    ensures forall x :: x in a <==> x in b
  {
    forall x ensures x in a <==> x in b {
      assert x in a <==> x in multiset(a);
      assert x in b <==> x in multiset(b);
    }
  }

  /** Exchanging two entries. */
  lemma SwapPermutes(s: seq<Node>, i: nat, j: nat)
    requires i < |s| && j < |s|
    ensures Permutation(s, s[i := s[j]][j := s[i]])
  {
    var t := s[i := s[j]][j := s[i]];
    assert multiset(t) == multiset(s) - multiset{s[i]} + multiset{s[j]} - multiset{s[j]} + multiset{s[i]};
  }

  /** `t` is `s` with the entries from `lo` up to, not including, `hi` permuted. */
  ghost predicate Shuffled(s: seq<Node>, t: seq<Node>, lo: nat, hi: nat)
    requires lo <= hi <= |s|
  {
    && |t| == |s| && s[..lo] == t[..lo] && s[hi..] == t[hi..] && Permutation(s[lo..hi], t[lo..hi])
  }

  lemma NotShuffled(s: seq<Node>, lo: nat, hi: nat)
    requires lo <= hi <= |s|
    ensures Shuffled(s, s, lo, hi)
  {
  }

  lemma ShuffledTwice(s: seq<Node>, t: seq<Node>, u: seq<Node>, lo: nat, hi: nat)
    requires lo <= hi <= |s| == |t| && Shuffled(s, t, lo, hi) && Shuffled(t, u, lo, hi)
    ensures Shuffled(s, u, lo, hi)
  {
  }

  lemma SliceOfSlice(s: seq<Node>, from: nat, lo: nat, hi: nat, to: nat)
    requires from <= lo <= hi <= to <= |s|
    ensures s[from..to] == s[..lo][from..] + s[lo..hi] + s[hi..][..to - hi]
  {
  }

  /** A permutation of a part is one of every larger part. */
  lemma ShuffledPart(s: seq<Node>, t: seq<Node>, lo: nat, hi: nat, from: nat, to: nat)
    requires from <= lo <= hi <= to <= |s| && Shuffled(s, t, lo, hi)
    ensures Shuffled(s, t, from, to)
  {
    SliceOfSlice(s, from, lo, hi, to);
    SliceOfSlice(t, from, lo, hi, to);
    assert s[..from] == s[..lo][..from] && t[..from] == t[..lo][..from];
    assert s[to..] == s[hi..][to - hi..] && t[to..] == t[hi..][to - hi..];
    assert multiset(s[from..to]) == multiset(s[..lo][from..]) + multiset(s[lo..hi]) + multiset(s[hi..][..to - hi]);
    assert multiset(t[from..to]) == multiset(t[..lo][from..]) + multiset(t[lo..hi]) + multiset(t[hi..][..to - hi]);
  }

  lemma ShuffledAll(s: seq<Node>, t: seq<Node>, lo: nat, hi: nat)
    requires lo <= hi <= |s| && Shuffled(s, t, lo, hi)
    ensures Permutation(s, t) && forall x :: x in t <==> x in s
  {
    ShuffledPart(s, t, lo, hi, 0, |s|);
    assert s[0..|s|] == s && t[0..|t|] == t;
    SameMembers(s, t);
  }

  /** The swap, as a permutation of the part it happens in. */
  lemma ShuffledSwap(s: seq<Node>, i: nat, j: nat, lo: nat, hi: nat)
    requires lo <= i < hi <= |s| && lo <= j < hi
    ensures Shuffled(s, s[i := s[j]][j := s[i]], lo, hi)
  {
    var t, p := s[i := s[j]][j := s[i]], s[lo..hi];
    SwapPermutes(p, i - lo, j - lo);
    assert t[lo..hi] == p[i - lo := p[j - lo]][j - lo := p[i - lo]];
  }

  lemma SortedAppend(a: seq<Node>, b: seq<Node>, key: Node -> Key)
    requires SortedKeys(a, key) && SortedKeys(b, key) && Below(a, b, key)
    ensures SortedKeys(a + b, key)
  {
    var s := a + b;
    forall i, j | 0 <= i < j < |s| ensures Le(key(s[i]), key(s[j])) {
      if i < |a| { assert s[i] in a; }
      if j >= |a| { assert s[j] in b; }
    }
  }

  lemma SortedShort(s: seq<Node>, key: Node -> Key)
    requires |s| <= 1
    ensures SortedKeys(s, key)
  {
  }

  /** The two sides of a partition, one of them sorted since: `b` was `b1` before it was sorted. */
  lemma Separated(b1: seq<Node>, b: seq<Node>, m: Node, c: seq<Node>, key: Node -> Key)
    requires Permutation(b1, b) && SortedKeys(b, key)
    requires forall x :: x in b1 ==> Le(key(x), key(m))
    requires forall x :: x in c ==> Le(key(m), key(x))
    ensures SortedKeys(b + [m], key) && Below(b + [m], c, key)
  {
    hide Le, Permutation, KeyCmp;
    SameMembers(b1, b);
    SortedShort([m], key);
    assert Below(b, [m], key);
    SortedAppend(b, [m], key);
    forall x, y | x in b + [m] && y in c ensures Le(key(x), key(y)) {
      LeTotal(key(m), key(m));
      if x in b { LeTransitive(key(x), key(m), key(y)); }
    }
  }

  /** What one round adds: `a` was sorted and below the rest; the rest became `b`, `m`, `c`. */
  lemma Grow(a: seq<Node>, rest: seq<Node>, b: seq<Node>, m: Node, c: seq<Node>, key: Node -> Key)
    requires SortedKeys(a, key) && Below(a, rest, key) && Permutation(rest, b + [m] + c)
    requires SortedKeys(b + [m], key) && Below(b + [m], c, key)
    ensures SortedKeys(a + (b + [m]), key) && Below(a + (b + [m]), c, key)
  {
    hide Le, Permutation;
    SameMembers(rest, b + [m] + c);
    assert Below(a, b + [m], key) by {
      forall x, y | x in a && y in b + [m] ensures Le(key(x), key(y)) { assert y in b + [m] + c; }
    }
    SortedAppend(a, b + [m], key);
    forall x, y | x in a + (b + [m]) && y in c ensures Le(key(x), key(y)) {
      assert y in b + [m] + c;
    }
  }

  /** Every entry of `a` has the key an index on `attr` sorts by. */
  ghost predicate Keyed(a: seq<Node>, attr: Option<string>, key: Node -> Key)
    reads set n | n in a
  {
    forall n :: n in a ==> key(n) == KeyOf(n.value, attr)
  }

  method Swap(a: array<Node>, i: nat, j: nat, ghost lo: nat, ghost hi: nat)
    requires lo <= i < hi <= a.Length && lo <= j < hi
    modifies a
    ensures Shuffled(old(a[..]), a[..], lo, hi)
    ensures a[i] == old(a[j]) && a[j] == old(a[i])
    ensures forall k :: 0 <= k < a.Length && k != i && k != j ==> a[k] == old(a[k])
  {
    hide Shuffled;
    ghost var s := a[..];
    ShuffledSwap(s, i, j, lo, hi);
    var temp := a[i];
    a[i] := a[j];
    a[j] := temp;
    assert a[..] == s[i := s[j]][j := s[i]];
  }

  method ScanUp(a: array<Node>, start: nat, right: nat, pivot: Node, attr: Option<string>, ghost key: Node -> Key)
    returns (l: nat)
    requires start < right < a.Length && pivot in a[..] && Le(key(a[start]), key(pivot))
    requires Keyed(a[..], attr, key)
    ensures start < l <= right
    ensures forall k :: start <= k < l ==> Le(key(a[k]), key(pivot))
    ensures l < right ==> !Le(key(a[l]), key(pivot))
  {
    hide KeyCmp;
    l := start;
    while l < right
      invariant start <= l <= right
      invariant forall k :: start <= k < l ==> Le(key(a[k]), key(pivot))
    {
      assert a[l] in a[..];
      LeTotal(key(a[l]), key(pivot));
      var diff := Compare(a[l], pivot, attr);
      if diff > 0 {
        break;
      }
      l := l + 1;
    }
  }

  method ScanDown(a: array<Node>, left: nat, start: nat, pivot: Node, attr: Option<string>, ghost key: Node -> Key)
    returns (r: nat)
    requires left < start < a.Length && a[left] == pivot
    requires Keyed(a[..], attr, key)
    ensures left <= r <= start && Le(key(a[r]), key(pivot))
    ensures forall k :: r < k <= start ==> !Le(key(a[k]), key(pivot))
  {
    hide KeyCmp;
    assert pivot in a[..];
    LeTotal(key(pivot), key(pivot));
    r := start;
    while r > left
      invariant left <= r <= start
      invariant forall k :: r < k <= start ==> !Le(key(a[k]), key(pivot))
    {
      assert a[r] in a[..];
      LeTotal(key(a[r]), key(pivot));
      var diff := Compare(a[r], pivot, attr);
      if diff <= 0 {
        break;
      }
      r := r - 1;
    }
  }

  /** One turn of the partition loop: both scans, and the swap when they have not met. */
  method Turn(a: array<Node>, left: nat, l0: nat, r0: nat, right: nat, attr: Option<string>, ghost key: Node -> Key)
    returns (l: nat, r: nat)
    requires left <= l0 < r0 <= right < a.Length && Le(key(a[l0]), key(a[left]))
    requires Keyed(a[..], attr, key)
    requires forall k :: left <= k < l0 ==> Le(key(a[k]), key(a[left]))
    requires forall k :: r0 < k <= right ==> !Le(key(a[k]), key(a[left]))
    modifies a
    ensures l0 < l <= right && left <= r <= r0 && a[left] == old(a[left])
    ensures l < r ==> Le(key(a[l]), key(a[left]))
    ensures forall k :: left <= k < l ==> Le(key(a[k]), key(a[left]))
    ensures forall k :: r < k <= right ==> !Le(key(a[k]), key(a[left]))
    ensures Le(key(a[r]), key(a[left])) <== l >= r
    ensures Shuffled(old(a[..]), a[..], left, right + 1)
  {
    hide Le, Shuffled, Keyed;
    var pivot := a[left];
    assert pivot in a[..];
    NotShuffled(a[..], left, right + 1);
    l := ScanUp(a, l0, right, pivot, attr, key);
    r := ScanDown(a, left, r0, pivot, attr, key);
    if l < r {
      Swap(a, l, r, left, right + 1);
    }
  }

  lemma StillKeyed(s: seq<Node>, t: seq<Node>, lo: nat, hi: nat, attr: Option<string>, key: Node -> Key)
    requires lo <= hi <= |s| && Shuffled(s, t, lo, hi) && Keyed(s, attr, key)
    ensures Keyed(t, attr, key)
  {
    hide Shuffled;
    ShuffledAll(s, t, lo, hi);
  }

  /** The loop of `index_sort` that moves two scans towards each other: afterwards everything up to
      `mid` is at most the pivot, and everything after it is more. */
  method Meet(a: array<Node>, left: nat, right: nat, attr: Option<string>, ghost key: Node -> Key) returns (mid: nat)
    requires left < right < a.Length && Keyed(a[..], attr, key)
    modifies a
    ensures left <= mid <= right && a[left] == old(a[left])
    ensures Shuffled(old(a[..]), a[..], left, right + 1)
    ensures forall k :: left <= k <= mid ==> Le(key(a[k]), key(a[left]))
    ensures forall k :: mid < k <= right ==> !Le(key(a[k]), key(a[left]))
  {
    hide Le, Shuffled, Keyed;
    LeTotal(key(a[left]), key(a[left]));
    NotShuffled(a[..], left, right + 1);
    var l, r := left, right;
    while l < r
      invariant left <= l <= right && left <= r <= right && a[left] == old(a[left])
      invariant l < r ==> Le(key(a[l]), key(a[left]))
      invariant forall k :: left <= k < l ==> Le(key(a[k]), key(a[left]))
      invariant forall k :: r < k <= right ==> !Le(key(a[k]), key(a[left]))
      invariant l >= r ==> Le(key(a[r]), key(a[left]))
      invariant Shuffled(old(a[..]), a[..], left, right + 1) && Keyed(a[..], attr, key)
      decreases if l < r then r - l else 0
    {
      ghost var s := a[..];
      l, r := Turn(a, left, l, r, right, attr, key);
      StillKeyed(s, a[..], left, right + 1, attr, key);
      ShuffledTwice(old(a[..]), s, a[..], left, right + 1);
    }
    mid := r;
  }

  /** One round of `index_sort`: entry `mid` separates the part. */
  method Partition(a: array<Node>, left: nat, right: nat, attr: Option<string>, ghost key: Node -> Key)
    returns (mid: nat)
    requires left < right < a.Length && Keyed(a[..], attr, key)
    modifies a
    ensures left <= mid <= right
    ensures Shuffled(old(a[..]), a[..], left, right + 1) && Keyed(a[..], attr, key)
    ensures forall k :: left <= k < mid ==> Le(key(a[k]), key(a[mid]))
    ensures forall k :: mid < k <= right ==> Le(key(a[mid]), key(a[k]))
  {
    hide Le, KeyCmp, Shuffled, Keyed;
    mid := Meet(a, left, right, attr, key);
    ghost var s1 := a[..];
    StillKeyed(old(a[..]), s1, left, right + 1, attr, key);
    var pivot := a[left];
    ghost var pk := key(pivot);
    var diff := Compare(pivot, a[mid], attr);
    KeyedAt(s1, attr, key, left);
    KeyedAt(s1, attr, key, mid);
    LeTotal(pk, key(a[mid]));
    forall k | mid < k <= right ensures Le(pk, key(a[k])) {
      LeTotal(pk, key(a[k]));
    }
    if diff > 0 {
      Swap(a, left, mid, left, right + 1);
      ShuffledTwice(old(a[..]), s1, a[..], left, right + 1);
      StillKeyed(s1, a[..], left, right + 1, attr, key);
    } else {
      forall k | left <= k < mid ensures Le(key(a[k]), key(a[mid])) { LeTransitive(key(a[k]), pk, key(a[mid])); }
      forall k | mid < k <= right ensures Le(key(a[mid]), key(a[k])) { LeTransitive(key(a[mid]), pk, key(a[k])); }
    }
  }

  lemma KeyedAt(s: seq<Node>, attr: Option<string>, key: Node -> Key, i: nat)
    requires i < |s| && Keyed(s, attr, key)
    ensures key(s[i]) == KeyOf(s[i].value, attr)
  {
    assert s[i] in s;
  }

  /** The array through one round: partitioned from `s0` to `s1`, left side sorted from `s1` to `s2`. */
  lemma Round(s0: seq<Node>, s1: seq<Node>, s2: seq<Node>, left: nat, lo: nat, mid: nat, right: nat, key: Node -> Key)
    requires |s0| == |s1| == |s2| && left <= lo <= mid <= right < |s0|
    requires Shuffled(s0, s1, lo, right + 1) && Shuffled(s1, s2, lo, mid) && SortedKeys(s2[lo..mid], key)
    requires forall k :: lo <= k < mid ==> Le(key(s1[k]), key(s1[mid]))
    requires forall k :: mid < k <= right ==> Le(key(s1[mid]), key(s1[k]))
    requires SortedKeys(s0[left..lo], key) && Below(s0[left..lo], s0[lo..right + 1], key)
    ensures Shuffled(s0, s2, left, right + 1)
    ensures SortedKeys(s2[left..mid + 1], key) && Below(s2[left..mid + 1], s2[mid + 1..right + 1], key)
  {
    hide Le, Shuffled, SortedKeys, Below;
    ShuffledPart(s1, s2, lo, mid, lo, right + 1);
    ShuffledTwice(s0, s1, s2, lo, right + 1);
    ShuffledPart(s0, s2, lo, right + 1, left, right + 1);
    var a, b, m, c := s0[left..lo], s2[lo..mid], s2[mid], s2[mid + 1..right + 1];
    RoundParts(s0, s1, s2, left, lo, mid, right);
    Separated(s1[lo..mid], b, m, c, key);
    Grow(a, s0[lo..right + 1], b, m, c, key);
  }

  lemma RoundParts(s0: seq<Node>, s1: seq<Node>, s2: seq<Node>, left: nat, lo: nat, mid: nat, right: nat)
    requires |s0| == |s1| == |s2| && left <= lo <= mid <= right < |s0|
    requires Shuffled(s1, s2, lo, mid) && Shuffled(s0, s2, lo, right + 1)
    ensures s2[mid] == s1[mid] && s2[mid + 1..right + 1] == s1[mid + 1..right + 1]
    ensures Permutation(s1[lo..mid], s2[lo..mid])
    ensures Permutation(s0[lo..right + 1], s2[lo..mid] + [s2[mid]] + s2[mid + 1..right + 1])
    ensures s2[left..mid + 1] == s0[left..lo] + (s2[lo..mid] + [s2[mid]])
  {
    hide Permutation;
    forall k | mid <= k <= right ensures s2[k] == s1[k] {
      assert s2[k] == s2[mid..][k - mid] && s1[k] == s1[mid..][k - mid];
    }
    forall k | left <= k < lo ensures s2[k] == s0[k] { assert s2[k] == s2[..lo][k] && s0[k] == s0[..lo][k]; }
    assert s2[lo..right + 1] == s2[lo..mid] + [s2[mid]] + s2[mid + 1..right + 1];
  }

  lemma LastPart(s: seq<Node>, left: nat, lo: nat, right: nat, key: Node -> Key)
    requires left <= lo <= right + 1 <= |s| && lo >= right
    requires SortedKeys(s[left..lo], key) && Below(s[left..lo], s[lo..right + 1], key)
    ensures SortedKeys(s[left..right + 1], key)
  {
    SortedShort(s[lo..right + 1], key);
    SortedAppend(s[left..lo], s[lo..right + 1], key);
    assert s[left..right + 1] == s[left..lo] + s[lo..right + 1];
  }

  lemma NothingBelow(a: seq<Node>, b: seq<Node>, key: Node -> Key)
    requires a == []
    ensures SortedKeys(a, key) && Below(a, b, key)
  {
  }

  /** `index_sort`: sorts `a[left..right]` in place, touching nothing else. */
  method Sort(a: array<Node>, left: nat, right: nat, attr: Option<string>, ghost key: Node -> Key)
    requires left < right < a.Length && Keyed(a[..], attr, key)
    modifies a
    ensures Shuffled(old(a[..]), a[..], left, right + 1) && Keyed(a[..], attr, key)
    ensures SortedKeys(a[left..right + 1], key)
    decreases right - left, 1
  {
    hide Shuffled, SortedKeys, Below, Keyed;
    var lo := left;
    NotShuffled(a[..], left, right + 1);
    NothingBelow(a[left..left], a[left..right + 1], key);
    while right > lo
      invariant left <= lo <= right + 1
      invariant Shuffled(old(a[..]), a[..], left, right + 1) && Keyed(a[..], attr, key)
      invariant SortedKeys(a[left..lo], key) && Below(a[left..lo], a[lo..right + 1], key)
      decreases right + 1 - lo
    {
      ghost var s0 := a[..];
      lo := SortRound(a, left, lo, right, attr, key);
      ShuffledTwice(old(a[..]), s0, a[..], left, right + 1);
    }
    LastPart(a[..], left, lo, right, key);
  }

  /** One turn of the outer loop of `index_sort`: partition, sort the left side, go on with the right. */
  method SortRound(a: array<Node>, ghost left: nat, lo: nat, right: nat, attr: Option<string>, ghost key: Node -> Key)
    returns (next: nat)
    requires left <= lo < right < a.Length && Keyed(a[..], attr, key)
    requires SortedKeys(a[left..lo], key) && Below(a[left..lo], a[lo..right + 1], key)
    modifies a
    ensures lo < next <= right + 1
    ensures Shuffled(old(a[..]), a[..], left, right + 1) && Keyed(a[..], attr, key)
    ensures SortedKeys(a[left..next], key) && Below(a[left..next], a[next..right + 1], key)
    decreases right - lo, 0
  {
    hide Shuffled, SortedKeys, Below, Keyed, Le;
    ghost var s0 := a[..];
    var mid := Partition(a, lo, right, attr, key);
    ghost var s1 := a[..];
    if lo + 1 < mid {
      Sort(a, lo, mid - 1, attr, key);
    } else {
      SortedShort(a[lo..mid], key);
      NotShuffled(s1, lo, mid);
    }
    Round(s0, s1, a[..], left, lo, mid, right, key);
    next := mid + 1;
  }
}
