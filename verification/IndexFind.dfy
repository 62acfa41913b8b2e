/** `index_find` and the modified binary search of `mxmlIndexFind` (mxml-index.c), on the keys of an
    index. */
module IndexFind {
  import opened CStrings
  import opened IndexSort

  /** The sign of `index_find`: how the keys looked for compare with those of an entry. */
  function Probe(element: Option<string>, value: Option<string>, k: Key): (r: int) {
    if element.Some? && StrCmp(element.value, k.name) != 0 then StrCmp(element.value, k.name)
    else if value.Some? then StrCmp(value.value, k.val)
    else 0
  }

  /** Walking back from a match to the first of the matches around it. */
  function RunStart(s: seq<Key>, element: Option<string>, value: Option<string>, current: nat): (r: nat)
    requires current < |s|
    ensures r <= current && forall i :: r <= i < current ==> Probe(element, value, s[i]) == 0
    ensures r > 0 ==> Probe(element, value, s[r - 1]) != 0
  {
    if current > 0 && Probe(element, value, s[current - 1]) == 0 then RunStart(s, element, value, current - 1)
    else current
  }

  /** The entry by entry search that ends the binary search. */
  function Between(s: seq<Key>, element: Option<string>, value: Option<string>, first: nat, last: nat): (r: Option<nat>)
    requires last < |s|
    ensures r.Some? ==> first <= r.value <= last && Probe(element, value, s[r.value]) == 0
    ensures forall i :: first <= i <= last && (r.Some? ==> i < r.value) ==> Probe(element, value, s[i]) != 0
    decreases last + 1 - first
  {
    if first > last then None
    else if Probe(element, value, s[first]) == 0 then Some(first)
    else Between(s, element, value, first + 1, last)
  }

  function Search(s: seq<Key>, element: Option<string>, value: Option<string>, first: nat, last: nat): (r: Option<nat>)
    requires first <= last < |s|
    ensures r.Some? ==> r.value < |s| && Probe(element, value, s[r.value]) == 0
    decreases last - first
  {
    if last - first > 1 then
      var current := (first + last) / 2;
      var diff := Probe(element, value, s[current]);
      if diff == 0 then Some(RunStart(s, element, value, current))
      else if diff < 0 then Search(s, element, value, first, current)
      else Search(s, element, value, current, last)
    else Between(s, element, value, first, last)
  }

  /** What one call gives: the number of the entry, or None for NULL; and the new `cur_node`. */
  datatype Answer = Answer(at: Option<nat>, cursor: nat)

  function Enumerate(s: seq<Key>, cursor: nat): (r: Answer) {
    if cursor < |s| then Answer(Some(cursor), cursor + 1) else Answer(None, cursor)
  }

  /** `mxmlIndexFind` on an index with keys `s`. */
  function Find(s: seq<Key>, hasAttr: bool, element: Option<string>, value: Option<string>, cursor: nat): (r: Answer)
    ensures r.at.Some? ==> r.at.value < |s| && Probe(element, value, s[r.at.value]) == 0
  {
    if !hasAttr && value.Some? then Answer(None, cursor)
    else if element.None? && value.None? then Enumerate(s, cursor)
    else if s == [] then Answer(None, cursor)
    else if cursor == 0 then
      match Search(s, element, value, 0, |s| - 1)
      case Some(i) => Answer(Some(i), i + 1)
      case None => Answer(None, |s|)
    else if cursor < |s| && Probe(element, value, s[cursor]) == 0 then Answer(Some(cursor), cursor + 1)
    else Answer(None, |s|)
  }

  /** The results of `n` calls in a row. */
  function Calls(s: seq<Key>, hasAttr: bool, element: Option<string>, value: Option<string>, cursor: nat, n: nat)
    : (r: seq<Option<nat>>)
    ensures |r| == n
    decreases n
  {
    if n == 0 then []
    else
      var a := Find(s, hasAttr, element, value, cursor);
      [a.at] + Calls(s, hasAttr, element, value, a.cursor, n - 1)
  }

  /** An entry matches when its name is the one looked for, if any, and so is its value. */
  lemma ProbeZero(element: Option<string>, value: Option<string>, k: Key)
    ensures Probe(element, value, k) == 0 <==>
            (element.Some? ==> k.name == element.value) && (value.Some? ==> k.val == value.value)
  {
    if element.Some? { StrCmpZero(element.value, k.name); }
    if value.Some? { StrCmpZero(value.value, k.val); }
  }

  /** Where each call leaves the cursor: behind the entry it gives, at the end when it gives none, and where it was when
      there is nothing to look in or no attribute to look for. */
  lemma FindLeaves(s: seq<Key>, hasAttr: bool, element: Option<string>, value: Option<string>, cursor: nat)
    ensures var a := Find(s, hasAttr, element, value, cursor);
            && (!hasAttr && value.Some? ==> a == Answer(None, cursor))
            && (element.None? && value.None? ==>
                  a == if cursor < |s| then Answer(Some(cursor), cursor + 1) else Answer(None, cursor))
            && ((hasAttr || value.None?) && (element.Some? || value.Some?) ==>
                  && (s == [] ==> a == Answer(None, cursor))
                  && (s != [] ==> a.cursor == match a.at case Some(i) => i + 1 case None => |s|)
                  && (s != [] && cursor > 0 ==>
                        (a.at.Some? <==>
                           && cursor < |s| && (element.Some? ==> s[cursor].name == element.value)
                           && (value.Some? ==> s[cursor].val == value.value))
                        && (a.at.Some? ==> a.at.value == cursor)))
  {
    hide Probe, Search;
    if cursor < |s| { ProbeZero(element, value, s[cursor]); }
  }

  /** Where the middle entry matches, the first of the matches around it is found, even if there are others before. */
  lemma MiddleFirst(s: seq<Key>, element: Option<string>, value: Option<string>, i: nat)
    requires |s| > 2 && i <= (|s| - 1) / 2 && (forall k :: i <= k <= (|s| - 1) / 2 ==> Probe(element, value, s[k]) == 0)
    requires i > 0 ==> Probe(element, value, s[i - 1]) != 0
    ensures Search(s, element, value, 0, |s| - 1) == Some(i)
  {
    hide Probe;
  }

  // -- What the search is for ------------------------------------------------------------------------

  /** The numbers of the matching entries from `from` on, in index order. */
  function Matches(s: seq<Key>, element: Option<string>, value: Option<string>, from: nat): (r: seq<nat>)
    ensures forall i :: 0 <= i < |r| ==> from <= r[i] < |s| && Probe(element, value, s[r[i]]) == 0
    ensures forall i, j :: 0 <= i < j < |r| ==> r[i] < r[j]
    decreases |s| - from
  {
    if from >= |s| then []
    else if Probe(element, value, s[from]) == 0 then [from] + Matches(s, element, value, from + 1)
    else Matches(s, element, value, from + 1)
  }

  lemma {:induction false} MatchesAll(s: seq<Key>, element: Option<string>, value: Option<string>, from: nat, i: nat)
    requires from <= i < |s| && Probe(element, value, s[i]) == 0
    ensures i in Matches(s, element, value, from)
    decreases i - from
  {
    if i > from {
      MatchesAll(s, element, value, from + 1, i);
    }
  }

  /** Every matching entry once, in index order, then NULL. */
  function Expected(s: seq<Key>, element: Option<string>, value: Option<string>, from: nat, n: nat)
    : (r: seq<Option<nat>>)
    ensures |r| == n
  {
    var m := Matches(s, element, value, from);
    seq(n, i requires 0 <= i < n => if i < |m| then Some(m[i]) else None)
  }

  predicate Sorted(s: seq<Key>) {
    forall i, j :: 0 <= i < j < |s| ==> Le(s[i], s[j])
  }

  /** Along the index, entries come first that are below the keys looked for, then the matches, then those
      above. */
  predicate Falls(s: seq<Key>, element: Option<string>, value: Option<string>) {
    && (forall i, j :: 0 <= i < j < |s| && Probe(element, value, s[j]) > 0 ==> Probe(element, value, s[i]) > 0)
    && (forall i, j :: 0 <= i < j < |s| && Probe(element, value, s[i]) < 0 ==> Probe(element, value, s[j]) < 0)
  }

  /** The matches are one run of entries. */
  predicate Contiguous(s: seq<Key>, element: Option<string>, value: Option<string>) {
    forall i, j, k :: 0 <= i < j < k < |s| && Probe(element, value, s[i]) == 0 && Probe(element, value, s[k]) == 0
      ==> Probe(element, value, s[j]) == 0
  }

  predicate OneName(s: seq<Key>) {
    forall i, j :: 0 <= i < |s| && 0 <= j < |s| ==> s[i].name == s[j].name
  }

  /** Sorting makes the index fall for every query but a value alone over several element names. */
  lemma SortedFalls(s: seq<Key>, element: Option<string>, value: Option<string>)
    requires Sorted(s) && (element.Some? || value.None? || OneName(s))
    ensures Falls(s, element, value)
  {
    hide Probe;
    forall i, j | 0 <= i < j < |s|
      ensures Probe(element, value, s[j]) > 0 ==> Probe(element, value, s[i]) > 0
      ensures Probe(element, value, s[i]) < 0 ==> Probe(element, value, s[j]) < 0
    {
      assert Le(s[i], s[j]);
      ProbeFalls(element, value, s[i], s[j]);
    }
  }

  lemma ProbeFalls(element: Option<string>, value: Option<string>, a: Key, b: Key)
    requires Le(a, b) && (element.Some? || value.None? || a.name == b.name)
    ensures Probe(element, value, b) > 0 ==> Probe(element, value, a) > 0
    ensures Probe(element, value, a) < 0 ==> Probe(element, value, b) < 0
  {
    StrCmpZero(a.name, b.name);
    if element.Some? {
      StringFalls(element.value, a.name, b.name);
    }
    if value.Some? && a.name == b.name {
      StringFalls(value.value, a.val, b.val);
    }
  }

  lemma StringFalls(x: string, a: string, b: string)
    requires StrCmp(a, b) <= 0
    ensures StrCmp(x, b) > 0 ==> StrCmp(x, a) > 0
    ensures StrCmp(x, a) < 0 ==> StrCmp(x, b) < 0
    ensures StrCmp(x, b) == 0 && StrCmp(a, b) < 0 ==> StrCmp(x, a) > 0
    ensures StrCmp(x, a) == 0 && StrCmp(a, b) < 0 ==> StrCmp(x, b) < 0
  {
    StrCmpAntisymmetric(x, a);
    StrCmpAntisymmetric(x, b);
    StrCmpAntisymmetric(a, b);
    if StrCmp(x, b) >= 0 { StrCmpTransitive(a, b, x); }
    if StrCmp(x, a) <= 0 { StrCmpTransitive(x, a, b); }
  }

  // -- Every match once, in order --------------------------------------------------------------------

  /** Nothing before the entry the search returns matches, and nothing at all when it returns none. */
  predicate FindsFirst(s: seq<Key>, element: Option<string>, value: Option<string>, r: Option<nat>) {
    forall i :: 0 <= i < |s| && (r.Some? ==> i < r.value) ==> Probe(element, value, s[i]) != 0
  }

  /** Where the index falls, the binary search gives the first match of all. */
  lemma {:induction false} SearchFirst(s: seq<Key>, element: Option<string>, value: Option<string>, first: nat,
                                       last: nat)
    requires first <= last < |s| && Falls(s, element, value)
    requires forall i :: 0 <= i < first ==> Probe(element, value, s[i]) > 0
    requires forall i :: last < i < |s| ==> Probe(element, value, s[i]) < 0
    ensures FindsFirst(s, element, value, Search(s, element, value, first, last))
    decreases last - first
  {
    hide Probe, RunStart, Between;
    if last - first > 1 {
      var current := (first + last) / 2;
      if Probe(element, value, s[current]) < 0 {
        SearchFirst(s, element, value, first, current);
      } else if Probe(element, value, s[current]) > 0 {
        SearchFirst(s, element, value, current, last);
      } else {
        RunFirst(s, element, value, current);
      }
    }
  }

  /** Where the index falls, nothing before a run of matches matches. */
  lemma RunFirst(s: seq<Key>, element: Option<string>, value: Option<string>, current: nat)
    requires current < |s| && Falls(s, element, value) && Probe(element, value, s[current]) == 0
    ensures forall i :: 0 <= i < RunStart(s, element, value, current) ==> Probe(element, value, s[i]) != 0
  {
    hide Probe, RunStart;
    var r := RunStart(s, element, value, current);
    forall i | 0 <= i < r ensures Probe(element, value, s[i]) != 0 {
      assert Probe(element, value, s[r - 1]) > 0;
    }
  }

  lemma {:induction false} NoMatches(s: seq<Key>, element: Option<string>, value: Option<string>, from: nat)
    requires forall i :: from <= i < |s| ==> Probe(element, value, s[i]) != 0
    ensures Matches(s, element, value, from) == []
    decreases |s| - from
  {
    if from < |s| {
      NoMatches(s, element, value, from + 1);
    }
  }

  lemma {:induction false} SkipMatches(s: seq<Key>, element: Option<string>, value: Option<string>, from: nat, to: nat)
    requires from <= to <= |s| && forall i :: from <= i < to ==> Probe(element, value, s[i]) != 0
    ensures Matches(s, element, value, from) == Matches(s, element, value, to)
    decreases |s| - from
  {
    if from < to {
      SkipMatches(s, element, value, from + 1, to);
    }
  }

  lemma AfterMatch(s: seq<Key>, element: Option<string>, value: Option<string>, i: nat)
    requires i < |s| && Contiguous(s, element, value) && Probe(element, value, s[i]) == 0
    ensures i + 1 < |s| && Probe(element, value, s[i + 1]) != 0 ==> Matches(s, element, value, i + 1) == []
  {
    hide Probe;
    if i + 1 < |s| && Probe(element, value, s[i + 1]) != 0 {
      NoMatches(s, element, value, i + 1);
    }
  }

  /** The calls after the first one, which found the entry before `cursor` or nothing. */
  lemma {:induction false} LaterCalls(s: seq<Key>, element: Option<string>, value: Option<string>, cursor: nat, n: nat)
    requires 0 < cursor <= |s| && Contiguous(s, element, value) && (element.Some? || value.Some?)
    requires cursor < |s| && Probe(element, value, s[cursor]) != 0 ==> Matches(s, element, value, cursor) == []
    ensures Calls(s, true, element, value, cursor, n) == Expected(s, element, value, cursor, n)
    decreases n
  {
    hide Probe;
    if n > 0 {
      var a := Find(s, true, element, value, cursor);
      if a.at.Some? {
        AfterMatch(s, element, value, cursor);
      } else {
        NoMatches(s, element, value, |s|);
      }
      LaterCalls(s, element, value, a.cursor, n - 1);
      ExpectedStep(s, element, value, cursor, n);
    }
  }

  /** `Expected`, one call at a time. */
  lemma ExpectedStep(s: seq<Key>, element: Option<string>, value: Option<string>, from: nat, n: nat)
    requires n > 0 && from <= |s|
    requires from < |s| && Probe(element, value, s[from]) != 0 ==> Matches(s, element, value, from) == []
    ensures Expected(s, element, value, from, n) ==
            if from < |s| && Probe(element, value, s[from]) == 0
            then [Some(from)] + Expected(s, element, value, from + 1, n - 1)
            else [None] + Expected(s, element, value, |s|, n - 1)
  {
    hide Probe;
    var e := Expected(s, element, value, from, n);
    var t := if from < |s| && Probe(element, value, s[from]) == 0
             then [Some(from)] + Expected(s, element, value, from + 1, n - 1)
             else [None] + Expected(s, element, value, |s|, n - 1);
    assert |e| == |t|;
    forall i | 0 <= i < n ensures e[i] == t[i] {
    }
  }

  lemma {:induction false} EnumerateAll(s: seq<Key>, hasAttr: bool, cursor: nat, n: nat)
    requires cursor <= |s|
    ensures Calls(s, hasAttr, None, None, cursor, n) == Expected(s, None, None, cursor, n)
    decreases n
  {
    if n > 0 {
      EnumerateAll(s, hasAttr, if cursor < |s| then cursor + 1 else cursor, n - 1);
      if cursor == |s| { NoMatches(s, None, None, cursor); }
      ExpectedStep(s, None, None, cursor, n);
    }
  }

  /** After a reset, repeated finds give every matching entry exactly once, in index order, then NULL for
      ever: on a sorted index, unless a value is looked for alone and the index holds several element
      names. */
  lemma FindsAll(s: seq<Key>, hasAttr: bool, element: Option<string>, value: Option<string>, n: nat)
    requires Sorted(s) && (element.Some? || value.None? || OneName(s))
    requires hasAttr || value.None?
    ensures Calls(s, hasAttr, element, value, 0, n) == Expected(s, element, value, 0, n)
  {
    hide Probe;
    SortedFalls(s, element, value);
    if element.None? && value.None? {
      EnumerateAll(s, hasAttr, 0, n);
    } else {
      AttrUnused(s, hasAttr, element, value, 0, n);
      if s == [] {
        EmptyCalls(element, value, n);
      } else {
        SearchFirst(s, element, value, 0, |s| - 1);
        FirstCall(s, element, value, n);
      }
    }
  }

  /** A search that gives the first of a run of matches makes the calls complete. */
  lemma FirstCall(s: seq<Key>, element: Option<string>, value: Option<string>, n: nat)
    requires s != [] && Contiguous(s, element, value) && (element.Some? || value.Some?)
    requires FindsFirst(s, element, value, Search(s, element, value, 0, |s| - 1))
    ensures Calls(s, true, element, value, 0, n) == Expected(s, element, value, 0, n)
  {
    hide Probe, Contiguous, Search, Expected, Matches, Calls;
    if n == 0 { return; }
    var r := Search(s, element, value, 0, |s| - 1);
    assert Calls(s, true, element, value, 0, n) ==
           [r] + Calls(s, true, element, value, if r.Some? then r.value + 1 else |s|, n - 1) by {
      FirstOfCalls(s, element, value, n);
    }
    match r
    case Some(i) =>
      SkipMatches(s, element, value, 0, i);
      ExpectedFrom(s, element, value, 0, i, n);
      AfterMatch(s, element, value, i);
      LaterCalls(s, element, value, i + 1, n - 1);
      ExpectedStep(s, element, value, i, n);
    case None =>
      NoMatches(s, element, value, 0);
      NoMatches(s, element, value, |s|);
      LaterCalls(s, element, value, |s|, n - 1);
      ExpectedStep(s, element, value, 0, n);
  }

  lemma FirstOfCalls(s: seq<Key>, element: Option<string>, value: Option<string>, n: nat)
    requires s != [] && n > 0 && (element.Some? || value.Some?)
    ensures var r := Search(s, element, value, 0, |s| - 1);
            Calls(s, true, element, value, 0, n) ==
            [r] + Calls(s, true, element, value, if r.Some? then r.value + 1 else |s|, n - 1)
  {
    hide Probe, Search;
  }

  lemma ExpectedFrom(s: seq<Key>, element: Option<string>, value: Option<string>, from: nat, to: nat, n: nat)
    requires Matches(s, element, value, from) == Matches(s, element, value, to)
    ensures Expected(s, element, value, from, n) == Expected(s, element, value, to, n)
  {
    hide Matches;
  }

  lemma {:induction false} AttrUnused(s: seq<Key>, hasAttr: bool, element: Option<string>, value: Option<string>,
                                      cursor: nat, n: nat)
    requires hasAttr || value.None?
    ensures Calls(s, hasAttr, element, value, cursor, n) == Calls(s, true, element, value, cursor, n)
    decreases n
  {
    if n > 0 {
      AttrUnused(s, hasAttr, element, value, Find(s, true, element, value, cursor).cursor, n - 1);
    }
  }

  lemma {:induction false} EmptyCalls(element: Option<string>, value: Option<string>, n: nat)
    ensures Calls([], true, element, value, 0, n) == Expected([], element, value, 0, n)
  {
    if n > 0 {
      EmptyCalls(element, value, n - 1);
      ExpectedStep([], element, value, 0, n);
    }
  }

  // -- A value alone ---------------------------------------------------------------------------------

  /** Searching for a value alone finds everything in every sorted index over these element names. */
  ghost predicate ValueFindsAll(names: set<string>) {
    forall s: seq<Key>, value: string, n: nat ::
      Sorted(s) && (forall i :: 0 <= i < |s| ==> s[i].name in names) ==>
        Calls(s, true, None, Some(value), 0, n) == Expected(s, None, Some(value), 0, n)
  }

  lemma MissedProbes(a: string, b: string)
    requires StrCmp(a, b) < 0
    ensures Sorted([Key(a, "2"), Key(b, "1"), Key(b, "2")])
    ensures Probe(None, Some("2"), Key(a, "2")) == 0 && Probe(None, Some("2"), Key(b, "2")) == 0
    ensures Probe(None, Some("2"), Key(b, "1")) == 1
  {
    StrCmpZero(b, b);
    StrCmpZero("2", "2");
  }

  /** Two element names, and the first of three entries is never found: the middle one sends the search
      to the right of it. */
  lemma ValueMissed(a: string, b: string)
    requires StrCmp(a, b) < 0
    ensures var s := [Key(a, "2"), Key(b, "1"), Key(b, "2")];
            && Sorted(s)
            && Matches(s, None, Some("2"), 0) == [0, 2]
            && Calls(s, true, None, Some("2"), 0, 2) == [Some(2), None]
  {
    hide Probe, Sorted;
    var s := [Key(a, "2"), Key(b, "1"), Key(b, "2")];
    MissedProbes(a, b);
    NoMatches(s, None, Some("2"), 3);
    assert Matches(s, None, Some("2"), 2) == [2];
    assert Matches(s, None, Some("2"), 1) == [2];
    assert Between(s, None, Some("2"), 1, 2) == Between(s, None, Some("2"), 2, 2) == Some(2);
    assert Search(s, None, Some("2"), 0, 2) == Search(s, None, Some("2"), 1, 2) == Some(2);
    FirstOfCalls(s, None, Some("2"), 2);
    assert Calls(s, true, None, Some("2"), 3, 1) == [None] by { assert Calls(s, true, None, Some("2"), 3, 0) == []; }
  }

  /** Searching for a value alone is complete on all sorted indexes over these names exactly when there is
      at most one of them. */
  lemma ValueFindsAllIff(names: set<string>)
    ensures ValueFindsAll(names) <==> forall a, b :: a in names && b in names ==> a == b
  {
    if a, b :| a in names && b in names && a != b {
      StrCmpZero(a, b);
      StrCmpAntisymmetric(a, b);
      var x, y := if StrCmp(a, b) < 0 then a else b, if StrCmp(a, b) < 0 then b else a;
      ValueMissed(x, y);
      var s := [Key(x, "2"), Key(y, "1"), Key(y, "2")];
      assert forall i :: 0 <= i < |s| ==> s[i].name in names;
      assert Expected(s, None, Some("2"), 0, 2)[0] == Some(0);
      assert Calls(s, true, None, Some("2"), 0, 2) != Expected(s, None, Some("2"), 0, 2);
    } else {
      forall s: seq<Key>, value: string, n: nat | Sorted(s) && forall i :: 0 <= i < |s| ==> s[i].name in names
        ensures Calls(s, true, None, Some(value), 0, n) == Expected(s, None, Some(value), 0, n)
      {
        FindsAll(s, true, None, Some(value), n);
      }
    }
  }

  // -- A value alone, on one index -------------------------------------------------------------------

  /** The values do not fall along the index. */
  predicate ValuesRise(s: seq<Key>) {
    forall i, j :: 0 <= i < j < |s| ==> StrCmp(s[i].val, s[j].val) <= 0
  }

  ghost predicate Complete(s: seq<Key>, value: string) {
    forall n: nat :: Calls(s, true, None, Some(value), 0, n) == Expected(s, None, Some(value), 0, n)
  }

  lemma RisingFalls(s: seq<Key>, value: string)
    requires ValuesRise(s)
    ensures Falls(s, None, Some(value))
  {
    forall i, j | 0 <= i < j < |s|
      ensures Probe(None, Some(value), s[j]) > 0 ==> Probe(None, Some(value), s[i]) > 0
      ensures Probe(None, Some(value), s[i]) < 0 ==> Probe(None, Some(value), s[j]) < 0
    {
      StringFalls(value, s[i].val, s[j].val);
    }
  }

  lemma RisingComplete(s: seq<Key>, value: string)
    requires |s| <= 2 || ValuesRise(s)
    ensures Complete(s, value)
  {
    hide Probe, Search, Between, Calls, Expected, ValuesRise;
    forall n: nat ensures Calls(s, true, None, Some(value), 0, n) == Expected(s, None, Some(value), 0, n) {
      if s == [] {
        EmptyCalls(None, Some(value), n);
      } else {
        if |s| <= 2 {
          SearchTwo(s, value);
        } else {
          RisingFalls(s, value);
          SearchFirst(s, None, Some(value), 0, |s| - 1);
        }
        FirstCall(s, None, Some(value), n);
      }
    }
  }

  /** One or two entries are searched one by one. */
  lemma SearchTwo(s: seq<Key>, value: string)
    requires 0 < |s| <= 2
    ensures FindsFirst(s, None, Some(value), Search(s, None, Some(value), 0, |s| - 1))
  {
    hide Probe;
  }

  /** The search stays between its bounds, and passes a first entry that does not match. */
  lemma {:induction false} SearchBounds(s: seq<Key>, element: Option<string>, value: Option<string>, first: nat,
                                        last: nat)
    requires first <= last < |s| && Search(s, element, value, first, last).Some?
    ensures Search(s, element, value, first, last).value <= last
    ensures Probe(element, value, s[first]) != 0 ==> first < Search(s, element, value, first, last).value
    decreases last - first
  {
    hide Probe;
    if last - first > 1 {
      var current := (first + last) / 2;
      if Probe(element, value, s[current]) < 0 {
        SearchBounds(s, element, value, first, current);
      } else if Probe(element, value, s[current]) > 0 {
        SearchBounds(s, element, value, current, last);
      }
    }
  }

  /** What lies right of `current` is missed when the comparison there sends the search left. */
  lemma SentLeft(s: seq<Key>, value: string, at: nat, first: nat, current: nat, last: nat)
    requires first < last < |s| && last - first > 1 && current == (first + last) / 2
    requires StrCmp(value, s[current].val) < 0 && current <= at
    ensures Search(s, None, Some(value), first, last) != Some(at)
  {
    hide StrCmp, Between, RunStart;
    var r := Search(s, None, Some(value), first, last);
    assert r == Search(s, None, Some(value), first, current);
    if r.Some? { SearchBounds(s, None, Some(value), first, current); }
  }

  lemma SentRight(s: seq<Key>, value: string, at: nat, first: nat, current: nat, last: nat)
    requires first < last < |s| && last - first > 1 && current == (first + last) / 2
    requires StrCmp(value, s[current].val) > 0 && at <= current
    ensures Search(s, None, Some(value), first, last) != Some(at)
  {
    hide StrCmp, Between, RunStart;
    assert Search(s, None, Some(value), first, last) == Search(s, None, Some(value), current, last);
    if Search(s, None, Some(value), current, last).Some? { SearchBounds(s, None, Some(value), current, last); }
  }

  /** Around a fall from `s[i]` to `s[i + 1]` the search cannot find both the run of the higher value that
      ends at `i` and the first entry with the lower one: the first entry it compares on either side of the
      fall, or at it, sends one of the two the wrong way. */
  lemma {:induction false} FallHides(s: seq<Key>, v: string, w: string, m: nat, i: nat, first: nat, last: nat)
    requires first <= i && i + 1 <= last < |s| && last - first >= 2 && m <= i
    requires StrCmp(v, w) > 0 && s[i + 1].val == w
    requires forall k :: 0 <= k < |s| && s[k].val == v ==> k <= i
    requires forall k :: m <= k <= i ==> s[k].val == v
    requires forall k :: 0 <= k < |s| && s[k].val == w ==> i + 1 <= k
    ensures Search(s, None, Some(v), first, last) != Some(m) || Search(s, None, Some(w), first, last) != Some(i + 1)
    decreases last - first
  {
    hide StrCmp, Between, RunStart;
    var current := (first + last) / 2;
    var x := s[current].val;
    StrCmpZero(v, x);
    StrCmpZero(w, x);
    StrCmpAntisymmetric(v, w);
    if current <= i {
      if StrCmp(w, x) < 0 {
        SentLeft(s, w, i + 1, first, current, last);
      } else {
        StrCmpAntisymmetric(w, x);
        StrCmpTransitive(x, w, v);
        StrCmpAntisymmetric(x, v);
        FallHides(s, v, w, m, i, current, last);
      }
    } else if StrCmp(v, x) > 0 {
      SentRight(s, v, m, first, current, last);
    } else {
      StrCmpTransitive(w, v, x);
      FallHides(s, v, w, m, i, first, current);
    }
  }

  /** Where the calls from `cursor` on are those expected, everything up to a match matches. */
  lemma {:induction false} ExpectedRun(s: seq<Key>, value: string, cursor: nat, k: nat)
    requires 0 < cursor <= k < |s| && Probe(None, Some(value), s[k]) == 0
    requires Calls(s, true, None, Some(value), cursor, k - cursor + 1) ==
             Expected(s, None, Some(value), cursor, k - cursor + 1)
    ensures forall j :: cursor <= j <= k ==> Probe(None, Some(value), s[j]) == 0
    decreases k - cursor
  {
    hide Probe, Calls, Expected;
    var n := k - cursor + 1;
    FirstExpected(s, value, cursor, k, n);
    NextCalls(s, value, cursor, n);
    if cursor < k {
      ExpectedStep(s, None, Some(value), cursor, n);
      ExpectedRun(s, value, cursor + 1, k);
    }
  }

  lemma FirstExpected(s: seq<Key>, value: string, from: nat, k: nat, n: nat)
    requires from <= k < |s| && Probe(None, Some(value), s[k]) == 0 && n > 0
    ensures Expected(s, None, Some(value), from, n)[0].Some?
  {
    hide Probe;
    MatchesAll(s, None, Some(value), from, k);
  }

  /** A call behind the first entry gives the entry at the cursor, or nothing. */
  lemma NextCalls(s: seq<Key>, value: string, cursor: nat, n: nat)
    requires 0 < cursor < |s| && n > 0
    ensures var c := Calls(s, true, None, Some(value), cursor, n);
            && (c[0].Some? <==> Probe(None, Some(value), s[cursor]) == 0)
            && (c[0].Some? ==> c[1..] == Calls(s, true, None, Some(value), cursor + 1, n - 1))
  {
    hide Probe, Search;
  }

  /** A complete search for the value of some entry finds the first entry with that value, and the others
      follow it. */
  lemma CompleteRun(s: seq<Key>, i: nat) returns (m: nat)
    requires i < |s| && Complete(s, s[i].val)
    ensures m <= i && Search(s, None, Some(s[i].val), 0, |s| - 1) == Some(m)
    ensures forall k :: 0 <= k < |s| && s[k].val == s[i].val ==> m <= k
    ensures forall j, k :: m <= j <= k < |s| && s[k].val == s[i].val ==> s[j].val == s[i].val
  {
    hide Probe, Search, Calls, Expected;
    var v := s[i].val;
    ValueProbes(s, v);
    FirstFound(s, v, i);
    m := Search(s, None, Some(v), 0, |s| - 1).value;
    forall j, k | m <= j <= k < |s| && s[k].val == v ensures s[j].val == v {
      if m < j {
        AfterFirst(s, v, m, k - m);
        ExpectedRun(s, v, m + 1, k);
        assert Probe(None, Some(v), s[j]) == 0;
      }
    }
  }

  lemma ValueProbes(s: seq<Key>, value: string)
    ensures forall i :: 0 <= i < |s| ==> (Probe(None, Some(value), s[i]) == 0 <==> s[i].val == value)
  {
    hide StrCmp;
    forall i | 0 <= i < |s| ensures Probe(None, Some(value), s[i]) == 0 <==> s[i].val == value {
      StrCmpZero(value, s[i].val);
    }
  }

  lemma FirstFound(s: seq<Key>, value: string, i: nat)
    requires i < |s| && Probe(None, Some(value), s[i]) == 0 && Complete(s, value)
    ensures var r := Search(s, None, Some(value), 0, |s| - 1);
            r.Some? && forall k :: 0 <= k < |s| && Probe(None, Some(value), s[k]) == 0 ==> r.value <= k
  {
    hide Probe, Search;
    var e := Expected(s, None, Some(value), 0, 1);
    FirstOfCalls(s, None, Some(value), 1);
    assert Search(s, None, Some(value), 0, |s| - 1) == e[0];
    forall k | 0 <= k < |s| && Probe(None, Some(value), s[k]) == 0 ensures e[0].Some? && e[0].value <= k {
      MatchesAll(s, None, Some(value), 0, k);
    }
  }

  lemma AfterFirst(s: seq<Key>, value: string, m: nat, n: nat)
    requires s != [] && Search(s, None, Some(value), 0, |s| - 1) == Some(m) && Complete(s, value)
    requires forall k :: 0 <= k < |s| && Probe(None, Some(value), s[k]) == 0 ==> m <= k
    ensures Calls(s, true, None, Some(value), m + 1, n) == Expected(s, None, Some(value), m + 1, n)
  {
    hide Probe, Search, Calls, Expected;
    FirstOfCalls(s, None, Some(value), n + 1);
    assert Calls(s, true, None, Some(value), 0, n + 1) == Expected(s, None, Some(value), 0, n + 1);
    SkipMatches(s, None, Some(value), 0, m);
    ExpectedFrom(s, None, Some(value), 0, m, n + 1);
    ExpectedStep(s, None, Some(value), m, n + 1);
    assert ([Some(m)] + Calls(s, true, None, Some(value), m + 1, n))[1..] ==
           Calls(s, true, None, Some(value), m + 1, n);
  }

  predicate FallsAt(s: seq<Key>, i: nat)
    requires i + 1 < |s|
  {
    StrCmp(s[i].val, s[i + 1].val) > 0
  }

  /** Values that do not fall from one entry to the next do not fall at all. */
  lemma {:induction false} RiseByStep(s: seq<Key>, i: nat, j: nat)
    requires i < j < |s| && forall k :: 0 <= k < |s| - 1 ==> !FallsAt(s, k)
    ensures StrCmp(s[i].val, s[j].val) <= 0
    decreases j
  {
    hide StrCmp;
    assert !FallsAt(s, j - 1);
    if i < j - 1 {
      RiseByStep(s, i, j - 1);
      StrCmpTransitive(s[i].val, s[j - 1].val, s[j].val);
    }
  }

  lemma AllRise(s: seq<Key>)
    requires forall k :: 0 <= k < |s| - 1 ==> !FallsAt(s, k)
    ensures ValuesRise(s)
  {
    hide StrCmp;
    forall i, j | 0 <= i < j < |s| ensures StrCmp(s[i].val, s[j].val) <= 0 {
      RiseByStep(s, i, j);
    }
  }

  /** On any index, sorted or not, whatever value is looked for alone is found everywhere exactly when the
      values do not fall along the index, or there are at most two entries. */
  lemma ValueCompleteIff(s: seq<Key>)
    ensures (forall value :: Complete(s, value)) <==> |s| <= 2 || ValuesRise(s)
  {
    hide StrCmp, Complete, ValuesRise, Search;
    if |s| <= 2 || ValuesRise(s) {
      forall value ensures Complete(s, value) {
        RisingComplete(s, value);
      }
    } else if forall value :: Complete(s, value) {
      if forall k :: 0 <= k < |s| - 1 ==> !FallsAt(s, k) {
        AllRise(s);
      }
      var i: nat :| i < |s| - 1 && FallsAt(s, i);
      var v, w := s[i].val, s[i + 1].val;
      StrCmpZero(v, w);
      var m := CompleteRun(s, i);
      var m' := CompleteRun(s, i + 1);
      FallHides(s, v, w, m, i, 0, |s| - 1);
    }
  }
}
