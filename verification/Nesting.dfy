/** The loader's stack discipline: whatever the input, tags nest, and the chain of open elements is
    exactly what has been opened and not yet closed. */
module Nesting {
  import opened CStrings
  import opened XmlTree
  import opened Loader

  /** What one turn of the main loop reads: the start of an element, the end of one, or both. */
  datatype Event = Start(name: string) | End(name: string)

  function TagEvents(st: State, s: Stream, cfg: Config): (es: seq<Event>) {
    var tag := ReadTag(s, "", cfg);
    if tag.Broken? || tag.buf == COMMENT || tag.buf == CDATA then []
    else if StartsWith(tag.buf, "?") then
      var c := ReadSpecial(tag.rest, DirectiveTag, tag.buf);
      if c.Broken? || st.stack != [] then [] else [Start(c.buf)]
    else if StartsWith(tag.buf, "!") then
      var c := ReadDeclaration(tag.ch, tag.rest, tag.buf, cfg);
      if c.Broken? || st.stack != [] then [] else [Start(c.buf)]
    else if StartsWith(tag.buf, "/") then [End(tag.buf[1..])]
    else if TagEnd(tag, cfg).ch == '/' as int then [Start(tag.buf), End(tag.buf)]
    else [Start(tag.buf)]
  }

  function StepEvents(st: State, s: Stream, cfg: Config): (es: seq<Event>) {
    if Head(s) == '<' as int then TagEvents(st, Rest(s), cfg) else []
  }

  /** Properly nested starts and ends: each end names the innermost open start. */
  ghost predicate Balanced(t: seq<Event>)
    decreases |t|
  {
    t != [] ==> t[0].Start? && exists j :: 0 < j < |t| && Matches(t, j) && Balanced(t[1..j]) && Balanced(t[j + 1..])
  }

  predicate Matches(t: seq<Event>, j: nat)
    requires 0 < j < |t| && t[0].Start?
  {
    t[j] == End(t[0].name)
  }

  /** `t` is nested except that the elements `open`, outermost first, have not ended. */
  ghost predicate LeavesOpen(t: seq<Event>, open: seq<string>)
    decreases |open|
  {
    if open == [] then Balanced(t)
    else exists i :: 0 <= i < |t| && StartsAt(t, i, open[|open| - 1])
           && LeavesOpen(t[..i], open[..|open| - 1]) && Balanced(t[i + 1..])
  }

  predicate StartsAt(t: seq<Event>, i: nat, name: string)
    requires i < |t|
  {
    t[i] == Start(name)
  }

  lemma BalancedSplit(t: seq<Event>) returns (name: string, inner: seq<Event>, more: seq<Event>)
    requires Balanced(t) && t != []
    ensures t == [Start(name)] + inner + [End(name)] + more && Balanced(inner) && Balanced(more)
  {
    hide Balanced;
    var j := BalancedAt(t);
    name, inner, more := t[0].name, t[1..j], t[j + 1..];
    assert t == [t[0]] + t[1..j] + [t[j]] + t[j + 1..];
  }

  lemma BalancedAt(t: seq<Event>) returns (j: nat)
    requires Balanced(t) && t != []
    ensures t[0].Start? && 0 < j < |t| && Matches(t, j) && Balanced(t[1..j]) && Balanced(t[j + 1..])
  {
    j :| 0 < j < |t| && Matches(t, j) && Balanced(t[1..j]) && Balanced(t[j + 1..]);
  }

  lemma BalancedJoin(name: string, inner: seq<Event>, more: seq<Event>)
    requires Balanced(inner) && Balanced(more)
    ensures Balanced([Start(name)] + inner + [End(name)] + more)
  {
    var t := [Start(name)] + inner + [End(name)] + more;
    var j := |inner| + 1;
    assert t[1..j] == inner && t[j + 1..] == more && Matches(t, j);
  }

  lemma BalancedEmpty()
    ensures Balanced([])
  {
  }

  lemma {:induction false} BalancedAppend(a: seq<Event>, b: seq<Event>)
    requires Balanced(a) && Balanced(b)
    ensures Balanced(a + b)
    decreases |a|
  {
    hide Balanced;
    if a == [] {
      assert a + b == b;
    } else {
      var name, inner, more := BalancedSplit(a);
      BalancedAppend(more, b);
      BalancedJoin(name, inner, more + b);
      assert a + b == [Start(name)] + inner + [End(name)] + (more + b);
    }
  }

  lemma BalancedElement(name: string, inner: seq<Event>)
    requires Balanced(inner)
    ensures Balanced([Start(name)] + inner + [End(name)])
  {
    hide Balanced;
    BalancedEmpty();
    BalancedJoin(name, inner, []);
    assert [Start(name)] + inner + [End(name)] + [] == [Start(name)] + inner + [End(name)];
  }

  lemma LeavesSplit(t: seq<Event>, open: seq<string>) returns (before: seq<Event>, inner: seq<Event>)
    requires LeavesOpen(t, open) && open != []
    ensures var n := |open| - 1;
            t == before + [Start(open[n])] + inner && LeavesOpen(before, open[..n]) && Balanced(inner)
  {
    hide Balanced;
    var n := |open| - 1;
    var i :| 0 <= i < |t| && StartsAt(t, i, open[n]) && LeavesOpen(t[..i], open[..n]) && Balanced(t[i + 1..]);
    before, inner := t[..i], t[i + 1..];
    assert t == t[..i] + [t[i]] + t[i + 1..];
  }

  lemma LeavesJoin(before: seq<Event>, open: seq<string>, name: string, inner: seq<Event>)
    requires LeavesOpen(before, open) && Balanced(inner)
    ensures LeavesOpen(before + [Start(name)] + inner, open + [name])
  {
    var t := before + [Start(name)] + inner;
    var i := |before|;
    assert t[..i] == before && t[i + 1..] == inner && StartsAt(t, i, name);
    assert (open + [name])[..|open|] == open;
  }

  lemma LeavesNone(t: seq<Event>)
    ensures LeavesOpen(t, []) <==> Balanced(t)
  {
  }

  lemma LeavesAppend(t: seq<Event>, open: seq<string>, b: seq<Event>)
    requires LeavesOpen(t, open) && Balanced(b)
    ensures LeavesOpen(t + b, open)
  {
    hide Balanced, LeavesOpen;
    if open == [] {
      LeavesNone(t);
      BalancedAppend(t, b);
      LeavesNone(t + b);
    } else {
      var n := |open| - 1;
      var before, inner := LeavesSplit(t, open);
      BalancedAppend(inner, b);
      LeavesJoin(before, open[..n], open[n], inner + b);
      assert t + b == before + [Start(open[n])] + (inner + b) && open[..n] + [open[n]] == open;
    }
  }

  lemma LeavesStart(t: seq<Event>, open: seq<string>, name: string)
    requires LeavesOpen(t, open)
    ensures LeavesOpen(t + [Start(name)], open + [name])
  {
    hide Balanced, LeavesOpen;
    BalancedEmpty();
    LeavesJoin(t, open, name, []);
    assert t + [Start(name)] + [] == t + [Start(name)];
  }

  lemma LeavesEnd(t: seq<Event>, open: seq<string>)
    requires LeavesOpen(t, open) && open != []
    ensures LeavesOpen(t + [End(open[|open| - 1])], open[..|open| - 1])
  {
    hide Balanced, LeavesOpen;
    var n := |open| - 1;
    var before, inner := LeavesSplit(t, open);
    var element := [Start(open[n])] + inner + [End(open[n])];
    BalancedElement(open[n], inner);
    LeavesAppend(before, open[..n], element);
    assert before + element == t + [End(open[n])];
  }

  function Names(stack: seq<Frame>): (names: seq<string>)
    ensures |names| == |stack| && forall i :: 0 <= i < |stack| ==> names[i] == stack[i].name
  {
    if stack == [] then [] else Names(stack[..|stack| - 1]) + [stack[|stack| - 1].name]
  }

  /** What holds between turns: nothing is open and nothing counts before the first node; once
      something is open there is no other root. */
  predicate Consistent(st: State) {
    (st.stack == [] && st.done.None? ==> st.vtype == Ignore) && (st.stack != [] ==> st.done.None?)
  }

  lemma NamesKept(a: seq<Frame>, b: seq<Frame>)
    requires |a| == |b| && forall i :: 0 <= i < |a| ==> a[i].name == b[i].name
    ensures Names(a) == Names(b)
  {
  }

  lemma AddLeafKeeps(st: State, n: Node)
    ensures Names(AddLeaf(st, n).stack) == Names(st.stack)
    ensures AddLeaf(st, n).vtype == st.vtype && (st.stack != [] ==> AddLeaf(st, n).done == st.done)
    ensures st.stack == [] ==> AddLeaf(st, n).stack == [] && AddLeaf(st, n).done.Some?
  {
    NamesKept(st.stack, AddLeaf(st, n).stack);
  }

  /** Gathered text, and white space before a tag, open and close nothing. */
  lemma FlushKeeps(st: State, ch: int, cfg: Config)
    requires Consistent(st)
    ensures var st1 := Flush(st, ch); Consistent(st1) && Names(st1.stack) == Names(st.stack) && st1.vtype == st.vtype
    ensures var st2 := LoneSpace(Flush(st, ch), cfg).(buf := ""); Consistent(st2) && Names(st2.stack) == Names(st.stack)
  {
    hide AddLeaf, Names;
    AddLeafKeeps(st, Opaque(st.buf));
    AddLeafKeeps(st, Text(st.ws, st.buf));
    AddLeafKeeps(Flush(st, ch), Text(true, ""));
  }

  lemma OpenNames(st: State, name: string, attrs: seq<Attr>)
    ensures Names(Open(st, name, attrs).stack) == Names(st.stack) + [name]
  {
    var stack := Open(st, name, attrs).stack;
    assert stack[..|stack| - 1] == st.stack;
  }

  lemma PopNames(st: State)
    requires st.stack != [] && Consistent(st)
    ensures Names(Pop(st).stack) == Names(st.stack[..|st.stack| - 1]) && Consistent(Pop(st))
  {
    var n := |st.stack| - 1;
    AddLeafKeeps(st.(stack := st.stack[..n]), Closed(st.stack[n]));
  }

  lemma SpecialKeeps(t: seq<Event>, st: State, kind: Special, tag: Chunk, cfg: Config)
    requires LeavesOpen(t, Names(st.stack)) && Consistent(st) && tag.Chunk? && SpecialTag(st, kind, tag, cfg).Next?
    ensures var st' := SpecialTag(st, kind, tag, cfg).st;
            var c := ReadSpecial(tag.rest, kind, tag.buf);
            Consistent(st') && c.Chunk?
            && LeavesOpen(t + (if kind == DirectiveTag && st.stack == [] then [Start(c.buf)] else []), Names(st'.stack))
  {
    hide ReadSpecial, LeavesOpen, Names;
    var c := ReadSpecial(tag.rest, kind, tag.buf);
    assert t + [] == t;
    AddLeafKeeps(st, Element(c.buf, [], []));
    OpenNames(st, c.buf, []);
    LeavesStart(t, Names(st.stack), c.buf);
  }

  lemma DeclarationKeeps(t: seq<Event>, st: State, tag: Chunk, cfg: Config)
    requires LeavesOpen(t, Names(st.stack)) && Consistent(st) && tag.Chunk? && DeclarationTag(st, tag, cfg).Next?
    ensures var st' := DeclarationTag(st, tag, cfg).st;
            var c := ReadDeclaration(tag.ch, tag.rest, tag.buf, cfg);
            && Consistent(st') && c.Chunk?
            && LeavesOpen(t + (if st.stack == [] then [Start(c.buf)] else []), Names(st'.stack))
  {
    hide ReadDeclaration, LeavesOpen, Names;
    var c := ReadDeclaration(tag.ch, tag.rest, tag.buf, cfg);
    assert t + [] == t;
    AddLeafKeeps(st, Element(c.buf, [], []));
    OpenNames(st, c.buf, []);
    LeavesStart(t, Names(st.stack), c.buf);
  }

  /** A close tag is accepted only when it names the innermost open element. */
  lemma CloseKeeps(t: seq<Event>, st: State, tag: Chunk, cfg: Config)
    requires LeavesOpen(t, Names(st.stack)) && Consistent(st) && tag.Chunk? && tag.buf != ""
    requires CloseElement(st, tag, cfg).Next?
    ensures var st' := CloseElement(st, tag, cfg).st;
            && Consistent(st') && LeavesOpen(t + [End(tag.buf[1..])], Names(st'.stack))
            && st.stack != [] && tag.buf[1..] == st.stack[|st.stack| - 1].name
  {
    hide SkipToEnd, LeavesOpen, Pop;
    PopNames(st);
    LeavesEnd(t, Names(st.stack));
  }

  lemma OpenKeeps(t: seq<Event>, st: State, tag: Chunk, cfg: Config)
    requires LeavesOpen(t, Names(st.stack)) && Consistent(st) && tag.Chunk? && OpenElement(st, tag, cfg).Next?
    ensures var st' := OpenElement(st, tag, cfg).st;
            var es := if TagEnd(tag, cfg).ch == '/' as int then [Start(tag.buf), End(tag.buf)] else [Start(tag.buf)];
            Consistent(st') && LeavesOpen(t + es, Names(st'.stack))
  {
    hide TagEnd, LeavesOpen, Names;
    var p := TagEnd(tag, cfg);
    AddLeafKeeps(st, Element(tag.buf, p.attrs, []));
    OpenNames(st, tag.buf, p.attrs);
    LeavesStart(t, Names(st.stack), tag.buf);
    LeafEvents(t, Names(st.stack), tag.buf);
  }

  /** A tag changes the chain of open elements exactly as its events say. */
  lemma TagKeeps(t: seq<Event>, st: State, s: Stream, cfg: Config)
    requires LeavesOpen(t, Names(st.stack)) && Consistent(st) && Tag(st, s, cfg).Next?
    ensures var st' := Tag(st, s, cfg).st;
            LeavesOpen(t + TagEvents(st, s, cfg), Names(st'.stack)) && Consistent(st')
  {
    hide ReadTag, ReadSpecial, ReadDeclaration, TagEnd, LeavesOpen, SpecialTag, DeclarationTag, CloseElement;
    hide OpenElement;
    var tag := ReadTag(s, "", cfg);
    if tag.buf == COMMENT {
      SpecialKeeps(t, st, CommentTag, tag, cfg);
    } else if tag.buf == CDATA {
      SpecialKeeps(t, st, CDataTag, tag, cfg);
    } else if StartsWith(tag.buf, "?") {
      SpecialKeeps(t, st, DirectiveTag, tag, cfg);
    } else if StartsWith(tag.buf, "!") {
      DeclarationKeeps(t, st, tag, cfg);
    } else if StartsWith(tag.buf, "/") {
      CloseKeeps(t, st, tag, cfg);
    } else {
      OpenKeeps(t, st, tag, cfg);
    }
  }

  lemma LeafEvents(t: seq<Event>, open: seq<string>, name: string)
    requires LeavesOpen(t, open)
    ensures LeavesOpen(t + [Start(name), End(name)], open)
  {
    BalancedElement(name, []);
    assert [Start(name)] + [] + [End(name)] == [Start(name), End(name)];
    LeavesAppend(t, open, [Start(name), End(name)]);
  }

  /** One turn of the main loop keeps the discipline. */
  lemma StepKeeps(t: seq<Event>, st: State, s: Stream, cfg: Config)
    requires LeavesOpen(t, Names(st.stack)) && Consistent(st) && Step(st, s, cfg).Next?
    ensures var st' := Step(st, s, cfg).st;
            LeavesOpen(t + StepEvents(st, s, cfg), Names(st'.stack)) && Consistent(st')
  {
    hide Tag, TagEvents, GetEntity, LeavesOpen, LoneSpace, Flush;
    FlushKeeps(st, Head(s), cfg);
    if Head(s) == '<' as int {
      var st2 := LoneSpace(Flush(st, Head(s)), cfg).(buf := "");
      TagKeeps(t, st2, Rest(s), cfg);
      SameEvents(st, st2, Rest(s), cfg);
    } else {
      assert t + [] == t;
    }
  }

  lemma SameEvents(st: State, st2: State, s: Stream, cfg: Config)
    requires Names(st.stack) == Names(st2.stack)
    ensures TagEvents(st, s, cfg) == TagEvents(st2, s, cfg)
  {
  }

  // -- Whole runs -------------------------------------------------------------------------------------

  /** A point in a run: the loop's state, the input left, and the events so far. */
  datatype Point = Point(st: State, rest: Stream, events: seq<Event>)

  /** The point before turn `k`, if the loop gets that far. */
  function After(k: nat, s: Stream, cfg: Config): (p: Option<Point>) {
    if k == 0 then Some(Point(START, s, []))
    else
      match After(k - 1, s, cfg)
      case None => None
      case Some(p) =>
        var o := Step(p.st, p.rest, cfg);
        if o.Next? then Some(Point(o.st, o.rest, p.events + StepEvents(p.st, p.rest, cfg))) else None
  }

  lemma StartNested()
    ensures LeavesOpen([], Names(START.stack)) && Consistent(START)
  {
  }

  /** At every point of every run, the chain of open elements is what the tags read so far opened
      and did not close, and those tags are properly nested. */
  lemma {:induction false} AlwaysNested(k: nat, s: Stream, cfg: Config)
    requires After(k, s, cfg).Some?
    ensures var p := After(k, s, cfg).value;
            LeavesOpen(p.events, Names(p.st.stack)) && Consistent(p.st)
  {
    hide Step, StepEvents, LeavesOpen, Names, Consistent;
    StartNested();
    if k > 0 {
      AlwaysNested(k - 1, s, cfg);
      var p := After(k - 1, s, cfg).value;
      StepKeeps(p.events, p.st, p.rest, cfg);
    }
  }

  /** A run that is not over has consumed input in every turn, so it ends; its result is that of the
      loop from the point reached. */
  lemma {:induction false} RunFrom(k: nat, s: Stream, cfg: Config)
    requires After(k, s, cfg).Some?
    ensures var p := After(k, s, cfg).value;
            |p.rest| + k <= |s| && Load(s, cfg) == Run(p.st, p.rest, cfg)
  {
    hide Step;
    if k > 0 {
      RunFrom(k - 1, s, cfg);
    }
  }

  lemma AfterNext(k: nat, s: Stream, cfg: Config)
    requires After(k, s, cfg).Some? && Step(After(k, s, cfg).value.st, After(k, s, cfg).value.rest, cfg).Next?
    ensures After(k + 1, s, cfg).Some?
  {
    hide Step, StepEvents;
  }

  /** The turn in which the loop ends. */
  lemma {:induction false} LastTurn(k: nat, s: Stream, cfg: Config) returns (last: nat)
    requires After(k, s, cfg).Some?
    ensures After(last, s, cfg).Some? && !Step(After(last, s, cfg).value.st, After(last, s, cfg).value.rest, cfg).Next?
    decreases |s| - k
  {
    hide Step, After;
    RunFrom(k, s, cfg);
    var p := After(k, s, cfg).value;
    if Step(p.st, p.rest, cfg).Next? {
      AfterNext(k, s, cfg);
      RunFrom(k + 1, s, cfg);
      last := LastTurn(k + 1, s, cfg);
    } else {
      last := k;
    }
  }

  // -- One root -------------------------------------------------------------------------------------

  /** How many elements `t` leaves open. */
  function Depth(t: seq<Event>): (d: int) {
    if t == [] then 0 else Depth(t[..|t| - 1]) + if t[|t| - 1].Start? then 1 else -1
  }

  lemma {:induction false} DepthAppend(a: seq<Event>, b: seq<Event>)
    ensures Depth(a + b) == Depth(a) + Depth(b)
    decreases |b|
  {
    if b == [] {
      assert a + b == a;
    } else {
      DepthAppend(a, b[..|b| - 1]);
      assert (a + b)[..|a + b| - 1] == a + b[..|b| - 1];
    }
  }

  lemma DepthOne(e: Event)
    ensures Depth([]) == 0 && Depth([e]) == if e.Start? then 1 else -1
  {
    assert [e][..0] == [];
  }

  lemma {:induction false} BalancedDepth(t: seq<Event>)
    requires Balanced(t)
    ensures Depth(t) == 0
    decreases |t|
  {
    hide Balanced, Depth;
    DepthOne(End(""));
    if t != [] {
      var name, inner, more := BalancedSplit(t);
      BalancedDepth(inner);
      BalancedDepth(more);
      DepthOne(Start(name));
      DepthOne(End(name));
      DepthAppend([Start(name)], inner);
      DepthAppend([Start(name)] + inner, [End(name)]);
      DepthAppend([Start(name)] + inner + [End(name)], more);
    }
  }

  lemma {:induction false} LeavesDepth(t: seq<Event>, open: seq<string>)
    requires LeavesOpen(t, open)
    ensures Depth(t) == |open|
    decreases |open|
  {
    hide Balanced, Depth, LeavesOpen;
    if open == [] {
      LeavesNone(t);
      BalancedDepth(t);
    } else {
      var n := |open| - 1;
      var before, inner := LeavesSplit(t, open);
      LeavesDepth(before, open[..n]);
      BalancedDepth(inner);
      DepthOne(Start(open[n]));
      DepthAppend(before, [Start(open[n])]);
      DepthAppend(before + [Start(open[n])], inner);
    }
  }

  /** Once the first element has started, something stays open until the last event. */
  ghost predicate OneRoot(t: seq<Event>) {
    forall i :: 0 < i < |t| ==> Depth(t[..i]) > 0
  }

  /** Nested tags under one root are that root's start, what is inside it, and its end. */
  lemma OneElement(t: seq<Event>) returns (inner: seq<Event>)
    requires Balanced(t) && OneRoot(t) && t != []
    ensures t[0].Start? && Balanced(inner) && t == [t[0]] + inner + [End(t[0].name)]
  {
    hide Balanced, Depth;
    var name, body, more := BalancedSplit(t);
    inner := body;
    var whole := [Start(name)] + inner + [End(name)];
    BalancedElement(name, inner);
    BalancedDepth(whole);
    assert t[..|whole|] == whole;
  }

  /** The element read first is the outermost open one, or the root once it is closed.  A comment or CDATA
      section can be the root too; it is no element that opens or closes. */
  ghost predicate Rooted(t: seq<Event>, st: State) {
    && OneRoot(t)
    && (st.stack != [] ==> t != [] && t[0] == Start(st.stack[0].name))
    && (st.stack == [] && st.done.None? ==> t == [])
    && (st.stack == [] && st.done.Some? ==>
          st.done.value.Element? && (t != [] ==> t[0] == Start(st.done.value.name)))
  }

  /** One more event after `t`, while something is open or at the very start. */
  lemma OneMore(t: seq<Event>, e: Event)
    requires OneRoot(t) && (t != [] ==> Depth(t) > 0)
    ensures OneRoot(t + [e])
  {
    hide Depth;
    forall i | 0 < i < |t + [e]| ensures Depth((t + [e])[..i]) > 0 {
      if i < |t| {
        assert (t + [e])[..i] == t[..i];
      } else {
        assert (t + [e])[..i] == t;
      }
    }
  }

  lemma OneLeaf(t: seq<Event>, name: string)
    requires OneRoot(t) && (t != [] ==> Depth(t) > 0)
    ensures OneRoot(t + [Start(name), End(name)])
  {
    hide Depth, OneRoot;
    OneMore(t, Start(name));
    DepthAppend(t, [Start(name)]);
    DepthOne(Start(name));
    OneMore(t + [Start(name)], End(name));
    assert t + [Start(name)] + [End(name)] == t + [Start(name), End(name)];
  }

  /** The same element, with more children at most. */
  predicate Grows(a: Frame, b: Frame) {
    a.name == b.name && a.attrs == b.attrs && a.kids <= b.kids
  }

  /** What gathered text and white space leave alone. */
  predicate SameRoot(a: State, b: State) {
    && |a.stack| == |b.stack| && a.done == b.done
    && (a.stack != [] ==> Grows(a.stack[0], b.stack[0]))
  }

  lemma LeafSame(st: State, n: Node)
    requires st.stack != [] || st.done.Some?
    ensures SameRoot(st, AddLeaf(st, n))
  {
  }

  lemma FlushSame(st: State, ch: int)
    requires Consistent(st)
    ensures SameRoot(st, Flush(st, ch))
  {
    hide AddLeaf;
    if st.stack != [] || st.done.Some? {
      LeafSame(st, Opaque(st.buf));
      LeafSame(st, Text(st.ws, st.buf));
    }
  }

  lemma SpaceSame(st: State, cfg: Config)
    ensures SameRoot(st, LoneSpace(st, cfg))
  {
    hide AddLeaf;
    if st.stack != [] {
      LeafSame(st, Text(true, ""));
    }
  }

  lemma FlushRooted(t: seq<Event>, st: State, ch: int, cfg: Config)
    requires Consistent(st) && Rooted(t, st)
    ensures Rooted(t, Flush(st, ch)) && Rooted(t, LoneSpace(Flush(st, ch), cfg).(buf := ""))
    ensures SameRoot(st, LoneSpace(Flush(st, ch), cfg))
  {
    hide OneRoot, LoneSpace, Flush;
    FlushSame(st, ch);
    SpaceSame(Flush(st, ch), cfg);
  }

  lemma SpecialRooted(t: seq<Event>, st: State, kind: Special, tag: Chunk, cfg: Config)
    requires Rooted(t, st) && tag.Chunk? && SpecialTag(st, kind, tag, cfg).Next?
    ensures var c := ReadSpecial(tag.rest, kind, tag.buf);
            c.Chunk? && Rooted(t + (if kind == DirectiveTag && st.stack == [] then [Start(c.buf)] else []),
                               SpecialTag(st, kind, tag, cfg).st)
  {
    hide ReadSpecial, OneRoot;
    var c := ReadSpecial(tag.rest, kind, tag.buf);
    assert t + [] == t;
    if t == [] { OneMore(t, Start(c.buf)); }
  }

  lemma DeclarationRooted(t: seq<Event>, st: State, tag: Chunk, cfg: Config)
    requires Rooted(t, st) && tag.Chunk? && DeclarationTag(st, tag, cfg).Next?
    ensures var c := ReadDeclaration(tag.ch, tag.rest, tag.buf, cfg);
            c.Chunk? && Rooted(t + (if st.stack == [] then [Start(c.buf)] else []), DeclarationTag(st, tag, cfg).st)
  {
    hide ReadDeclaration, OneRoot;
    var c := ReadDeclaration(tag.ch, tag.rest, tag.buf, cfg);
    assert t + [] == t;
    if t == [] { OneMore(t, Start(c.buf)); }
  }

  lemma CloseRooted(t: seq<Event>, st: State, tag: Chunk, cfg: Config)
    requires Rooted(t, st) && tag.Chunk? && tag.buf != "" && CloseElement(st, tag, cfg).Next?
    requires Depth(t) == |st.stack|
    ensures Rooted(t + [End(tag.buf[1..])], CloseElement(st, tag, cfg).st)
  {
    hide SkipToEnd, OneRoot, Depth;
    OneMore(t, End(tag.buf[1..]));
  }

  lemma OpenRooted(t: seq<Event>, st: State, tag: Chunk, cfg: Config)
    requires Rooted(t, st) && tag.Chunk? && OpenElement(st, tag, cfg).Next? && Depth(t) == |st.stack|
    ensures var es := if TagEnd(tag, cfg).ch == '/' as int then [Start(tag.buf), End(tag.buf)] else [Start(tag.buf)];
            Rooted(t + es, OpenElement(st, tag, cfg).st)
  {
    hide TagEnd, OneRoot, Depth;
    OneLeaf(t, tag.buf);
    OneMore(t, Start(tag.buf));
  }

  lemma TagRooted(t: seq<Event>, st: State, s: Stream, cfg: Config)
    requires LeavesOpen(t, Names(st.stack)) && Rooted(t, st) && Tag(st, s, cfg).Next?
    ensures Rooted(t + TagEvents(st, s, cfg), Tag(st, s, cfg).st)
  {
    hide ReadTag, ReadSpecial, ReadDeclaration, TagEnd, LeavesOpen, SpecialTag, DeclarationTag, CloseElement;
    hide OpenElement;
    hide Rooted, Depth;
    LeavesDepth(t, Names(st.stack));
    var tag := ReadTag(s, "", cfg);
    if tag.buf == COMMENT {
      SpecialRooted(t, st, CommentTag, tag, cfg);
    } else if tag.buf == CDATA {
      SpecialRooted(t, st, CDataTag, tag, cfg);
    } else if StartsWith(tag.buf, "?") {
      SpecialRooted(t, st, DirectiveTag, tag, cfg);
    } else if StartsWith(tag.buf, "!") {
      DeclarationRooted(t, st, tag, cfg);
    } else if StartsWith(tag.buf, "/") {
      CloseRooted(t, st, tag, cfg);
    } else {
      OpenRooted(t, st, tag, cfg);
    }
  }

  /** One turn of the main loop keeps a single root. */
  lemma StepRooted(t: seq<Event>, st: State, s: Stream, cfg: Config)
    requires LeavesOpen(t, Names(st.stack)) && Consistent(st) && Rooted(t, st) && Step(st, s, cfg).Next?
    ensures Rooted(t + StepEvents(st, s, cfg), Step(st, s, cfg).st)
  {
    hide Tag, TagEvents, GetEntity, LeavesOpen, LoneSpace, Flush, OneRoot;
    FlushKeeps(st, Head(s), cfg);
    FlushRooted(t, st, Head(s), cfg);
    if Head(s) == '<' as int {
      var st2 := LoneSpace(Flush(st, Head(s)), cfg).(buf := "");
      TagRooted(t, st2, Rest(s), cfg);
      SameEvents(st, st2, Rest(s), cfg);
    } else {
      assert t + [] == t;
    }
  }

  lemma {:induction false} AlwaysRooted(k: nat, s: Stream, cfg: Config)
    requires After(k, s, cfg).Some?
    ensures Rooted(After(k, s, cfg).value.events, After(k, s, cfg).value.st)
  {
    hide Step, StepEvents, LeavesOpen, Names, Consistent, OneRoot;
    if k > 0 {
      AlwaysNested(k - 1, s, cfg);
      AlwaysRooted(k - 1, s, cfg);
      var p := After(k - 1, s, cfg).value;
      StepRooted(p.events, p.st, p.rest, cfg);
    } else {
      NothingRooted();
    }
  }

  lemma NothingRooted()
    ensures Rooted([], START)
  {
  }

  // -- The result -----------------------------------------------------------------------------------

  /** How the tree `n` came about when the loop ends at `p`: it is the outermost element, still open then;
      or the root that was opened first and closed last, with everything else in between (or a comment or
      CDATA section alone); or the one element that the end of the input cut off. */
  ghost predicate Results(p: Point, n: Node, cfg: Config) {
    n.Element? &&
    if p.st.stack != [] then
      && |p.st.stack| == 1 && Grows(p.st.stack[0], Frame(n.name, n.attrs, n.kids))
      && p.events != [] && p.events[0] == Start(n.name) && LeavesOpen(p.events, [n.name])
    else if p.st.done.Some? then
      && n == p.st.done.value
      && (p.events == [] || exists inner :: Balanced(inner) && p.events == [Start(n.name)] + inner + [End(n.name)])
    else
      && p.events == [] && Head(p.rest) == '<' as int && ReadTag(Rest(p.rest), "", cfg).Chunk?
      && n == Element(ReadTag(Rest(p.rest), "", cfg).buf, [], [])
  }

  /** Any input, any callback: when the loader returns a tree, the loop ended at the end of the input, the
      tags it read were properly nested under one root, and the tree is that root. */
  lemma ResultNested(s: Stream, cfg: Config)
    requires Load(s, cfg).Some?
    ensures exists k ::
              && After(k, s, cfg).Some?
              && Step(After(k, s, cfg).value.st, After(k, s, cfg).value.rest, cfg).Stop?
              && Results(After(k, s, cfg).value, Load(s, cfg).value, cfg)
  {
    hide LeavesOpen, Step, After, Rooted, Results;
    assert After(0, s, cfg).Some? by { AfterNone(s, cfg); }
    var k := LastTurn(0, s, cfg);
    AlwaysNested(k, s, cfg);
    AlwaysRooted(k, s, cfg);
    RunFrom(k, s, cfg);
    LastStep(After(k, s, cfg).value, cfg);
  }

  lemma AfterNone(s: Stream, cfg: Config)
    ensures After(0, s, cfg).Some?
  {
  }

  /** The turn that ends the loop. */
  lemma LastStep(p: Point, cfg: Config)
    requires !Step(p.st, p.rest, cfg).Next? && Run(p.st, p.rest, cfg).Some?
    requires LeavesOpen(p.events, Names(p.st.stack)) && Consistent(p.st) && Rooted(p.events, p.st)
    ensures Step(p.st, p.rest, cfg).Stop? && Results(p, Run(p.st, p.rest, cfg).value, cfg)
  {
    hide LeavesOpen, Balanced, OneRoot;
    StopsAt(p, cfg);
    if p.st.stack != [] {
      assert Names(p.st.stack) == [p.st.stack[0].name];
    } else if p.events != [] {
      LeavesNone(p.events);
      var inner := OneElement(p.events);
    }
  }

  /** The result is made of the last state alone. */
  lemma StopsAt(p: Point, cfg: Config)
    requires !Step(p.st, p.rest, cfg).Next? && Run(p.st, p.rest, cfg).Some? && Consistent(p.st)
    requires Rooted(p.events, p.st)
    ensures Step(p.st, p.rest, cfg).Stop? && |p.st.stack| <= 1
    ensures var n := Run(p.st, p.rest, cfg).value;
            if p.st.stack != [] then n.Element? && Grows(p.st.stack[0], Frame(n.name, n.attrs, n.kids))
            else if p.st.done.Some? then n == p.st.done.value
            else Head(p.rest) == '<' as int && ReadTag(Rest(p.rest), "", cfg).Chunk?
                 && n == Element(ReadTag(Rest(p.rest), "", cfg).buf, [], [])
  {
    hide Tag, GetEntity, OneRoot, Flush, LoneSpace, ReadTag;
    if Head(p.rest) == '<' as int {
      FlushRooted(p.events, p.st, Head(p.rest), cfg);
      TagStops(LoneSpace(Flush(p.st, Head(p.rest)), cfg).(buf := ""), Rest(p.rest), cfg);
    }
  }

  /** A tag ends the loop only where the input ends inside an open tag, which becomes a last element. */
  lemma TagStops(st: State, s: Stream, cfg: Config)
    requires Tag(st, s, cfg).Stop?
    ensures !SecondRoot(st) && ReadTag(s, "", cfg).Chunk?
    ensures Tag(st, s, cfg).st == AddLeaf(st, Element(ReadTag(s, "", cfg).buf, [], []))
  {
    hide ReadTag, TagEnd, AddLeaf;
  }
}
