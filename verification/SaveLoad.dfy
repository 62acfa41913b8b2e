/** Saving a tree of linked nodes to a string and loading the string again. */
module SaveLoad {
  import opened CStrings
  import opened Documents
  import opened F = Forest
  import L = Loader
  import opened MarkupTree
  import T = NodeTree
  import opened Readers
  import opened RoundTrip
  import TreeLoad
  import opened TreeValue
  import TreeWrite
  import opened Utf8
  import W = Writer
  import opened XmlTree

  lemma ReadableBytes(ch: int)
    requires Readable(ch)
    ensures EightBit(Encode(ch))
  {
  }

  lemma {:induction false} EncodedEightBit(cps: seq<int>)
    requires AllReadable(cps)
    ensures EightBit(EncodeAll(cps))
  {
    hide Encode;
    if cps != [] {
      ReadableBytes(cps[0]);
      EncodedEightBit(cps[1..]);
    }
  }

  lemma BytesOfText(s: string)
    requires IsText(s)
    ensures EightBit(s)
  {
    EncodedEightBit(Chars(s));
  }

  /** The text written for a document is text itself, so it can be read in UTF-8 mode as a C string. */
  lemma SavedText(n: Node, wrap: int)
    requires GoodRoot(n)
    ensures EightBit(W.SaveText(n, wrap)) && CStr(W.SaveText(n, wrap)) == W.SaveText(n, wrap)
    ensures W.SaveText(n, wrap) != ""
  {
    hide IsText, Chars, GoodRoot, W.SaveText, DocumentOf, GoodDocument, DocumentText;
    SavedDocument(n, wrap, PLAIN);
    BytesOfText(W.SaveText(n, wrap));
    TextIsCString(W.SaveText(n, wrap));
    SomeText(n, wrap);
  }

  function ModeFor(vtype: L.VType, off: bool): (m: Mode) {
    match vtype
    case Ignore => Dropped
    case OpaqueType => AsOpaque
    case TextType => AsWords(off)
  }

  /** The modes in which a document under the root `name` is read with a load callback or without. */
  function ChoiceFor(pick: TreeLoad.Pick, off: bool, name: string): (choice: Choice) {
    match pick
    case NoPick => Everywhere(if OpensRoot(name) then AsWords(off) else Dropped)
    case Pick(choose) => (n, a) => ModeFor(choose(n, a), off)
  }

  lemma ChosenBy(choose: (string, seq<Attr>) -> L.VType, off: bool, name: string, n: string, a: seq<Attr>)
    ensures ChoiceFor(TreeLoad.Pick(choose), off, name)(n, a) == ModeFor(choose(n, a), off)
  {
  }

  lemma CalledBack(choose: (string, seq<Attr>) -> L.VType, stack: seq<L.Frame>)
    requires stack != []
    ensures TreeLoad.CallbackOf(TreeLoad.Pick(choose)).choose(stack) ==
            choose(stack[|stack| - 1].name, stack[|stack| - 1].attrs)
  {
  }

  lemma PickSuits(choose: (string, seq<Attr>) -> L.VType, numeric: string -> int, off: bool, name: string)
    ensures Suits(ChoiceFor(TreeLoad.Pick(choose), off, name),
                  L.Config(TreeLoad.CallbackOf(TreeLoad.Pick(choose)), numeric, off))
  {
    hide TreeLoad.CallbackOf, ChoiceFor;
    var pick, choice := TreeLoad.Pick(choose), ChoiceFor(TreeLoad.Pick(choose), off, name);
    assert TreeLoad.CallbackOf(pick).Callback? by { IsCallback(choose); }
    forall n, a ensures choice(n, a) == ModeFor(choose(n, a), off) {
      ChosenBy(choose, off, name, n, a);
    }
    forall stack: seq<L.Frame> | stack != []
      ensures TreeLoad.CallbackOf(pick).choose(stack) ==
              VTypeOf(choice(stack[|stack| - 1].name, stack[|stack| - 1].attrs))
    {
      CalledBack(choose, stack);
    }
  }

  lemma IsCallback(choose: (string, seq<Attr>) -> L.VType)
    ensures TreeLoad.CallbackOf(TreeLoad.Pick(choose)).Callback?
  {
  }

  lemma ChosenIn(n: Node, pick: TreeLoad.Pick, numeric: string -> int, off: bool)
    requires n.Element?
    ensures SavedIn(n, ChoiceFor(pick, off, n.name), L.Config(TreeLoad.CallbackOf(pick), numeric, off))
  {
    hide OpensRoot, Suits;
    match pick {
      case NoPick => NoPickSuits(if OpensRoot(n.name) then AsWords(off) else Dropped, numeric);
      case Pick(choose) =>
        PickSuits(choose, numeric, off, n.name);
        IsCallback(choose);
    }
  }

  lemma NoPickSuits(m: Mode, numeric: string -> int)
    ensures Suits(Everywhere(m), L.Config(L.NoCallback, numeric, m.AsWords? && m.off))
    ensures !m.AsWords? ==> forall off :: Suits(Everywhere(m), L.Config(L.NoCallback, numeric, off))
  {
    forall n, a ensures Everywhere(m)(n, a) == m {
    }
  }

  /** Saving a document with any wrap margin and loading the text, with any load callback, builds new nodes.  They
      stand for the tree saved exactly when that is `Faithful`; in every case for what loading makes of it. */
  method CopyThroughText(node: T.Node, size: nat, wrap: int, pick: TreeLoad.Pick, numeric: string -> int,
                         loneWsOff: bool, ghost f: T.Shape)
    returns (copy: T.Node?, ghost g: T.Shape)
    requires 1 <= size && Wf(f) && T.Links(f) && node in f.kids && GoodRoot(TreeOf(f, node))
    ensures Wf(g) && T.Links(g) && fresh(g.kids.Keys) && copy != null && copy in g.kids
    ensures var tree := TreeOf(f, node);
            var choice := ChoiceFor(pick, loneWsOff, tree.name);
            && TreeOf(g, copy) == Reloaded(tree, wrap, choice, L.Config(TreeLoad.CallbackOf(pick), numeric, loneWsOff))
            && (TreeOf(g, copy) == tree <==> Faithful(tree, choice))
  {
    hide Wf, T.Links, GoodRoot, Reloaded, Faithful, W.SaveText, TreeOf, L.LoadString, EightBit, CStr, SavedIn;
    hide TreeLoad.CallbackOf, ChoiceFor;
    ghost var tree := TreeOf(f, node);
    ghost var cfg := L.Config(TreeLoad.CallbackOf(pick), numeric, loneWsOff);
    IsElement(tree);
    ghost var choice := ChoiceFor(pick, loneWsOff, tree.name);
    SavedText(tree, wrap);
    ChosenIn(tree, pick, numeric, loneWsOff);
    LoadSaved(tree, wrap, choice, cfg);
    ReloadedSame(tree, wrap, choice, cfg);
    var text := TreeWrite.SaveAllocString(node, size, wrap, f);
    copy, g := TreeLoad.LoadString(text.value, pick, numeric, loneWsOff);
  }

  lemma IsElement(n: Node)
    requires GoodRoot(n)
    ensures n.Element?
  {
    hide GoodNode, LoneTag, GoodKids, OpensRoot;
  }
}
