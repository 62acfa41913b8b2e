/** `mxml_load_data` on linked nodes (mxml-file.c), for `mxmlLoadString` without a top node and without a SAX
    callback. */
module TreeLoad {
  import opened CStrings
  import opened Buffers
  import opened F = Forest
  import L = Loader
  import opened Reading
  import opened Readers
  import T = NodeTree
  import opened TreeValue
  import opened Utf8
  import opened XmlTree

  /** A load callback that looks at the name and the attributes of the node it is given. */
  datatype Pick = NoPick | Pick(choose: (string, seq<Attr>) -> L.VType)

  /** The callback is only called while an element is open. */
  function CallbackOf(pick: Pick): (cb: L.Callback) {
    match pick
    case NoPick => L.NoCallback
    case Pick(choose) =>
      L.Callback((s: seq<L.Frame>) => if s == [] then choose("", []) else choose(s[|s| - 1].name, s[|s| - 1].attrs))
  }

  /** How a part of the loop ended: with an error, with the end of the input, or normally. */
  datatype Status = Failed | Stopped | Continue

  /** The variables of `mxml_load_data`. */
  class Loading {
    const input: StringReader
    const buffer: CharBuffer
    const pick: Pick
    const numeric: string -> int
    const loneWsOff: bool
    var parent: T.Node?
    var first: T.Node?
    var whitespace: bool
    var vtype: L.VType

    ghost var f: T.Shape
    ghost var path: seq<T.Node>

    function Cfg(): (cfg: L.Config) {
      L.Config(CallbackOf(pick), numeric, loneWsOff)
    }

    /** The nodes form a forest with the right pointers, and `parent` and its ancestors are the elements still
        open. */
    ghost predicate Tree()
      reads `f, `path, `first, `parent, f.kids.Keys
    {
      && Wf(f) && T.Links(f) && Spine(f, ValuesOf(f), path) && Rooted(f, path, first)
      && parent == (if path == [] then null else path[|path| - 1])
    }

    ghost predicate Valid()
      reads this, input, buffer, f.kids.Keys
    {
      input.Valid() && buffer.Valid() && Tree()
    }

    /** What is open and what is complete. */
    ghost function Core(): (st: L.State)
      requires Tree()
      reads `f, `path, `first, `parent, f.kids.Keys
    {
      StateOf(f, ValuesOf(f), path, first, L.Ignore, false, "")
    }

    /** Where the loop stands, as the loader's function sees it, apart from the buffer. */
    ghost function Bare(): (st: L.State)
      requires Tree()
      reads `f, `path, `first, `parent, `vtype, `whitespace, f.kids.Keys
    {
      Core().(vtype := vtype, ws := whitespace, buf := "")
    }

    ghost function State(): (st: L.State)
      requires buffer.Valid() && Tree()
      reads `f, `path, `first, `parent, `vtype, `whitespace, buffer, buffer.data, f.kids.Keys
    {
      Bare().(buf := buffer.Contents())
    }

    constructor (text: string, pick: Pick, numeric: string -> int, loneWsOff: bool)
      requires EightBit(text)
      ensures Valid() && State() == L.START && input.Left() == text
      ensures fresh(input) && fresh(buffer) && fresh(buffer.data) && f.kids == map[]
      ensures Cfg() == L.Config(CallbackOf(pick), numeric, loneWsOff)
    {
      this.input := new StringReader(text);
      this.buffer := new CharBuffer();
      this.pick, this.numeric, this.loneWsOff := pick, numeric, loneWsOff;
      parent, first, whitespace, vtype := null, null, false, L.Ignore;
      f, path := Forest(map[], map[], map[]), [];
    }

    /** A new node under `parent`; `first` is set when it is the first one. */
    method AddValue(val: T.Payload)
      requires Tree()
      modifies `f, `first, f.kids.Keys
      ensures Tree() && fresh(f.kids.Keys - old(f.kids.Keys))
      ensures Core() == L.AddLeaf(old(Core()), Leaf(val)) && Bare() == L.AddLeaf(old(Bare()), Leaf(val))
    {
      hide Wf, T.Links, Spine, Rooted, StateOf, ValuesOf, Grown, NewChild, L.AddLeaf;
      AddLeafOnly(Core(), Leaf(val), vtype, whitespace, "");
      ghost var f0, v0 := f, ValuesOf(f);
      var node := NewNode(val);
      LeafAdded(f0, v0, path, first, node, val, f, ValuesOf(f), L.Ignore, false, "");
      if first == null {
        first := node;
      }
    }

    /** `mxml_new` under `parent`. */
    method NewNode(val: T.Payload) returns (node: T.Node)
      requires Tree()
      modifies `f, f.kids.Keys
      ensures Wf(old(f)) && Grown(old(f), old(ValuesOf(f)), path, node, val, f, ValuesOf(f))
      ensures fresh(node) && f.kids.Keys == old(f.kids.Keys) + {node} && node.value == val && Wf(f) && T.Links(f)
    {
      hide Wf, T.Links, NewChild, Spine;
      ghost var f0, v0 := f, ValuesOf(f);
      ParentIn();
      node, f := T.New(parent, val, f);
      assert ValuesOf(f) == v0[node := val];
    }

    lemma ParentIn()
      requires Tree()
      ensures parent != null ==> parent in f.kids
    {
      hide Wf, T.Links;
      if path != [] { SpineAt(f, ValuesOf(f), path, |path| - 1); }
    }

    /** The value type inside the element just entered. */
    method Retype(otherwise: L.VType)
      requires Tree() && parent != null
      modifies `vtype
      ensures Tree() && Bare() == L.Retype(old(Bare()), Cfg(), otherwise)
    {
      hide Wf, T.Links, Tree, Core;
      TopFrame();
      match pick {
        case Pick(choose) => vtype := choose(parent.value.name, parent.value.attrs);
        case NoPick => vtype := otherwise;
      }
    }

    lemma TopFrame()
      requires Tree() && parent != null
      ensures parent in f.kids && parent.value.ElementValue?
      ensures Core().stack != []
      ensures var top := Core().stack[|Core().stack| - 1];
              top.name == parent.value.name && top.attrs == parent.value.attrs
    {
      hide Wf, T.Links, Spine, Rooted, KidTrees;
      SpineAt(f, ValuesOf(f), path, |path| - 1);
    }

    /** Adds the text gathered so far as a value of the present type. */
    method StoreText(text: string)
      requires Tree()
      modifies `f, `first, f.kids.Keys
      ensures Tree() && fresh(f.kids.Keys - old(f.kids.Keys)) && Bare() == Stored(old(Bare()), text)
    {
      hide Tree, Core, L.AddLeaf;
      match vtype {
        case Ignore =>
        case OpaqueType => AddValue(T.OpaqueValue(text));
        case TextType => AddValue(T.TextValue(whitespace, text));
      }
    }

    /** The text gathered so far becomes a node when a tag starts or at white space. */
    method FlushText(ch: int)
      requires Valid()
      modifies this, buffer, buffer.data, f.kids.Keys
      ensures Valid() && fresh(f.kids.Keys - old(f.kids.Keys)) && buffer.data == old(buffer.data)
      ensures State() == L.Flush(old(State()), ch) && StreamOf(input) == old(StreamOf(input))
    {
      hide Tree, Core, StringReader.Valid, StreamOf, Stored, L.Flush, CharBuffer.Valid, CharBuffer.Contents;
      BufferLength();
      FlushStored(Bare(), buffer.Contents(), ch);
      if (ch == '<' as int || (IsSpace(ch) && vtype != L.OpaqueType)) && buffer.len > 0 {
        StoreBuffer(IsSpace(ch) && vtype == L.TextType);
      } else if IsSpace(ch) && vtype == L.TextType {
        whitespace := true;
      }
    }

    method StoreBuffer(ws: bool)
      requires Valid()
      modifies this, buffer, buffer.data, f.kids.Keys
      ensures Valid() && fresh(f.kids.Keys - old(f.kids.Keys)) && buffer.data == old(buffer.data)
      ensures buffer.Contents() == ""
      ensures Bare() == Stored(old(Bare()), old(buffer.Contents())).(ws := ws)
    {
      hide Tree, Core, StringReader.Valid, Stored;
      var text := buffer.Terminate();
      StoreText(text);
      buffer.Clear();
      whitespace := ws;
    }

    lemma BufferLength()
      requires buffer.Valid()
      ensures buffer.len == |buffer.Contents()|
    {
    }

    /** White space alone before a tag. */
    method FlushSpace()
      requires Tree()
      modifies this, f.kids.Keys
      ensures Tree() && fresh(f.kids.Keys - old(f.kids.Keys)) && Bare() == L.LoneSpace(old(Bare()), Cfg())
    {
      hide Tree, Core, L.AddLeaf;
      StackEmpty();
      if whitespace && vtype == L.TextType {
        if parent != null && !loneWsOff {
          AddValue(T.TextValue(true, ""));
        }
        whitespace := false;
      }
    }

    /** A new element under `parent` that is then the innermost open one. */
    method OpenNew(name: string)
      requires Tree() && (parent == null ==> first == null)
      modifies `f, `first, `parent, `path, f.kids.Keys
      ensures Tree() && fresh(f.kids.Keys - old(f.kids.Keys)) && parent != null
      ensures Core() == L.Open(old(Core()), name, []) && Bare() == L.Open(old(Bare()), name, [])
    {
      hide Wf, T.Links, Spine, Rooted, StateOf, ValuesOf, Grown, NewChild;
      ghost var f0, v0 := f, ValuesOf(f);
      var node := NewNode(T.ElementValue(name, []));
      Descend(node, f0, v0);
    }

    /** After an error the nodes built so far can still be deleted. */
    ghost predicate Loose()
      reads `f, `first, f.kids.Keys
    {
      Wf(f) && T.Links(f) && (first != null ==> first in f.kids)
    }

    /** A part of the loop did what `o` says. */
    ghost predicate Did(status: Status, o: L.Outcome)
      requires input.Valid() && buffer.Valid()
      reads this, input, buffer, f.kids.Keys
    {
      match o
      case Fail => status == Failed && Loose()
      case Stop(st) => status == Stopped && Tree() && Bare() == st
      case Next(st, rest) => status == Continue && Tree() && Bare() == st && StreamOf(input) == rest
    }

    /** Comments, CDATA sections and processing instructions. */
    method Special(kind: L.Special, ghost ch: int) returns (status: Status)
      requires Valid()
      modifies this, input, buffer, buffer.data, f.kids.Keys
      ensures input.Valid() && buffer.Valid() && (buffer.data == old(buffer.data) || fresh(buffer.data))
      ensures fresh(f.kids.Keys - old(f.kids.Keys))
      ensures Did(status,
              L.SpecialTag(old(Bare()), kind, L.Chunk(old(buffer.Contents()), ch, old(StreamOf(input))), Cfg()))
    {
      hide Tree, Core, StringReader.Valid, StreamOf, L.AddLeaf, L.Open, L.ReadSpecial, L.Retype, Loose;
      ghost var st := Bare();
      Undamaged();
      StackEmpty();
      var ok := ReadSpecialText(input, kind, buffer);
      if !ok {
        return Failed;
      }
      if parent == null && first != null {
        return Failed;
      }
      var name := buffer.Terminate();
      status := Continue;
      if kind == L.DirectiveTag && parent == null {
        OpenNew(name);
        Retype(L.TextType);
        assert Bare() == L.Retype(L.Open(st, name, []), Cfg(), L.TextType);
      } else {
        AddValue(T.ElementValue(name, []));
        assert Bare() == L.AddLeaf(st, Element(name, [], []));
      }
    }

    /** Declarations. */
    method Declaration(ch: int) returns (status: Status)
      requires Valid()
      modifies this, input, buffer, buffer.data, f.kids.Keys
      ensures input.Valid() && buffer.Valid() && (buffer.data == old(buffer.data) || fresh(buffer.data))
      ensures fresh(f.kids.Keys - old(f.kids.Keys))
      ensures Did(status,
              L.DeclarationTag(old(Bare()), L.Chunk(old(buffer.Contents()), ch, old(StreamOf(input))), Cfg()))
    {
      hide Tree, Core, StringReader.Valid, StreamOf, L.AddLeaf, L.Open, L.ReadDeclaration, L.Retype, Loose;
      ghost var st := Bare();
      Undamaged();
      StackEmpty();
      var ok := ReadDeclarationText(ch, input, buffer, Cfg());
      if !ok {
        return Failed;
      }
      if parent == null && first != null {
        return Failed;
      }
      var name := buffer.Terminate();
      status := Continue;
      if parent == null {
        OpenNew(name);
        Retype(L.TextType);
        assert Bare() == L.Retype(L.Open(st, name, []), Cfg(), L.TextType);
      } else {
        AddValue(T.ElementValue(name, []));
        assert Bare() == L.AddLeaf(st, Element(name, [], []));
      }
    }

    /** `parent = parent->parent`. */
    method GoUp()
      requires Tree() && parent != null
      modifies `parent, `path
      ensures Tree() && Core() == L.Pop(old(Core())) && old(Core()).stack != []
    {
      hide Wf, T.Links, Spine, Rooted, StateOf, ValuesOf;
      ParentIn();
      StackEmpty();
      ElementClosed(f, ValuesOf(f), path, first, L.Ignore, false, "");
      ParentPointer();
      parent := parent.parent;
      path := path[..|path| - 1];
    }

    lemma ParentPointer()
      requires Tree() && parent != null
      ensures parent.parent == if |path| == 1 then null else path[|path| - 2]
    {
      hide Wf, Spine;
      SpineAt(f, ValuesOf(f), path, |path| - 1);
      assert T.Linked(parent, f);
    }

    /** Close tags. */
    method CloseTag(ch: int) returns (status: Status)
      requires Valid() && buffer.Contents() != ""
      modifies this, input
      ensures input.Valid() && buffer.Valid() && f == old(f)
      ensures Did(status, L.CloseElement(old(Bare()), L.Chunk(old(buffer.Contents()), ch, old(StreamOf(input))), Cfg()))
    {
      hide Tree, Core, StringReader.Valid, StreamOf, L.Pop, L.SkipToEnd, L.Retype, Loose;
      ghost var st := Bare();
      Undamaged();
      StackEmpty();
      if parent == null {
        return Failed;
      }
      TopFrame();
      if buffer.data[1..buffer.len] != parent.value.name {
        return Failed;
      }
      ReadToEnd(ch, input);
      PopOnly(Core(), vtype, whitespace);
      GoUp();
      StackEmpty();
      assert Bare() == L.Pop(st);
      if parent != null {
        Retype(vtype);
      }
      status := Continue;
    }

    /** The end of an open tag: `ok` is false for an error. */
    method EndTag(node: T.Node, ch0: int) returns (ok: bool, ch: int)
      requires input.Valid() && node.value.ElementValue? && node.value.attrs == []
      modifies input, node`value
      ensures input.Valid() && node.value.ElementValue? && node.value.name == old(node.value.name)
      ensures var p := L.TagEnd(L.Chunk(node.value.name, ch0, old(StreamOf(input))), Cfg());
              && (ok ==>
                 ch == p.ch && node.value.attrs == p.attrs && StreamOf(input) == p.rest && (ch == EOF ==> ch0 == EOF))
              && (!ok ==> p.ch == EOF && ch0 != EOF)
      ensures node in f.kids ==> ValuesOf(f) == old(ValuesOf(f))[node := node.value]
    {
      hide StringReader.Valid, StreamOf, L.ParseElement;
      ch := ch0;
      ok := true;
      if IsSpace(ch) {
        ch := ReadElement(node, input, Cfg());
        ok := ch != EOF;
      } else if ch == '/' as int {
        ch := Getc(input);
        ok := ch == '>' as int;
        ch := '/' as int;
      }
    }

    /** `mxmlDelete` for a node whose tag is broken. */
    method DropNode(node: T.Node)
      requires Wf(f) && T.Links(f) && node in f.kids
      requires first != null ==> first in f.kids && first in f.up && f.up[first] == None && first != node
      modifies `f, f.kids.Keys
      ensures Loose() && f.kids.Keys <= old(f.kids.Keys)
    {
      hide Wf, T.Links, Prune, NoDuplicates;
      if first != null {
        RootStays(f, node, first);
      }
      PruneKeys(f, node);
      var freed;
      f, freed := T.Delete(node, f);
    }

    /** A new element becomes the last child of `parent`. */
    method KeepLeaf(node: T.Node, ghost f0: T.Shape, ghost v0: Values)
      requires Wf(f0) && v0.Keys == f0.kids.Keys && Spine(f0, v0, path) && Rooted(f0, path, first)
      requires parent == (if path == [] then null else path[|path| - 1])
      requires node in f.kids && Wf(f) && T.Links(f) && Grown(f0, v0, path, node, node.value, f, ValuesOf(f))
      modifies `first
      ensures Tree() && Core() == L.AddLeaf(StateOf(f0, v0, path, old(first), L.Ignore, false, ""), Leaf(node.value))
    {
      hide Wf, T.Links, Spine, Rooted, StateOf, ValuesOf, Grown, NewChild, L.AddLeaf;
      LeafAdded(f0, v0, path, first, node, node.value, f, ValuesOf(f), L.Ignore, false, "");
      if first == null {
        first := node;
      }
    }

    /** A new element becomes the last child of `parent`, and then `parent` itself. */
    method Descend(node: T.Node, ghost f0: T.Shape, ghost v0: Values)
      requires Wf(f0) && v0.Keys == f0.kids.Keys && Spine(f0, v0, path) && Rooted(f0, path, first)
      requires path == [] ==> first == null
      requires node in f.kids && Wf(f) && T.Links(f) && Grown(f0, v0, path, node, node.value, f, ValuesOf(f))
      requires node.value.ElementValue?
      modifies `first, `parent, `path
      ensures Tree() && parent != null
      ensures Core() ==
              L.Open(StateOf(f0, v0, old(path), old(first), L.Ignore, false, ""), node.value.name, node.value.attrs)
    {
      hide Wf, T.Links, Spine, Rooted, StateOf, ValuesOf, Grown, NewChild;
      ElementOpened(f0, v0, path, first, node, node.value, f, ValuesOf(f), L.Ignore, false, "");
      if first == null {
        first := node;
      }
      parent := node;
      path := path + [node];
    }

    /** Open tags. */
    method OpenTag(ch: int) returns (status: Status)
      requires Valid()
      modifies this, input, buffer, buffer.data, f.kids.Keys
      ensures input.Valid() && buffer.Valid() && buffer.data == old(buffer.data)
      ensures fresh(f.kids.Keys - old(f.kids.Keys))
      ensures Did(status, L.OpenElement(old(Bare()), L.Chunk(old(buffer.Contents()), ch, old(StreamOf(input))), Cfg()))
    {
      hide Tree, Core, StringReader.Valid, StreamOf, L.OpenElement, Loose;
      StackEmpty();
      Undamaged();
      SecondFails(Bare(), L.Chunk(buffer.Contents(), ch, StreamOf(input)), Cfg());
      if parent == null && first != null {
        return Failed;
      }
      var name := buffer.Terminate();
      status := NewElement(name, ch);
    }

    /** A new element, its attributes, and what comes after its tag. */
    method NewElement(name: string, ch0: int) returns (status: Status)
      requires Valid() && (parent == null ==> first == null)
      modifies this, input, f.kids.Keys
      ensures input.Valid() && buffer.Valid()
      ensures fresh(f.kids.Keys - old(f.kids.Keys))
      ensures Did(status, L.OpenElement(old(Bare()), L.Chunk(name, ch0, old(StreamOf(input))), Cfg()))
    {
      hide Wf, T.Links, Spine, Rooted, StateOf, ValuesOf, Grown, NewChild, StringReader.Valid, StreamOf;
      hide L.OpenElement, L.TagEnd, Entered;
      ghost var st, tag := Bare(), L.Chunk(name, ch0, StreamOf(input));
      StackEmpty();
      OpenIs(st, tag, Cfg());
      ghost var f0, v0 := f, ValuesOf(f);
      var ok, ch, node := ReadNew(name, ch0);
      if !ok {
        return Failed;
      }
      status := Enter(node, ch, f0, v0);
    }

    /** A new element and its attributes; a node with a broken tag `<a/x` is deleted again. */
    method ReadNew(name: string, ch0: int) returns (ok: bool, ch: int, node: T.Node)
      requires input.Valid() && Tree()
      modifies `f, input, f.kids.Keys
      ensures input.Valid() && fresh(f.kids.Keys - old(f.kids.Keys))
      ensures var p := L.TagEnd(L.Chunk(name, ch0, old(StreamOf(input))), Cfg());
              && (ok ==>
                    && ch == p.ch && node.value == T.ElementValue(name, p.attrs) && StreamOf(input) == p.rest
                    && (ch == EOF ==> ch0 == EOF))
              && (!ok ==> p.ch == EOF && ch0 != EOF)
      ensures ok ==>
                && Wf(f) && T.Links(f) && node in f.kids && Wf(old(f))
                && Grown(old(f), old(ValuesOf(f)), path, node, node.value, f, ValuesOf(f))
      ensures !ok ==> Loose()
    {
      hide Wf, T.Links, Spine, Rooted, ValuesOf, Grown, NewChild, StringReader.Valid, StreamOf, L.TagEnd, CallbackOf;
      hide Cfg;
      ghost var f0, v0 := f, ValuesOf(f);
      node := NewNode(T.ElementValue(name, []));
      FirstKept(f0, v0, node, node.value);
      ghost var v1 := ValuesOf(f);
      ok, ch := EndTag(node, ch0);
      if ok {
        GrownAgain(f0, v0, path, node, T.ElementValue(name, []), node.value, f, v1, ValuesOf(f));
      } else if ch0 == '/' as int {
        DropNode(node);
      }
    }

    /** What becomes of a new element whose tag ended with `ch`. */
    method Enter(node: T.Node, ch: int, ghost f0: T.Shape, ghost v0: Values) returns (status: Status)
      requires Wf(f0) && v0.Keys == f0.kids.Keys && Spine(f0, v0, path) && Rooted(f0, path, first)
      requires path == [] ==> first == null
      requires parent == (if path == [] then null else path[|path| - 1])
      requires node in f.kids && Wf(f) && T.Links(f) && Grown(f0, v0, path, node, node.value, f, ValuesOf(f))
      requires node.value.ElementValue?
      modifies this
      ensures Tree() && f == old(f) && status == if ch == EOF then Stopped else Continue
      ensures var core := StateOf(f0, v0, old(path), old(first), L.Ignore, false, "");
              var st := core.(vtype := old(vtype), ws := old(whitespace), buf := "");
              Bare() == Entered(st, node.value.name, node.value.attrs, ch, Cfg())
    {
      hide Wf, T.Links, Spine, Rooted, StateOf, ValuesOf, Grown, NewChild, L.AddLeaf, L.Retype;
      ghost var core := StateOf(f0, v0, path, first, L.Ignore, false, "");
      if ch == EOF || ch == '/' as int {
        KeepLeaf(node, f0, v0);
        AddLeafOnly(core, Leaf(node.value), vtype, whitespace, "");
        return if ch == EOF then Stopped else Continue;
      }
      Descend(node, f0, v0);
      Retype(vtype);
      return Continue;
    }

    lemma FirstKept(f0: T.Shape, v0: Values, node: T.Node, val: T.Payload)
      requires Wf(f0) && v0.Keys == f0.kids.Keys && Rooted(f0, path, first)
      requires Grown(f0, v0, path, node, val, f, ValuesOf(f))
      ensures first != null ==> first in f.kids && first in f.up && f.up[first] == None && first != node
    {
      hide Wf, Spine;
      GrownFacts(f0, v0, path, node, val, f, ValuesOf(f));
    }

    /** Everything from `<` to the end of the tag. */
    method Tag() returns (status: Status)
      requires Valid() && buffer.Contents() == ""
      modifies this, input, buffer, buffer.data, f.kids.Keys
      ensures input.Valid() && buffer.Valid() && (buffer.data == old(buffer.data) || fresh(buffer.data))
      ensures fresh(f.kids.Keys - old(f.kids.Keys))
      ensures Did(status, L.Tag(old(Bare()), old(StreamOf(input)), Cfg()))
    {
      hide Tree, Core, StringReader.Valid, StreamOf, Loose, L.ReadTag, L.SpecialTag, L.DeclarationTag, L.CloseElement;
      hide L.OpenElement;
      Undamaged();
      var ok, ch := ReadTagText(input, buffer, Cfg());
      if !ok {
        return Failed;
      }
      status := Dispatch(ch);
    }

    /** What kind of tag the buffer holds. */
    method Dispatch(ch: int) returns (status: Status)
      requires Valid()
      modifies this, input, buffer, buffer.data, f.kids.Keys
      ensures input.Valid() && buffer.Valid() && (buffer.data == old(buffer.data) || fresh(buffer.data))
      ensures fresh(f.kids.Keys - old(f.kids.Keys))
      ensures Did(status, Dispatched(old(Bare()), L.Chunk(old(buffer.Contents()), ch, old(StreamOf(input))), Cfg()))
    {
      hide Tree, Core, Bare, StringReader.Valid, StreamOf, Did, L.SpecialTag, L.DeclarationTag, L.CloseElement;
      hide L.OpenElement;
      var tag := buffer.data[..buffer.len];
      if tag == L.COMMENT {
        status := Special(L.CommentTag, ch);
      } else if tag == L.CDATA {
        status := Special(L.CDataTag, ch);
      } else if buffer.len > 0 && buffer.data[0] == '?' {
        status := Special(L.DirectiveTag, ch);
      } else if buffer.len > 0 && buffer.data[0] == '!' {
        status := Declaration(ch);
      } else if buffer.len > 0 && buffer.data[0] == '/' {
        status := CloseTag(ch);
      } else {
        status := OpenTag(ch);
      }
    }

    /** One turn of the main loop did what `o` says. */
    ghost predicate Turned(status: Status, o: L.Outcome)
      requires input.Valid() && buffer.Valid()
      reads this, input, buffer, buffer.data, f.kids.Keys
    {
      match o
      case Fail => status == Failed && Loose()
      case Stop(st) => status == Stopped && Tree() && State() == st
      case Next(st, rest) => status == Continue && Tree() && State() == st && StreamOf(input) == rest
    }

    /** One turn of the main loop. */
    method Turn() returns (status: Status)
      requires Valid()
      modifies this, input, buffer, buffer.data, f.kids.Keys
      ensures input.Valid() && buffer.Valid() && (buffer.data == old(buffer.data) || fresh(buffer.data))
      ensures fresh(f.kids.Keys - old(f.kids.Keys))
      ensures Turned(status, L.Step(old(State()), old(StreamOf(input)), Cfg()))
    {
      hide Tree, State, Core, StringReader.Valid, CharBuffer.Valid, StreamOf, Loose, L.Tag, L.Flush, L.LoneSpace;
      hide L.GetEntity, Encode, CharBuffer.Contents, Turned;
      StepIs(State(), StreamOf(input), Cfg());
      var ch := Getc(input);
      if ch == EOF {
        EndTurn();
        return Stopped;
      }
      FlushText(ch);
      if ch == '<' as int {
        status := MarkupTurn();
      } else {
        status := TextTurn(ch);
      }
    }

    lemma EndTurn()
      requires Valid()
      ensures Turned(Stopped, L.Stop(State()))
    {
      hide Tree, State;
    }

    /** The part of a turn that handles a tag. */
    method MarkupTurn() returns (status: Status)
      requires Valid()
      modifies this, input, buffer, buffer.data, f.kids.Keys
      ensures input.Valid() && buffer.Valid() && (buffer.data == old(buffer.data) || fresh(buffer.data))
      ensures fresh(f.kids.Keys - old(f.kids.Keys))
      ensures Turned(status, L.Tag(L.LoneSpace(old(State()), Cfg()).(buf := ""), old(StreamOf(input)), Cfg()))
    {
      hide Tree, Core, StringReader.Valid, CharBuffer.Valid, StreamOf, Loose, L.Tag, L.LoneSpace;
      LoneOnly(State(), Cfg());
      FlushSpace();
      buffer.Clear();
      status := Tag();
      buffer.Clear();
    }

    /** The part of a turn that handles any other character. */
    method TextTurn(ch0: int) returns (status: Status)
      requires Valid()
      modifies this, input, buffer, buffer.data, f.kids.Keys
      ensures input.Valid() && buffer.Valid() && (buffer.data == old(buffer.data) || fresh(buffer.data))
      ensures fresh(f.kids.Keys - old(f.kids.Keys))
      ensures Turned(status, Texted(old(State()), ch0, old(StreamOf(input)), Cfg()))
    {
      hide Tree, Core, StringReader.Valid, CharBuffer.Valid, CharBuffer.Contents, StreamOf, Loose, L.GetEntity, Encode;
      status := Continue;
      var ch := ch0;
      if ch == '&' as int {
        ch := ReadEntity(input, Cfg());
        if ch == EOF {
          Undamaged();
          return Failed;
        }
        buffer.Add(ch);
      } else if vtype == L.OpaqueType || !IsSpace(ch) {
        buffer.Add(ch);
      }
    }

    /** The result at the end of the input: the outermost open element if no other is open, or `first`. */
    method Conclude() returns (r: T.Node?)
      requires Tree()
      modifies `f, f.kids.Keys
      ensures Wf(f) && T.Links(f) && f.kids.Keys <= old(f.kids.Keys)
      ensures r != null ==> r in f.kids && r in f.up && f.up[r] == None
      ensures L.Finish(old(Core())) == if r == null then None else Some(TreeOf(f, r))
    {
      hide Wf, T.Links, Spine, Prune, NoDuplicates, Rooted, StateOf, L.Closed, ValuesOf;
      FirstDone();
      if parent == null {
        return first;
      }
      var top := Outermost();
      if parent != top {
        Undamaged();
        ManyOpen();
        DeleteFirst();
        return null;
      }
      OnlyOne();
      return top;
    }

    method Outermost() returns (top: T.Node)
      requires Tree() && parent != null
      ensures path != [] && top == path[0]
    {
      hide Wf, T.Links, Spine, Rooted;
      top := parent;
      ghost var j := |path| - 1;
      PathPointer(j);
      while top.parent != null
        invariant 0 <= j < |path| && top == path[j] && top.parent == (if j == 0 then null else path[j - 1])
        decreases j
      {
        top := top.parent;
        j := j - 1;
        PathPointer(j);
      }
    }

    lemma FirstDone()
      requires Tree()
      ensures first != null ==> first in f.kids && first in f.up && f.up[first] == None
      ensures parent == null ==> L.Finish(Core()) == if first == null then None else Some(TreeOf(f, first))
    {
      hide Wf, Spine, T.Links;
    }

    lemma ManyOpen()
      requires Tree() && parent != null && parent != path[0]
      ensures L.Finish(Core()) == None
    {
      hide Wf, Spine, T.Links;
    }

    lemma PathPointer(i: nat)
      requires Tree() && i < |path|
      ensures path[i] in f.kids && path[i].parent == if i == 0 then null else path[i - 1]
    {
      hide Wf, Spine;
      SpineAt(f, ValuesOf(f), path, i);
      assert T.Linked(path[i], f);
    }

    lemma OnlyOne()
      requires Tree() && parent != null && parent == path[0]
      ensures parent in f.kids && parent in f.up && f.up[parent] == None
      ensures L.Finish(Core()) == Some(TreeOf(f, parent)) && |path| == 1
    {
      hide Wf, Spine, T.Links, KidTrees;
      if |path| > 1 { PathOnce(f, ValuesOf(f), path, 0, |path| - 1); }
      WholeTree(f, ValuesOf(f), path);
    }

    /** `mxmlDelete(first)`. */
    method DeleteFirst()
      requires Loose()
      modifies `f, f.kids.Keys
      ensures Wf(f) && T.Links(f) && f.kids.Keys <= old(f.kids.Keys)
    {
      hide Wf, T.Links, Prune, NoDuplicates;
      if first != null {
        PruneKeys(f, first);
        var freed;
        f, freed := T.Delete(first, f);
      }
    }

    lemma Undamaged()
      requires Tree()
      ensures Loose()
    {
      hide Wf, T.Links, Spine;
    }

    lemma StackEmpty()
      requires Tree()
      ensures Core().stack == [] <==> parent == null
      ensures Core().done.Some? <==> parent == null && first != null
    {
      hide Wf, T.Links, Spine, Rooted;
    }
  }

  lemma GrownAgain(f: T.Shape, v: Values, path: seq<T.Node>, node: T.Node, val: T.Payload, val': T.Payload,
                   g: T.Shape, w: Values, w': Values)
    requires Wf(f) && v.Keys == f.kids.Keys && Grown(f, v, path, node, val, g, w) && w' == w[node := val']
    ensures Grown(f, v, path, node, val', g, w')
  {
  }

  lemma PruneKeys(f: T.Shape, n: T.Node)
    requires Wf(f) && n in f.kids
    ensures Prune(f, n).kids.Keys <= f.kids.Keys
  {
    DetachWf(f, n);
  }

  /** The rest of `L.Tag`, once the text of the tag is read. */
  function Dispatched(st: L.State, tag: L.Chunk, cfg: L.Config): (r: L.Outcome)
    requires tag.Chunk?
  {
    if tag.buf == L.COMMENT then L.SpecialTag(st, L.CommentTag, tag, cfg)
    else if tag.buf == L.CDATA then L.SpecialTag(st, L.CDataTag, tag, cfg)
    else if StartsWith(tag.buf, "?") then L.SpecialTag(st, L.DirectiveTag, tag, cfg)
    else if StartsWith(tag.buf, "!") then L.DeclarationTag(st, tag, cfg)
    else if StartsWith(tag.buf, "/") then L.CloseElement(st, tag, cfg)
    else L.OpenElement(st, tag, cfg)
  }

  /** A turn on a character that does not start a tag, after the flush. */
  function Texted(st: L.State, ch: int, rest: L.Stream, cfg: L.Config): (r: L.Outcome) {
    if ch == '&' as int then
      var c := L.GetEntity(rest, "", cfg);
      if c.ch == EOF then L.Fail else L.Next(st.(buf := st.buf + Encode(c.ch)), c.rest)
    else if st.vtype == L.OpaqueType || !IsSpace(ch) then L.Next(st.(buf := st.buf + Encode(ch)), rest)
    else L.Next(st, rest)
  }

  lemma StepIs(st: L.State, s: L.Stream, cfg: L.Config)
    ensures var ch, rest := L.Head(s), L.Rest(s);
            var st1 := L.Flush(st, ch);
            L.Step(st, s, cfg) ==
            if ch == EOF then L.Stop(st)
            else if ch == '<' as int then L.Tag(L.LoneSpace(st1, cfg).(buf := ""), rest, cfg)
            else Texted(st1, ch, rest, cfg)
  {
    hide L.Flush, L.Tag, L.LoneSpace, L.GetEntity;
  }

  lemma LoneOnly(st: L.State, cfg: L.Config)
    ensures L.LoneSpace(st, cfg).(buf := "") == L.LoneSpace(st.(buf := ""), cfg)
  {
    AddLeafOnly(st, Text(true, ""), st.vtype, st.ws, "");
  }

  /** The state after an open tag that ended with `ch`. */
  function Entered(st: L.State, name: string, attrs: seq<Attr>, ch: int, cfg: L.Config): (r: L.State) {
    if ch == EOF || ch == '/' as int then L.AddLeaf(st, Element(name, attrs, []))
    else L.Retype(L.Open(st, name, attrs), cfg, st.vtype)
  }

  lemma OpenIs(st: L.State, tag: L.Chunk, cfg: L.Config)
    requires tag.Chunk? && !L.SecondRoot(st)
    ensures var p := L.TagEnd(tag, cfg);
            L.OpenElement(st, tag, cfg) ==
            if p.ch == EOF && tag.ch != EOF then L.Fail
            else if p.ch == EOF then L.Stop(Entered(st, tag.buf, [], p.ch, cfg))
            else L.Next(Entered(st, tag.buf, p.attrs, p.ch, cfg), p.rest)
    ensures tag.ch == EOF ==> L.TagEnd(tag, cfg) == L.Parsed([], EOF, tag.rest)
  {
    hide L.AddLeaf, L.Retype, L.Open, L.ParseElement;
  }

  lemma SecondFails(st: L.State, tag: L.Chunk, cfg: L.Config)
    requires tag.Chunk?
    ensures L.SecondRoot(st) ==> L.OpenElement(st, tag, cfg) == L.Fail
  {
  }

  function Stored(st: L.State, text: string): (r: L.State)
    ensures r.vtype == st.vtype && r.ws == st.ws && r.buf == st.buf
  {
    match st.vtype
    case Ignore => st
    case OpaqueType => L.AddLeaf(st, Opaque(text))
    case TextType => L.AddLeaf(st, Text(st.ws, text))
  }

  lemma FlushStored(st: L.State, text: string, ch: int)
    requires st.buf == ""
    ensures L.Flush(st.(buf := text), ch) ==
            if text != "" && (ch == '<' as int || (IsSpace(ch) && st.vtype != L.OpaqueType))
            then Stored(st, text).(ws := IsSpace(ch) && st.vtype == L.TextType)
            else st.(buf := text, ws := st.ws || (IsSpace(ch) && st.vtype == L.TextType))
  {
    hide L.AddLeaf;
    AddLeafOnly(st, Opaque(text), st.vtype, st.ws, text);
    AddLeafOnly(st, Text(st.ws, text), st.vtype, st.ws, text);
    AddLeafOnly(st, Opaque(text), st.vtype, st.ws, "");
    AddLeafOnly(st, Text(st.ws, text), st.vtype, st.ws, "");
    LeafKeeps(st, Opaque(text));
    LeafKeeps(st, Text(st.ws, text));
  }

  lemma LeafKeeps(st: L.State, n: Node)
    ensures var r := L.AddLeaf(st, n); r.vtype == st.vtype && r.ws == st.ws && r.buf == st.buf
  {
  }

  lemma PopOnly(st: L.State, vtype: L.VType, ws: bool)
    requires st.stack != []
    ensures L.Pop(st.(vtype := vtype, ws := ws, buf := "")) == L.Pop(st).(vtype := vtype, ws := ws, buf := "")
  {
  }

  /** Adding a node leaves the other variables alone. */
  lemma AddLeafOnly(st: L.State, n: Node, vtype: L.VType, ws: bool, buf: string)
    ensures L.AddLeaf(st.(vtype := vtype, ws := ws, buf := buf), n) ==
            L.AddLeaf(st, n).(vtype := vtype, ws := ws, buf := buf)
  {
  }

  /** `mxmlLoadString` without a top node: the nodes built stand for the tree that the loader's function
      gives; on an error the result is null. */
  method LoadString(text: string, pick: Pick, numeric: string -> int, loneWsOff: bool)
    returns (r: T.Node?, ghost f: T.Shape)
    requires EightBit(text)
    ensures Wf(f) && T.Links(f) && fresh(f.kids.Keys)
    ensures r != null ==> r in f.kids && r in f.up && f.up[r] == None
    ensures L.LoadString(text, L.Config(CallbackOf(pick), numeric, loneWsOff)) ==
            if r == null then None else Some(TreeOf(f, r))
  {
    hide Wf, T.Links, L.Step, Loading.Tree, Loading.Core, Loading.Loose, StringReader.Valid, StreamOf;
    hide CharBuffer.Valid, TreeOf;
    var l := new Loading(text, pick, numeric, loneWsOff);
    StreamIs(l.input);
    ghost var goal := L.Run(l.State(), StreamOf(l.input), l.Cfg());
    assert goal == L.LoadString(text, L.Config(CallbackOf(pick), numeric, loneWsOff));
    var status := Continue;
    while status == Continue
      invariant l.input.Valid() && l.buffer.Valid() && fresh(l) && fresh(l.input) && fresh(l.buffer)
      invariant fresh(l.buffer.data) && fresh(l.f.kids.Keys)
      invariant status == Continue ==> l.Tree() && L.Run(l.State(), StreamOf(l.input), l.Cfg()) == goal
      invariant status == Stopped ==> l.Tree() && L.Finish(l.State()) == goal
      invariant status == Failed ==> l.Loose() && goal == None
      decreases if status == Continue then |StreamOf(l.input)| + 1 else 0
    {
      RunStep(l.State(), StreamOf(l.input), l.Cfg());
      status := l.Turn();
    }
    if status == Failed {
      l.DeleteFirst();
      return null, l.f;
    }
    FinishOnly(l.State(), l.Core());
    r := l.Conclude();
    f := l.f;
  }

  lemma StreamIs(input: StringReader)
    requires input.Valid()
    ensures StreamOf(input) == Chars(input.Left())
  {
  }

  lemma RunStep(st: L.State, s: L.Stream, cfg: L.Config)
    ensures L.Run(st, s, cfg) == match L.Step(st, s, cfg)
                                 case Fail => None
                                 case Stop(st') => L.Finish(st')
                                 case Next(st', rest) => L.Run(st', rest, cfg)
  {
  }

  lemma FinishOnly(st: L.State, core: L.State)
    requires st.stack == core.stack && st.done == core.done
    ensures L.Finish(st) == L.Finish(core)
  {
  }
}
