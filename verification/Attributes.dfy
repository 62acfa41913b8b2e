/** The attribute array of an element (mxml-attr.c): an array that is grown, overwritten and shifted in
    place, and the ordered map it stands for. */
module Attributes {
  import opened CStrings
  import opened XmlTree

  /** The array after `mxmlElementDeleteAttr`: the first attribute of that name is gone. */
  function DeleteAttr(attrs: seq<Attr>, name: string): (r: seq<Attr>)
    ensures |r| == if HasAttr(attrs, name) then |attrs| - 1 else |attrs|
  {
    if attrs == [] then []
    else if attrs[0].name == name then attrs[1..]
    else
      var r := [attrs[0]] + DeleteAttr(attrs[1..], name);
      assert forall i :: 0 < i < |attrs| ==> attrs[i] == attrs[1..][i - 1];
      assert forall i :: 0 <= i < |attrs| - 1 ==> attrs[1..][i] == attrs[i + 1];
      r
  }

  // -- As a map ----------------------------------------------------------------------------------------------

  /** After setting, an attribute has the new value and every other one the value it had. */
  lemma {:induction false} GetAfterSet(attrs: seq<Attr>, name: string, value: Option<string>, other: string)
    ensures GetAttr(SetAttr(attrs, name, value), other) == if other == name then value else GetAttr(attrs, other)
    ensures HasAttr(SetAttr(attrs, name, value), name)
  {
    if attrs == [] {
      assert SetAttr(attrs, name, value)[0].name == name;
    } else if attrs[0].name == name {
      assert SetAttr(attrs, name, value)[0].name == name;
      assert SetAttr(attrs, name, value)[1..] == attrs[1..];
    } else {
      GetAfterSet(attrs[1..], name, value, other);
      var r := SetAttr(attrs, name, value);
      assert r[1..] == SetAttr(attrs[1..], name, value);
      var i :| 0 <= i < |r[1..]| && r[1..][i].name == name;
      assert r[i + 1].name == name;
    }
  }

  lemma TailNames(attrs: seq<Attr>, name: string)
    requires attrs != []
    ensures HasAttr(attrs, name) <==> attrs[0].name == name || HasAttr(attrs[1..], name)
  {
    if HasAttr(attrs, name) && attrs[0].name != name {
      var i :| 0 <= i < |attrs| && attrs[i].name == name;
      assert attrs[1..][i - 1] == attrs[i];
    }
    if HasAttr(attrs[1..], name) {
      var i :| 0 <= i < |attrs[1..]| && attrs[1..][i].name == name;
      assert attrs[i + 1] == attrs[1..][i];
    }
  }

  lemma {:induction false} GetAttrAbsent(attrs: seq<Attr>, name: string)
    requires !HasAttr(attrs, name)
    ensures GetAttr(attrs, name) == None
  {
    if attrs != [] {
      TailNames(attrs, name);
      GetAttrAbsent(attrs[1..], name);
    }
  }

  function NamesOf(attrs: seq<Attr>): (r: seq<string>)
    ensures |r| == |attrs| && forall i :: 0 <= i < |attrs| ==> r[i] == attrs[i].name
  {
    if attrs == [] then [] else [attrs[0].name] + NamesOf(attrs[1..])
  }

  /** Setting keeps the order: a new name goes last, an old one stays where it is. */
  lemma {:induction false} SetKeepsOrder(attrs: seq<Attr>, name: string, value: Option<string>)
    ensures NamesOf(SetAttr(attrs, name, value)) == NamesOf(attrs) + (if HasAttr(attrs, name) then [] else [name])
    ensures DistinctNames(attrs) ==> DistinctNames(SetAttr(attrs, name, value))
  {
    hide HasAttr, NamesOf, SetAttr, DistinctNames;
    SetNames(attrs, name, value);
    SetDistinct(attrs, name, value);
  }

  lemma {:induction false} SetNames(attrs: seq<Attr>, name: string, value: Option<string>)
    ensures NamesOf(SetAttr(attrs, name, value)) == NamesOf(attrs) + (if HasAttr(attrs, name) then [] else [name])
  {
    hide HasAttr;
    if attrs == [] {
      NothingHere(name);
    } else {
      TailNames(attrs, name);
      var r := SetAttr(attrs, name, value);
      if attrs[0].name != name {
        SetNames(attrs[1..], name, value);
        assert r[0] == attrs[0] && r[1..] == SetAttr(attrs[1..], name, value);
      } else {
        assert r[0].name == name && r[1..] == attrs[1..];
      }
    }
  }

  lemma NothingHere(name: string)
    ensures !HasAttr([], name)
  {
  }

  lemma SetDistinct(attrs: seq<Attr>, name: string, value: Option<string>)
    requires NamesOf(SetAttr(attrs, name, value)) == NamesOf(attrs) + (if HasAttr(attrs, name) then [] else [name])
    ensures DistinctNames(attrs) ==> DistinctNames(SetAttr(attrs, name, value))
  {
    var r := SetAttr(attrs, name, value);
    assert |r| == |NamesOf(r)|;
    assert forall i :: 0 <= i < |r| ==> r[i].name == NamesOf(r)[i];
  }

  lemma TailDistinct(attrs: seq<Attr>)
    requires DistinctNames(attrs) && attrs != []
    ensures !HasAttr(attrs[1..], attrs[0].name) && DistinctNames(attrs[1..])
  {
    assert forall i :: 0 <= i < |attrs[1..]| ==> attrs[1..][i] == attrs[i + 1];
  }

  /** After deleting, an attribute is gone and every other one has the value it had. */
  lemma {:induction false} GetAfterDelete(attrs: seq<Attr>, name: string, other: string)
    requires DistinctNames(attrs)
    ensures GetAttr(DeleteAttr(attrs, name), other) == if other == name then None else GetAttr(attrs, other)
  {
    hide DistinctNames, HasAttr;
    if attrs != [] {
      var rest := attrs[1..];
      TailDistinct(attrs);
      GetAfterDelete(rest, name, other);
      if attrs[0].name == name {
        GetAttrAbsent(rest, name);
      } else {
        assert DeleteAttr(attrs, name)[1..] == DeleteAttr(rest, name);
      }
    }
  }

  /** Deleting keeps the others, in their order. */
  lemma DeleteKeepsOrder(attrs: seq<Attr>, name: string)
    requires DistinctNames(attrs)
    ensures DistinctNames(DeleteAttr(attrs, name))
    ensures HasAttr(attrs, name) ==>
              exists i :: 0 <= i < |attrs| && attrs[i].name == name
                          && DeleteAttr(attrs, name) == attrs[..i] + attrs[i + 1..]
    ensures !HasAttr(attrs, name) ==> DeleteAttr(attrs, name) == attrs
  {
    hide DistinctNames, HasAttr, DeleteAttr;
    if HasAttr(attrs, name) {
      var i := FirstNamed(attrs, name);
      FirstDelete(attrs, name, i);
      DistinctWithout(attrs, i);
    } else {
      DeleteAbsent(attrs, name);
    }
  }

  lemma DistinctWithout(attrs: seq<Attr>, i: nat)
    requires DistinctNames(attrs) && i < |attrs|
    ensures DistinctNames(attrs[..i] + attrs[i + 1..])
  {
  }

  ghost function FirstNamed(attrs: seq<Attr>, name: string): (i: nat)
    requires HasAttr(attrs, name)
    ensures FirstOf(attrs, name, i)
  {
    if attrs[0].name == name then 0 else (TailNames(attrs, name); FirstNamed(attrs[1..], name) + 1)
  }

  // -- The array ---------------------------------------------------------------------------------------------

  /** `value.element.attrs` and `num_attrs`. */
  class AttrArray {
    var attrs: array<Attr>
    var numAttrs: nat

    ghost predicate Valid()
      reads this
    {
      numAttrs <= attrs.Length
    }

    ghost function List(): (s: seq<Attr>)
      requires Valid()
      reads this, attrs
    {
      attrs[..numAttrs]
    }

    constructor ()
      ensures Valid() && fresh(attrs) && List() == []
    {
      attrs := new Attr[0];
      numAttrs := 0;
    }

    /** The loops over the attributes: the first one of this name. */
    method Find(name: string) returns (found: bool, i: nat)
      requires Valid()
      ensures found == HasAttr(List(), name)
      ensures found ==> i < numAttrs && attrs[i].name == name && forall j :: 0 <= j < i ==> attrs[j].name != name
    {
      i := 0;
      while i < numAttrs
        invariant i <= numAttrs && forall j :: 0 <= j < i ==> attrs[j].name != name
      {
        if attrs[i].name == name {
          assert List()[i].name == name;
          return true, i;
        }
        i := i + 1;
      }
      found := false;
    }

    /** `mxmlElementGetAttr`. */
    method Get(name: string) returns (value: Option<string>)
      requires Valid()
      ensures value == GetAttr(List(), name)
    {
      var found, i := Find(name);
      if found {
        FirstGet(List(), name, i);
        return attrs[i].value;
      }
      GetAttrAbsent(List(), name);
      return None;
    }

    /** `mxml_set_attr`, when memory does not run out. */
    method Set(name: string, value: Option<string>)
      requires Valid()
      modifies this, attrs
      ensures Valid() && (attrs == old(attrs) || fresh(attrs))
      ensures List() == SetAttr(old(List()), name, value)
    {
      var found, i := Find(name);
      ghost var was := List();
      if found {
        FirstSet(was, name, i, value);
        attrs[i] := attrs[i].(value := value);
        assert List() == was[i := Attr(name, value)];
      } else {
        SetAttrAbsent(was, name, value);
        var attr := new Attr[numAttrs + 1](_ => Attr(name, value));
        forall k | 0 <= k < numAttrs { attr[k] := attrs[k]; }
        attrs := attr;
        numAttrs := numAttrs + 1;
        assert List() == was + [Attr(name, value)];
      }
    }

    /** The `memmove` of the attributes after number `i`. */
    method CloseGap(i: nat)
      requires Valid() && i < numAttrs
      modifies `numAttrs, attrs
      ensures Valid() && List() == old(List())[..i] + old(List())[i + 1..]
    {
      ghost var was := List();
      forall k | i <= k < numAttrs - 1 { attrs[k] := attrs[k + 1]; }
      numAttrs := numAttrs - 1;
      forall k | 0 <= k < numAttrs ensures attrs[k] == if k < i then was[k] else was[k + 1] {
      }
    }

    /** `mxmlElementDeleteAttr`: the attributes after it move down by one. */
    method Delete(name: string)
      requires Valid()
      modifies this, attrs
      ensures Valid() && attrs == old(attrs)
      ensures List() == DeleteAttr(old(List()), name)
    {
      var found, i := Find(name);
      ghost var was := List();
      if found {
        FirstDelete(was, name, i);
        CloseGap(i);
      } else {
        DeleteAbsent(was, name);
      }
    }
  }

  /** Attribute `i` is the first of its name. */
  ghost predicate FirstOf(attrs: seq<Attr>, name: string, i: nat) {
    i < |attrs| && attrs[i].name == name && forall j :: 0 <= j < i ==> attrs[j].name != name
  }

  lemma {:induction false} FirstGet(attrs: seq<Attr>, name: string, i: nat)
    requires FirstOf(attrs, name, i)
    ensures GetAttr(attrs, name) == attrs[i].value
    decreases i
  {
    if i > 0 {
      FirstGet(attrs[1..], name, i - 1);
    }
  }

  lemma {:induction false} FirstSet(attrs: seq<Attr>, name: string, i: nat, value: Option<string>)
    requires FirstOf(attrs, name, i)
    ensures SetAttr(attrs, name, value) == attrs[i := Attr(name, value)]
    decreases i
  {
    if i > 0 {
      FirstSet(attrs[1..], name, i - 1, value);
    }
  }

  lemma {:induction false} SetAttrAbsent(attrs: seq<Attr>, name: string, value: Option<string>)
    requires !HasAttr(attrs, name)
    ensures SetAttr(attrs, name, value) == attrs + [Attr(name, value)]
  {
    if attrs != [] {
      TailNames(attrs, name);
      var rest := attrs[1..];
      SetAttrAbsent(rest, name, value);
      assert attrs == [attrs[0]] + rest;
      assert attrs + [Attr(name, value)] == [attrs[0]] + (rest + [Attr(name, value)]);
    }
  }

  lemma {:induction false} FirstDelete(attrs: seq<Attr>, name: string, i: nat)
    requires FirstOf(attrs, name, i)
    ensures DeleteAttr(attrs, name) == attrs[..i] + attrs[i + 1..]
    decreases i
  {
    if i > 0 {
      FirstDelete(attrs[1..], name, i - 1);
      assert attrs == [attrs[0]] + attrs[1..];
      assert attrs[1..][..i - 1] == attrs[1..i] && attrs[1..][i..] == attrs[i + 1..];
      assert [attrs[0]] + attrs[1..i] == attrs[..i];
    }
  }

  lemma {:induction false} DeleteAbsent(attrs: seq<Attr>, name: string)
    requires !HasAttr(attrs, name)
    ensures DeleteAttr(attrs, name) == attrs
  {
    if attrs != [] {
      TailNames(attrs, name);
      DeleteAbsent(attrs[1..], name);
    }
  }
}
