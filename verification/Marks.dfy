/** The mark bitmaps of aosmgr.c: MARK_GT, MARK_ST and MARK_CL.  MASK_INT_LEN is the size of an `int` in
    bytes, so each 32-bit word carries four marks. */
module Marks {
  import opened CStrings

  const MASK_INT_LEN: nat := 4

  function MaskNum(total: nat): (words: nat) {
    (total + MASK_INT_LEN - 1) / MASK_INT_LEN
  }

  /** `s_mask`, as far as it is used. */
  function Mask(k: nat): (m: bv32)
    requires k < MASK_INT_LEN
  {
    if k == 0 then 1 else if k == 1 then 2 else if k == 2 then 4 else 8
  }

  predicate Has(w: bv32, m: bv32) { w & m != 0 }

  function With(w: bv32, m: bv32): (r: bv32) { w | m }

  function Without(w: bv32, m: bv32): (r: bv32) { w & !m }

  predicate Apart(a: bv32, b: bv32) { a & b == 0 }

  lemma SameWord(w: bv32, a: bv32)
    ensures (w | a) & a == a && (w & !a) & a == 0
  {
  }

  lemma OtherWord(w: bv32, a: bv32, b: bv32)
    requires a & b == 0
    ensures (w | a) & b == w & b && (w & !a) & b == w & b
  {
  }

  lemma SameBit(w: bv32, a: bv32)
    requires a != 0
    ensures Has(With(w, a), a) && !Has(Without(w, a), a)
  {
    SameWord(w, a);
  }

  lemma OtherBit(w: bv32, a: bv32, b: bv32)
    requires Apart(a, b)
    ensures Has(With(w, a), b) == Has(w, b) && Has(Without(w, a), b) == Has(w, b)
  {
    OtherWord(w, a, b);
  }

  lemma MasksApart(j: nat, k: nat)
    requires j < MASK_INT_LEN && k < MASK_INT_LEN
    ensures Mask(j) != 0 && (j != k ==> Apart(Mask(j), Mask(k)))
  {
    hide Apart;
    SmallMasksApart();
  }

  lemma SmallMasksApart()
    ensures Apart(1, 2) && Apart(1, 4) && Apart(1, 8) && Apart(2, 4) && Apart(2, 8) && Apart(4, 8)
    ensures Apart(2, 1) && Apart(4, 1) && Apart(8, 1) && Apart(4, 2) && Apart(8, 2) && Apart(8, 4)
  {
  }

  lemma BitFacts(w: bv32, j: nat, k: nat)
    requires j < MASK_INT_LEN && k < MASK_INT_LEN
    ensures Has(With(w, Mask(j)), Mask(k)) == (j == k || Has(w, Mask(k)))
    ensures Has(Without(w, Mask(j)), Mask(k)) == (j != k && Has(w, Mask(k)))
  {
    hide Mask, Has, With, Without, Apart;
    MasksApart(j, k);
    if j == k { SameBit(w, Mask(j)); } else { OtherBit(w, Mask(j), Mask(k)); }
  }

  /** MARK_GT. */
  predicate Marked(words: seq<bv32>, i: nat)
    requires i / MASK_INT_LEN < |words|
  {
    Has(words[i / MASK_INT_LEN], Mask(i % MASK_INT_LEN))
  }

  /** MARK_ST and MARK_CL: setting or clearing one mark changes no other. */
  lemma OneMark(words: seq<bv32>, i: nat, j: nat)
    requires i / MASK_INT_LEN < |words| && j / MASK_INT_LEN < |words|
    ensures var w, q := words[i / MASK_INT_LEN], i / MASK_INT_LEN;
            && Marked(words[q := With(w, Mask(i % MASK_INT_LEN))], j) == (i == j || Marked(words, j))
            && Marked(words[q := Without(w, Mask(i % MASK_INT_LEN))], j) == (i != j && Marked(words, j))
  {
    hide Has, With, Without, Mask;
    BitFacts(words[i / MASK_INT_LEN], i % MASK_INT_LEN, j % MASK_INT_LEN);
  }

  /** A bitmap of `total` marks. */
  class Bitmap {
    const total: nat
    const words: array<bv32>

    ghost predicate Valid() {
      words.Length == MaskNum(total)
    }

    /** The marks that are set. */
    ghost function Set(): (s: set<nat>)
      requires Valid()
      reads words
    {
      set i: nat | i < total && Marked(words[..], i)
    }

    constructor (total: nat)
      ensures Valid() && this.total == total && fresh(words) && Set() == {}
    {
      this.total := total;
      words := new bv32[MaskNum(total)](_ => 0);
    }

    method Get(i: nat) returns (b: bool)
      requires Valid() && i < total
      ensures b == (i in Set())
    {
      hide Has, Mask;
      b := Has(words[i / MASK_INT_LEN], Mask(i % MASK_INT_LEN));
    }

    method Mark(i: nat)
      requires Valid() && i < total
      modifies words
      ensures Set() == old(Set()) + {i}
    {
      hide Has, With, Without, Mask, Marked;
      ghost var was := words[..];
      words[i / MASK_INT_LEN] := With(words[i / MASK_INT_LEN], Mask(i % MASK_INT_LEN));
      forall j: nat | j < total ensures Marked(words[..], j) == (i == j || Marked(was, j)) { OneMark(was, i, j); }
    }

    method Clear(i: nat)
      requires Valid() && i < total
      modifies words
      ensures Set() == old(Set()) - {i}
    {
      hide Has, With, Without, Mask, Marked;
      ghost var was := words[..];
      words[i / MASK_INT_LEN] := Without(words[i / MASK_INT_LEN], Mask(i % MASK_INT_LEN));
      forall j: nat | j < total ensures Marked(words[..], j) == (i != j && Marked(was, j)) { OneMark(was, i, j); }
    }
  }

  /** The first unmarked slot at or after `from`; a slot is None while its mark is clear. */
  function FindFree<T>(s: seq<Option<T>>, from: nat): (r: Option<nat>)
    requires from <= |s|
    ensures r.Some? ==> from <= r.value < |s| && s[r.value].None?
    ensures forall i :: from <= i < (if r.Some? then r.value else |s|) ==> s[i].Some?
    decreases |s| - from
  {
    if from == |s| then None else if s[from].None? then Some(from) else FindFree(s, from + 1)
  }
}
