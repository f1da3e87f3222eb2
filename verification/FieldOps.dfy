/**
  The field_prep and field_get helpers for masks that are only known at run time, on words of any
  width w.
 */
module FieldOps {
  import opened Bits

  // __ffs and __ffs64: the index of the lowest set bit.
  function Ffs(mask: nat): nat
    requires mask != 0
  {
    if mask % 2 == 1 then 0 else 1 + Ffs(mask / 2)
  }

  // The shift is done in the width of the mask.
  function FieldPrep(w: nat, mask: nat, val: nat): nat
    requires mask != 0
  {
    And(Cut(Shl(val, Ffs(mask)), w), mask)
  }

  function FieldGet(mask: nat, reg: nat): nat
    requires mask != 0
  {
    Shr(And(reg, mask), Ffs(mask))
  }

  // Bit Ffs is set and all bits below are clear.
  lemma {:induction false} FfsIsLowest(mask: nat, i: nat)
    requires mask != 0
    ensures i == Ffs(mask) ==> Bit(mask, i)
    ensures Bit(mask, i) ==> Ffs(mask) <= i
    decreases i
  {
    if i > 0 && mask % 2 == 0 {
      FfsIsLowest(mask / 2, i - 1);
    } else if i == 0 && mask % 2 == 0 {
      assert !Bit(mask, 0);
    }
  }

  lemma PrepBits(w: nat, mask: nat, val: nat, i: nat)
    requires 0 < mask < Pow2(w)
    ensures Bit(FieldPrep(w, mask, val), i) <==> Bit(mask, i) && Ffs(mask) <= i && Bit(val, i - Ffs(mask))
  {
    var s := Ffs(mask);
    AndBits(Cut(Shl(val, s), w), mask, i);
    CutBits(Shl(val, s), w, i);
    ShlBits(val, s, i);
    if Bit(mask, i) {
      BitBound(mask, w, i);
    }
  }

  lemma GetBits(mask: nat, reg: nat, i: nat)
    requires mask != 0
    ensures Bit(FieldGet(mask, reg), i) <==> Bit(mask, i + Ffs(mask)) && Bit(reg, i + Ffs(mask))
  {
    ShrBits(And(reg, mask), Ffs(mask), i);
    AndBits(reg, mask, i + Ffs(mask));
  }

  // Reading a prepared field gives the value cut to the mask.
  lemma GetPrep(w: nat, mask: nat, val: nat)
    requires 0 < mask < Pow2(w)
    ensures FieldGet(mask, FieldPrep(w, mask, val)) == And(val, Shr(mask, Ffs(mask)))
  {
    var s := Ffs(mask);
    forall i: nat
      ensures Bit(FieldGet(mask, FieldPrep(w, mask, val)), i) <==> Bit(And(val, Shr(mask, s)), i)
    {
      GetBits(mask, FieldPrep(w, mask, val), i);
      PrepBits(w, mask, val, i + s);
      AndBits(val, Shr(mask, s), i);
      ShrBits(mask, s, i);
    }
    SameBits(FieldGet(mask, FieldPrep(w, mask, val)), And(val, Shr(mask, s)));
  }

  // Preparing a field that was read restores its bits.
  lemma PrepGet(w: nat, mask: nat, reg: nat)
    requires 0 < mask < Pow2(w)
    ensures FieldPrep(w, mask, FieldGet(mask, reg)) == And(reg, mask)
  {
    var s := Ffs(mask);
    forall i: nat
      ensures Bit(FieldPrep(w, mask, FieldGet(mask, reg)), i) <==> Bit(And(reg, mask), i)
    {
      PrepBits(w, mask, FieldGet(mask, reg), i);
      AndBits(reg, mask, i);
      FfsIsLowest(mask, i);
      if s <= i {
        GetBits(mask, reg, i - s);
      }
    }
    SameBits(FieldPrep(w, mask, FieldGet(mask, reg)), And(reg, mask));
  }

  datatype Field = Field(mask: nat, val: nat)

  predicate Masks(w: nat, fs: seq<Field>) {
    forall i :: 0 <= i < |fs| ==> 0 < fs[i].mask < Pow2(w)
  }

  predicate Disjoint(fs: seq<Field>) {
    forall i, j :: 0 <= i < |fs| && 0 <= j < |fs| && i != j ==> And(fs[i].mask, fs[j].mask) == 0
  }

  // Prepared fields combined with OR.
  function Pack(w: nat, fs: seq<Field>): nat
    requires Masks(w, fs)
  {
    if fs == [] then 0 else Or(FieldPrep(w, fs[0].mask, fs[0].val), Pack(w, fs[1..]))
  }

  lemma {:induction false} PackBits(w: nat, fs: seq<Field>, b: nat)
    requires Masks(w, fs)
    ensures Bit(Pack(w, fs), b) <==> exists k :: 0 <= k < |fs| && Bit(FieldPrep(w, fs[k].mask, fs[k].val), b)
    decreases |fs|
  {
    if fs == [] {
      ZeroBits(b);
    } else {
      PackBits(w, fs[1..], b);
      OrBits(FieldPrep(w, fs[0].mask, fs[0].val), Pack(w, fs[1..]), b);
      assert forall k :: 0 < k < |fs| ==> fs[k] == fs[1..][k - 1];
    }
  }

  // With pairwise disjoint masks every field reads back as if it were alone.
  lemma FieldsIndependent(w: nat, fs: seq<Field>, i: nat)
    requires Masks(w, fs) && Disjoint(fs) && i < |fs|
    ensures FieldGet(fs[i].mask, Pack(w, fs)) == And(fs[i].val, Shr(fs[i].mask, Ffs(fs[i].mask)))
  {
    var m, s := fs[i].mask, Ffs(fs[i].mask);
    var alone := FieldPrep(w, m, fs[i].val);
    forall b: nat
      ensures Bit(FieldGet(m, Pack(w, fs)), b) <==> Bit(FieldGet(m, alone), b)
    {
      GetBits(m, Pack(w, fs), b);
      GetBits(m, alone, b);
      PackBits(w, fs, b + s);
      if Bit(m, b + s) {
        forall k | 0 <= k < |fs| && k != i
          ensures !Bit(FieldPrep(w, fs[k].mask, fs[k].val), b + s)
        {
          PrepBits(w, fs[k].mask, fs[k].val, b + s);
          AndBits(fs[k].mask, m, b + s);
          ZeroBits(b + s);
        }
      }
    }
    SameBits(FieldGet(m, Pack(w, fs)), FieldGet(m, alone));
    GetPrep(w, m, fs[i].val);
  }

  // The fields of a register under a list of masks.
  function ReadFields(masks: seq<nat>, reg: nat): (fs: seq<Field>)
    requires forall i :: 0 <= i < |masks| ==> masks[i] != 0
    ensures |fs| == |masks| && forall i :: 0 <= i < |fs| ==> fs[i] == Field(masks[i], FieldGet(masks[i], reg))
  {
    seq(|masks|, i requires 0 <= i < |masks| => Field(masks[i], FieldGet(masks[i], reg)))
  }

  // Taking a register apart and packing the fields again restores exactly the bits that some mask covers.
  lemma Repack(w: nat, masks: seq<nat>, reg: nat, b: nat)
    requires forall i :: 0 <= i < |masks| ==> 0 < masks[i] < Pow2(w)
    ensures Bit(Pack(w, ReadFields(masks, reg)), b) <==> Bit(reg, b) && exists i :: 0 <= i < |masks| && Bit(masks[i], b)
  {
    var fs := ReadFields(masks, reg);
    PackBits(w, fs, b);
    forall k | 0 <= k < |masks|
      ensures Bit(FieldPrep(w, fs[k].mask, fs[k].val), b) <==> Bit(reg, b) && Bit(masks[k], b)
    {
      PrepGet(w, masks[k], reg);
      AndBits(reg, masks[k], b);
    }
  }
}
