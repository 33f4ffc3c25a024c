/** Bit operations on 64-bit words, and the laws the flag and bitmap proofs use. */
module Bits {
  import opened Words

  function Union(a: bv64, b: bv64): bv64 {
    a | b
  }

  function Minus(a: bv64, b: bv64): bv64 {
    a & !b
  }

  function Common(a: bv64, b: bv64): bv64 {
    a & b
  }

  predicate Disjoint(a: bv64, b: bv64) {
    a & b == 0
  }

  predicate Within(a: bv64, b: bv64) {
    b & a == a
  }

  // (uint64_t)1 << i
  function Bit(i: nat): bv64
    requires i < 64
  {
    1 << (i as bv6)
  }

  predicate HasBit(v: bv64, i: nat)
    requires i < 64
  {
    Common(v, Bit(i)) != 0
  }

  function ToNat(v: bv64): u64 {
    v as u64
  }

  function FromNat(n: u64): bv64 {
    n as bv64
  }

  lemma RoundTrip(v: bv64)
    ensures FromNat(ToNat(v)) == v
  {
  }

  lemma UnionWithNone(a: bv64)
    ensures Union(0, a) == a == Union(a, 0)
    ensures Disjoint(0, a) && Disjoint(a, 0)
  {
  }

  lemma UnionAssociates(a: bv64, b: bv64, c: bv64)
    ensures Union(Union(a, b), c) == Union(a, Union(b, c))
  {
  }

  lemma Absorb(mask: bv64, rest: bv64)
    requires rest & mask == mask
    ensures mask | (rest & !mask) == rest
  {
    assert (rest & mask) | (rest & !mask) == rest;
  }

  // Moving `mask` from what is left to what is taken.
  lemma MoveKeeps(taken: bv64, rest: bv64, mask: bv64)
    requires Within(mask, rest)
    ensures Union(Union(taken, mask), Minus(rest, mask)) == Union(taken, rest)
  {
    Absorb(mask, rest);
    UnionAssociates(taken, mask, Minus(rest, mask));
  }

  lemma MoveSeparates(taken: bv64, rest: bv64, mask: bv64)
    requires Disjoint(taken, rest)
    ensures Disjoint(Union(taken, mask), Minus(rest, mask))
  {
    assert (taken | mask) & (rest & !mask) == (taken & rest) & !mask;
  }

  lemma MoveIsNew(taken: bv64, rest: bv64, mask: bv64)
    requires Disjoint(taken, rest) && Within(mask, rest)
    ensures Disjoint(taken, mask)
  {
    assert taken & (rest & mask) == (taken & rest) & mask;
  }

  lemma WithinUnion(a: bv64, b: bv64, mask: bv64)
    ensures Within(mask, a) ==> Within(mask, Union(a, b))
    ensures Within(b, Union(a, b))
  {
  }

  lemma DisjointWithin(a: bv64, b: bv64, mask: bv64)
    requires Within(a, b) && Disjoint(b, mask)
    ensures Disjoint(a, mask)
  {
  }

  lemma MinusShrinks(rest: bv64, mask: bv64, v: bv64)
    requires !Within(v, rest)
    ensures !Within(v, Minus(rest, mask))
  {
  }

  lemma MinusRemoves(rest: bv64, mask: bv64)
    requires mask != 0
    ensures !Within(mask, Minus(rest, mask))
  {
  }

  lemma Partition(v: bv64, mask: bv64)
    ensures Union(Common(v, mask), Minus(v, mask)) == v
  {
  }

  lemma ShiftsAreApart(a: bv6, b: bv6)
    ensures (1 as bv64 << a) != 0
    ensures a != b ==> (1 as bv64 << a) & (1 as bv64 << b) == 0
  {
  }

  lemma IndexFits(i: nat)
    requires i < 64
    ensures i as bv6 as int == i
  {
  }

  lemma BitIsSet(i: nat)
    requires i < 64
    ensures Bit(i) != 0
  {
    ShiftsAreApart(i as bv6, i as bv6);
  }

  lemma BitsAreApart(i: nat, j: nat)
    requires i < 64 && j < 64 && i != j
    ensures Disjoint(Bit(i), Bit(j))
  {
    IndexFits(i);
    IndexFits(j);
    var (a, b) := (i as bv6, j as bv6);
    assert a != b;
    ShiftsAreApart(a, b);
  }

  lemma SetSame(v: bv64, m: bv64)
    ensures Common(Union(v, m), m) == m
  {
  }

  lemma SetOther(v: bv64, m: bv64, c: bv64)
    requires Disjoint(m, c)
    ensures Common(Union(v, m), c) == Common(v, c)
  {
  }

  // Setting bit i sets that bit and no other.
  lemma SetBit(v: bv64, i: nat, j: nat)
    requires i < 64 && j < 64
    ensures HasBit(Union(v, Bit(i)), j) <==> HasBit(v, j) || i == j
  {
    hide Bit, Union, Common, Disjoint;
    BitIsSet(i);
    if i == j {
      SetSame(v, Bit(i));
    } else {
      BitsAreApart(i, j);
      SetOther(v, Bit(i), Bit(j));
    }
  }

  lemma ConstantWords(m: bv64)
    ensures Common(0xffff_ffff_ffff_ffff, m) == m
    ensures Common(0, m) == 0
  {
  }

  lemma AllOnes(i: nat)
    requires i < 64
    ensures HasBit(0xffff_ffff_ffff_ffff, i)
    ensures !HasBit(0, i)
  {
    hide Bit, Common;
    BitIsSet(i);
    ConstantWords(Bit(i));
  }
}
