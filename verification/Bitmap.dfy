/** A bitmap of 64-bit words, and the set of numbers it stands for. */
module Bitmap {

  // ---------- one word ----------

  predicate Odd(n: nat) { n % 2 == 1 }

  function Pack(b5: bool, b4: bool, b3: bool, b2: bool, b1: bool, b0: bool): (p: bv64)
    ensures p < 64
  {
    (if b5 then 32 else 0) | (if b4 then 16 else 0) | (if b3 then 8 else 0)
    | (if b2 then 4 else 0) | (if b1 then 2 else 0) | (if b0 then 1 else 0)
  }

  /** The bit of frame f inside its word: f & 63, digit by digit. */
  function Place(f: nat): (p: bv64)
    ensures p < 64
  {
    Pack(Odd(f / 32), Odd(f / 16), Odd(f / 8), Odd(f / 4), Odd(f / 2), Odd(f))
  }

  lemma PackInjective(a5: bool, a4: bool, a3: bool, a2: bool, a1: bool, a0: bool,
                      b5: bool, b4: bool, b3: bool, b2: bool, b1: bool, b0: bool)
    requires Pack(a5, a4, a3, a2, a1, a0) == Pack(b5, b4, b3, b2, b1, b0)
    ensures a5 == b5 && a4 == b4 && a3 == b3 && a2 == b2 && a1 == b1 && a0 == b0
  {
  }

  lemma Nested(f: nat, d: nat)
    requires d in {1, 2, 4, 8, 16, 32}
    ensures f / d / 2 == f / (2 * d)
  {
  }

  lemma Halve(f: nat, g: nat, d: nat)
    requires d in {1, 2, 4, 8, 16, 32} && f / (2 * d) == g / (2 * d) && Odd(f / d) == Odd(g / d)
    ensures f / d == g / d
  {
    Nested(f, d);
    Nested(g, d);
  }

  /** Word and place together determine the frame. */
  lemma PlaceInjective(f: nat, g: nat)
    requires f / 64 == g / 64
    ensures Place(f) == Place(g) <==> f == g
  {
    if Place(f) == Place(g) {
      PackInjective(Odd(f / 32), Odd(f / 16), Odd(f / 8), Odd(f / 4), Odd(f / 2), Odd(f),
                    Odd(g / 32), Odd(g / 16), Odd(g / 8), Odd(g / 4), Odd(g / 2), Odd(g));
      Halve(f, g, 32);
      Halve(f, g, 16);
      Halve(f, g, 8);
      Halve(f, g, 4);
      Halve(f, g, 2);
      Halve(f, g, 1);
    }
  }

  predicate Bit(w: bv64, b: bv64)
    requires b < 64
  {
    (w >> b) & 1 == 1
  }

  function WithBit(w: bv64, b: bv64): bv64
    requires b < 64
  {
    w | (1 << b)
  }

  function WithoutBit(w: bv64, b: bv64): bv64
    requires b < 64
  {
    w & !(1 << b)
  }

  lemma BitSet(w: bv64, b: bv64, c: bv64)
    requires b < 64 && c < 64
    ensures Bit(WithBit(w, b), c) <==> Bit(w, c) || b == c
  {
  }

  lemma BitCleared(w: bv64, b: bv64, c: bv64)
    requires b < 64 && c < 64
    ensures Bit(WithoutBit(w, b), c) <==> Bit(w, c) && b != c
  {
  }

  lemma BitZero(c: bv64)
    requires c < 64
    ensures !Bit(0, c)
  {
  }

  // ---------- all words ----------

  predicate Test(words: seq<bv64>, f: nat)
    requires f < 64 * |words|
  {
    Bit(words[f / 64], Place(f))
  }

  /** The frames below n whose bit is set. */
  function MembersBelow(words: seq<bv64>, n: nat): set<nat>
    requires n <= 64 * |words|
    decreases n, |words|
  {
    if n == 0 then {} else MembersBelow(words, n - 1) + (if Test(words, n - 1) then {n - 1} else {})
  }

  /** The frames whose bit is set. */
  function Members(words: seq<bv64>): set<nat> {
    MembersBelow(words, 64 * |words|)
  }

  lemma {:induction false} MembersBelowHas(words: seq<bv64>, n: nat, f: nat)
    requires n <= 64 * |words|
    ensures f in MembersBelow(words, n) <==> f < n && Test(words, f)
  {
    if n > 0 {
      MembersBelowHas(words, n - 1, f);
    }
  }

  lemma MembersHas(words: seq<bv64>, f: nat)
    ensures f in Members(words) <==> f < 64 * |words| && Test(words, f)
  {
    MembersBelowHas(words, 64 * |words|, f);
  }

  function Set(words: seq<bv64>, f: nat): (w: seq<bv64>)
    requires f < 64 * |words|
    ensures |w| == |words|
  {
    words[f / 64 := WithBit(words[f / 64], Place(f))]
  }

  function Clear(words: seq<bv64>, f: nat): (w: seq<bv64>)
    requires f < 64 * |words|
    ensures |w| == |words|
  {
    words[f / 64 := WithoutBit(words[f / 64], Place(f))]
  }

  lemma TestSet(words: seq<bv64>, f: nat, g: nat)
    requires f < 64 * |words| && g < 64 * |words|
    ensures Test(Set(words, f), g) <==> Test(words, g) || g == f
  {
    if f / 64 == g / 64 {
      BitSet(words[f / 64], Place(f), Place(g));
      PlaceInjective(f, g);
    }
  }

  lemma TestClear(words: seq<bv64>, f: nat, g: nat)
    requires f < 64 * |words| && g < 64 * |words|
    ensures Test(Clear(words, f), g) <==> Test(words, g) && g != f
  {
    if f / 64 == g / 64 {
      BitCleared(words[f / 64], Place(f), Place(g));
      PlaceInjective(f, g);
    }
  }

  /** Setting or clearing one bit adds or removes one member. */
  lemma UpdateMembers(words: seq<bv64>, f: nat)
    requires f < 64 * |words|
    ensures Members(Set(words, f)) == Members(words) + {f}
    ensures Members(Clear(words, f)) == Members(words) - {f}
  {
    forall g: nat
      ensures g in Members(Set(words, f)) <==> g in Members(words) + {f}
      ensures g in Members(Clear(words, f)) <==> g in Members(words) - {f}
    {
      MembersHas(words, g);
      MembersHas(Set(words, f), g);
      MembersHas(Clear(words, f), g);
      if g < 64 * |words| {
        TestSet(words, f, g);
        TestClear(words, f, g);
      }
    }
  }

  lemma ZeroMembers(words: seq<bv64>)
    requires forall i :: 0 <= i < |words| ==> words[i] == 0
    ensures Members(words) == {}
  {
    forall f: nat
      ensures f !in Members(words)
    {
      MembersHas(words, f);
      BitZero(Place(f));
    }
  }
}
