/** The direct code of a negative number (negative_to_bits in bits.c), for words of any width. */
module Negation {
  import opened Words

  /** A machine word, its lowest bit first. */
  type Bits = seq<bool>

  function Unsigned(b: Bits): nat {
    if b == [] then 0 else Unsigned(b[..|b| - 1]) + if b[|b| - 1] then Pow2(|b| - 1) else 0
  }

  /** The two's-complement value. */
  function Signed(b: Bits): int
    requires b != []
  {
    Unsigned(b) - if b[|b| - 1] then Pow2(|b|) else 0
  }

  /** ~ */
  function Invert(b: Bits): (r: Bits)
    ensures |r| == |b| && forall i :: 0 <= i < |b| ==> r[i] == !b[i]
  {
    if b == [] then [] else Invert(b[..|b| - 1]) + [!b[|b| - 1]]
  }

  lemma {:induction false} UnsignedBound(b: Bits)
    ensures Unsigned(b) < Pow2(|b|)
  {
    if b != [] {
      UnsignedBound(b[..|b| - 1]);
    }
  }

  lemma {:induction false} InvertValue(b: Bits)
    ensures Unsigned(Invert(b)) + Unsigned(b) == Pow2(|b|) - 1
  {
    if b != [] {
      var n := |b| - 1;
      assert Invert(b)[..n] == Invert(b[..n]);
      InvertValue(b[..n]);
    }
  }

  lemma {:induction false} FlipValue(b: Bits, i: nat)
    requires i < |b|
    ensures Unsigned(b[i := true]) == Unsigned(b[i := false]) + Pow2(i)
  {
    var n := |b| - 1;
    var t, f := b[i := true], b[i := false];
    if i < n {
      FlipValue(b[..n], i);
      assert t[..n] == b[..n][i := true] && f[..n] == b[..n][i := false];
    } else {
      assert t[..n] == f[..n];
    }
  }

  lemma {:induction false} TopBit(b: Bits)
    requires b != []
    ensures b[|b| - 1] <==> Unsigned(b) >= Pow2(|b| - 1)
  {
    UnsignedBound(b[..|b| - 1]);
  }

  /** Whether the loop meets a set bit before the highest one. */
  predicate LowBitSet(b: Bits) {
    exists i :: 0 <= i < |b| - 1 && b[i]
  }

  /** The loop that borrows along the trailing zeros, clears the lowest set bit and inverts. */
  method DirectCode(input: Bits) returns (word: Bits)
    requires input != []
    ensures |word| == |input|
    // INT_MIN, the one negative word without a low bit set, comes out as -1.
    ensures LowBitSet(input) ==> Unsigned(word) + Unsigned(input) == Pow2(|input|)
    ensures !LowBitSet(input) ==> forall i :: 0 <= i < |input| ==> word[i] == (i < |input| - 1 || input[i])
    ensures input[|input| - 1] ==>
      (Signed(word) == -Signed(input) <==> Signed(input) + Pow2(|input| - 1) != 0)
  {
    word := input;
    var bitCounter := |input| - 1;
    var shift := 0;
    while shift < bitCounter
      invariant 0 <= shift <= bitCounter && |word| == |input|
      invariant forall i :: 0 <= i < |input| ==> word[i] == (i < shift || input[i])
      invariant forall i :: 0 <= i < shift ==> !input[i]
      invariant Unsigned(word) == Unsigned(input) + Pow2(shift) - 1
    {
      FlipValue(word, shift);
      if !word[shift] {
        assert word[shift := false] == word;
        word := word[shift := true];
      } else {
        assert word[shift := true] == word && input[shift];
        word := word[shift := false];
        InvertValue(word);
        word := Invert(word);
        break;
      }
      shift := shift + 1;
    }
    if input[|input| - 1] {
      NegatesIff(input, word);
    }
  }

  /** What the loop leaves is the negated number for every negative number but the least, and for no other. */
  lemma NegatesIff(input: Bits, word: Bits)
    requires input != [] && input[|input| - 1] && |word| == |input|
    requires LowBitSet(input) ==> Unsigned(word) + Unsigned(input) == Pow2(|input|)
    requires !LowBitSet(input) ==> forall i :: 0 <= i < |input| ==> word[i]
    ensures Signed(word) == -Signed(input) <==> Signed(input) + Pow2(|input| - 1) != 0
  {
    var n := |input| - 1;
    TopBit(word);
    LowBits(input[..n]);
    UnsignedBound(input[..n]);
    if LowBitSet(input) {
      var i :| 0 <= i < n && input[i];
      assert input[..n][i];
    } else {
      AllOnes(word);
    }
  }

  lemma {:induction false} LowBits(b: Bits)
    ensures Unsigned(b) == 0 <==> forall i :: 0 <= i < |b| ==> !b[i]
  {
    if b != [] {
      var n := |b| - 1;
      LowBits(b[..n]);
      assert forall i :: 0 <= i < n ==> b[i] == b[..n][i];
    }
  }

  lemma AllOnes(b: Bits)
    requires forall i :: 0 <= i < |b| ==> b[i]
    ensures Unsigned(b) == Pow2(|b|) - 1
  {
    InvertValue(b);
    LowBits(Invert(b));
  }
}
