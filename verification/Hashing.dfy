/** The hash of client_table.c mixes without loss: with the same port, different addresses have different hashes. */
module Hashing {
  import opened Words
  import opened ClientTable

  // A right shift, bit by bit.

  function Shift(n: nat, k: nat): nat
    decreases k
  {
    if k == 0 then n else Shift(n / 2, k - 1)
  }

  lemma {:induction false} ShiftIs(n: nat, k: nat, q: nat)
    requires q * Pow2(k) <= n < (q + 1) * Pow2(k)
    ensures Shift(n, k) == q
    decreases k
  {
    if k > 0 {
      var p := Pow2(k - 1);
      assert q * Pow2(k) == 2 * (q * p) && (q + 1) * Pow2(k) == 2 * ((q + 1) * p);
      ShiftIs(n / 2, k - 1, q);
    }
  }

  lemma {:induction false} BitOfShift(n: nat, k: nat, i: nat)
    ensures Bit(Shift(n, k), i) == Bit(n, i + k)
    decreases k
  {
    if k > 0 {
      BitOfShift(n / 2, k - 1, i);
    }
  }

  lemma {:induction false} HighBit(n: nat, bits: nat, i: nat)
    requires n < Pow2(bits) && i >= bits
    ensures !Bit(n, i)
    decreases i
  {
    if i > 0 && bits > 0 {
      HighBit(n / 2, bits - 1, i - 1);
    } else if i > 0 {
      HighBit(0, 0, i - 1);
    }
  }

  lemma {:induction false} SameBits(a: nat, b: nat, bits: nat)
    requires a < Pow2(bits) && b < Pow2(bits) && forall i :: 0 <= i < bits ==> Bit(a, i) == Bit(b, i)
    ensures a == b
  {
    if bits > 0 {
      assert Bit(a, 0) == Bit(b, 0);
      forall i | 0 <= i < bits - 1
        ensures Bit(a / 2, i) == Bit(b / 2, i)
      {
        assert Bit(a, i + 1) == Bit(b, i + 1);
      }
      SameBits(a / 2, b / 2, bits - 1);
    }
  }

  /** Xoring twice with the same word undoes itself. */
  lemma XorCancels(a: nat, b: nat, bits: nat)
    requires a < Pow2(bits) && b < Pow2(bits)
    ensures Xor(Xor(a, b, bits), b, bits) == a
  {
    hide Xor, Bit;
    var twice := Xor(Xor(a, b, bits), b, bits);
    forall i | 0 <= i < bits
      ensures Bit(twice, i) == Bit(a, i)
    {
      XorBits(Xor(a, b, bits), b, bits, i);
      XorBits(a, b, bits, i);
    }
    SameBits(twice, a, bits);
  }

  /** Bit i of a word is settled by the word xored with its own shift, from the top bit down. */
  lemma {:induction false} XorShiftBit(a: nat, b: nat, k: nat, bits: nat, i: nat)
    requires a < Pow2(bits) && b < Pow2(bits) && k > 0 && i < bits
    requires Shift(a, k) < Pow2(bits) && Shift(b, k) < Pow2(bits)
    requires Xor(a, Shift(a, k), bits) == Xor(b, Shift(b, k), bits)
    ensures Bit(a, i) == Bit(b, i)
    decreases bits - i
  {
    XorBits(a, Shift(a, k), bits, i);
    XorBits(b, Shift(b, k), bits, i);
    BitOfShift(a, k, i);
    BitOfShift(b, k, i);
    if i + k < bits {
      XorShiftBit(a, b, k, bits, i + k);
    } else {
      HighBit(a, bits, i + k);
      HighBit(b, bits, i + k);
    }
  }

  lemma Width()
    ensures Pow2(32) == U32 && Pow2(16) == 0x1_0000 && Pow2(13) == 0x2000
  {
    assert Pow2(8) == 0x100 && Pow2(13) == 0x2000 && Pow2(16) == 0x1_0000 && Pow2(24) == 0x100_0000;
  }

  /** x ^= x >> 16 and x ^= x >> 13 lose nothing. */
  lemma XorShiftInjective(a: Word32, b: Word32, k: nat)
    requires k == 16 || k == 13
    requires Xor32(a, a / (if k == 16 then 0x1_0000 else 0x2000)) == Xor32(b, b / (if k == 16 then 0x1_0000 else 0x2000))
    ensures a == b
  {
    hide Xor, Bit;
    Width();
    var p := if k == 16 then 0x1_0000 else 0x2000;
    ShiftIs(a, k, a / p);
    ShiftIs(b, k, b / p);
    forall i | 0 <= i < 32
      ensures Bit(a, i) == Bit(b, i)
    {
      XorShiftBit(a, b, k, 32, i);
    }
    SameBits(a, b, 32);
  }

  lemma SameRemainder(x: nat, y: nat) returns (c: int)
    requires Wrap32(x) == Wrap32(y)
    ensures x - y == c * U32
  {
    hide Wrap32;
    Wrap32IsModulo(x);
    Wrap32IsModulo(y);
    c := x / U32 - y / U32;
  }

  lemma InverseTimes(d: int, m: int, inverse: int, q: int, c: int)
    requires m * inverse == 1 + q * U32 && d * m == c * U32
    ensures d == (c * inverse - d * q) * U32
  {
    calc {
      (c * inverse) * U32;
      (c * U32) * inverse;
      (d * m) * inverse;
      d * (m * inverse);
      d * (1 + q * U32);
      d + (d * q) * U32;
    }
  }

  /** Multiplying by a number that has an inverse modulo 2^32 loses nothing. */
  lemma TimesInjective(a: Word32, b: Word32, m: nat, inverse: nat, q: nat)
    requires m * inverse == 1 + q * U32
    requires Wrap32(a * m) == Wrap32(b * m)
    ensures a == b
  {
    hide Wrap32;
    var c := SameRemainder(a * m, b * m);
    var d: int := a - b;
    assert d * m == a * m - b * m;
    InverseTimes(d, m, inverse, q, c);
    SmallMultiple(d, c * inverse - d * q);
  }

  lemma SmallMultiple(d: int, j: int)
    requires d == j * U32 && -U32 < d < U32
    ensures d == 0
  {
  }

  lemma MixInjective(a: Key, b: Key, steps: nat)
    requires a.port == b.port && steps <= 3 && Mix(a, steps) == Mix(b, steps)
    ensures a.ip == b.ip
  {
    hide Xor32, Wrap32;
    if steps == 0 {
      var w := Wrap32(a.port * 2654435761);
      Xor32Cancels(a.ip, w);
      Xor32Cancels(b.ip, w);
    } else {
      var x, y := Mix(a, steps - 1), Mix(b, steps - 1);
      if steps == 1 {
        TimesInjective(Xor32(x, x / 0x1_0000), Xor32(y, y / 0x1_0000), 2246822519, 3066638151, 1604247758);
        XorShiftInjective(x, y, 16);
      } else if steps == 2 {
        TimesInjective(Xor32(x, x / 0x2000), Xor32(y, y / 0x2000), 3266489917, 2828982549, 2151551417);
        XorShiftInjective(x, y, 13);
      } else {
        XorShiftInjective(x, y, 16);
      }
      MixInjective(a, b, steps - 1);
    }
  }

  lemma Xor32Cancels(a: Word32, w: Word32)
    ensures Xor32(Xor32(a, w), w) == a
  {
    hide Xor;
    Width();
    XorCancels(a, w, 32);
  }

  /** Two clients with the same port have the same hash only if they have the same address. */
  lemma HashInjective(a: Key, b: Key)
    requires a.port == b.port
    ensures HashKey(a) == HashKey(b) <==> a == b
  {
    hide Mix;
    if HashKey(a) == HashKey(b) {
      MixInjective(a, b, 3);
    }
  }
}
