/** The Internet checksum of checksum.c (RFC 1071) and the UDP checksum built on it (RFC 768). */
module Checksum {
  import opened Words

  /** The mathematical sum of the big-endian 16-bit words of data, an odd last byte padded with zero. */
  function WordSum(data: seq<Byte>): nat {
    if data == [] then 0
    else if |data| == 1 then Word(data[0], 0)
    else Word(data[0], data[1]) + WordSum(data[2..])
  }

  /** The one's-complement value of a sum: 65535 is cast out until the rest fits sixteen bits. */
  function Canonical(sum: nat): Word16 {
    if sum <= 0xFFFF then sum else Canonical(sum - 0xFFFF)
  }

  function Complement(w: Word16): Word16 {
    0xFFFF - w
  }

  /** Canonical is the one value in 0..65535 congruent to the sum and zero only for a zero sum. */
  lemma {:induction false} CanonicalIs(sum: nat, w: Word16)
    ensures Canonical(sum) == w <==> (w % 0xFFFF == sum % 0xFFFF && (w == 0 <==> sum == 0))
  {
    if sum > 0xFFFF {
      CanonicalIs(sum - 0xFFFF, w);
    }
  }

  /** Adding a carry back in, or leaving out a multiple of 65535, keeps the canonical value. */
  lemma {:induction false} CanonicalCarry(sum: nat, carries: nat)
    requires sum > 0
    ensures Canonical(sum + 0xFFFF * carries) == Canonical(sum)
  {
    if carries > 0 {
      CanonicalCarry(sum, carries - 1);
    }
  }

  /** Folding part of a sum first does not change the value of the whole (RFC 1071, section 2(A)). */
  lemma {:induction false} CanonicalAbsorb(a: nat, b: nat)
    ensures Canonical(Canonical(a) + b) == Canonical(a + b)
  {
    if a > 0xFFFF {
      CanonicalAbsorb(a - 0xFFFF, b);
    }
  }

  lemma {:induction false} WordSumAppend(a: seq<Byte>, b: seq<Byte>)
    requires |a| % 2 == 0
    ensures WordSum(a + b) == WordSum(a) + WordSum(b)
  {
    if a == [] {
      assert a + b == b;
    } else {
      assert (a + b)[2..] == a[2..] + b;
      WordSumAppend(a[2..], b);
    }
  }

  lemma {:induction false} WordSumBound(data: seq<Byte>)
    ensures 2 * WordSum(data) <= 0xFFFF * (|data| + |data| % 2)
  {
    if |data| >= 2 {
      WordSumBound(data[2..]);
    }
  }

  lemma {:induction false} WordSumZero(data: seq<Byte>)
    ensures WordSum(data) == 0 <==> forall i :: 0 <= i < |data| ==> data[i] == 0
  {
    if |data| >= 2 {
      WordSumZero(data[2..]);
      if WordSum(data) == 0 {
        forall i | 0 <= i < |data|
          ensures data[i] == 0
        {
          if i >= 2 {
            assert data[i] == data[2..][i - 2];
          }
        }
      }
    }
  }

  /** The sum byte by byte: those at even places count 256 times. */
  function Weighted(data: seq<Byte>): nat {
    if data == [] then 0 else
    var n := |data| - 1;
    var last: nat := data[n];
    Weighted(data[..n]) + if n % 2 == 0 then 0x100 * last else last
  }

  /** The word sum weighs every byte by its place, the last of an odd number like any other. */
  lemma {:induction false} WordSumWeighs(data: seq<Byte>)
    ensures WordSum(data) == Weighted(data)
  {
    if data != [] {
      var even := (|data| - 1) / 2 * 2;
      var front, back := data[..even], data[even..];
      WordSumAppend(front, back);
      assert data == front + back;
      WordSumWeighs(front);
      if |back| == 2 {
        assert data[..even + 1][..even] == front;
      }
    }
  }

  /** The value of the loops when their uint32 accumulator wraps as the machine's does. */
  function WrappedSum(start: Word32, data: seq<Byte>): Word32 {
    Wrap32(start + WordSum(data))
  }

  /** The word loop of both checksum functions; its accumulator is a wrapping uint32. */
  method AddWords(start: Word32, data: seq<Byte>) returns (sum: Word32)
    ensures sum == WrappedSum(start, data)
  {
    sum := start;
    var p, len := 0, |data|;
    ghost var total: nat := start;
    while len > 1
      invariant p + len == |data| && 0 <= len
      invariant sum == Wrap32(total)
      invariant total + WordSum(data[p..]) == start + WordSum(data)
    {
      assert data[p..][2..] == data[p + 2..];
      var word := Word(data[p], data[p + 1]);
      Wrap32Absorb(total, word);
      total, sum := total + word, Wrap32(sum + word);
      p := p + 2;
      len := len - 2;
    }
    if len == 1 {
      var word := Word(data[p], 0);
      Wrap32Absorb(total, word);
      sum := Wrap32(sum + word);
    }
  }

  /** The folding loop: at most two passes whatever the accumulator holds. */
  method Fold(start: Word32) returns (sum: Word16, ghost passes: nat)
    ensures sum == Canonical(start) && passes <= 2
  {
    var s: Word32 := start;
    passes := 0;
    while s / 0x1_0000 != 0
      invariant Canonical(s) == Canonical(start)
      invariant passes == 0 || (passes == 1 && s <= 0x1_FFFE) || (passes == 2 && s <= 0xFFFF)
      decreases s
    {
      CanonicalCarry(s % 0x1_0000 + s / 0x1_0000, s / 0x1_0000);
      s := s % 0x1_0000 + s / 0x1_0000;
      passes := passes + 1;
    }
    sum := s;
    CanonicalIs(sum, sum);
  }

  /** The checksum RFC 1071 asks for. */
  function Rfc1071(data: seq<Byte>): Word16 {
    Complement(Canonical(WordSum(data)))
  }

  /** What rawudp_checksum16 returns for any length, its accumulator wrapping where it must. */
  function Checksum16Value(data: seq<Byte>): Word16 {
    Complement(Canonical(WrappedSum(0, data)))
  }

  /** rawudp_checksum16. */
  method Checksum16(data: seq<Byte>) returns (c: Word16)
    ensures c == Checksum16Value(data)
    ensures |data| <= 131074 ==> c == Rfc1071(data)
  {
    WordSumBound(data);
    var sum := AddWords(0, data);
    var folded, passes := Fold(sum);
    c := Complement(folded);
  }

  /** 131074 bytes is the exact length up to which the uint32 accumulator is wide enough. */
  lemma AccumulatorBound(len: nat)
    ensures (forall data: seq<Byte> :: |data| == len ==> Checksum16Value(data) == Rfc1071(data))
      <==> len <= 131074
  {
    if len <= 131074 {
      forall data: seq<Byte> | |data| == len
        ensures Checksum16Value(data) == Rfc1071(data)
      {
        WordSumBound(data);
      }
    } else {
      var high: seq<Byte> := seq(131074, _ => 0xFF);
      var low: seq<Byte> := [0xFF] + seq(len - 131075, _ => 0);
      assert low[0] == 0xFF;
      WordSumOnes(high);
      WordSumOneByte(low);
      WordSumAppend(high, low);
      var data := high + low;
      assert WordSum(data) == 0xFFFF * 65537 + 0xFF00;
      CanonicalCarry(0xFF00, 65537);
      assert WrappedSum(0, data) == 0xFEFF;
      assert |data| == len && Checksum16Value(data) != Rfc1071(data);
    }
  }

  lemma {:induction false} WordSumOnes(data: seq<Byte>)
    requires |data| % 2 == 0 && forall i :: 0 <= i < |data| ==> data[i] == 0xFF
    ensures WordSum(data) == 0xFFFF * (|data| / 2)
  {
    if data != [] {
      WordSumOnes(data[2..]);
    }
  }

  lemma WordSumOneByte(data: seq<Byte>)
    requires |data| >= 1 && forall i :: 1 <= i < |data| ==> data[i] == 0
    ensures WordSum(data) == Word(data[0], 0)
  {
    if |data| >= 2 {
      WordSumZero(data[2..]);
    }
  }

  const IPPROTO_UDP: Byte := 17

  /** The twelve bytes of the pseudo-header, as the struct lies in memory. */
  function PseudoHeader(order: HostOrder, src: Word32, dst: Word32, udpLen: nat): (s: seq<Byte>)
    ensures |s| == 12
  {
    Store32(order, src) + Store32(order, dst) + [0, IPPROTO_UDP] +
    Store16(order, Htons(order, udpLen % 0x1_0000))
  }

  /** The UDP checksum of RFC 768: over pseudo-header and datagram together, 0 sent as all ones. */
  function Rfc768(order: HostOrder, src: Word32, dst: Word32, udp: seq<Byte>): Word16 {
    var c := Rfc1071(PseudoHeader(order, src, dst, |udp|) + udp);
    if c == 0 then 0xFFFF else c
  }

  /** Summing a prefix apart, with its own folding and complement, and un-complementing it. */
  lemma PrefixApart(prefix: seq<Byte>, data: seq<Byte>)
    requires |prefix| == 12 && |data| <= 65535
    ensures Canonical(WrappedSum(Complement(Checksum16Value(prefix)), data)) == Canonical(WordSum(prefix + data))
  {
    hide WordSum, Canonical;
    WordSumBound(prefix);
    WordSumBound(data);
    WordSumAppend(prefix, data);
    CanonicalAbsorb(WordSum(prefix), WordSum(data));
  }

  /** rawudp_udp_checksum: sums the pseudo-header apart and un-complements it before going on. */
  method UdpChecksum(order: HostOrder, src: Word32, dst: Word32, udp: seq<Byte>) returns (c: Word16)
    ensures c != 0
    ensures |udp| <= 65535 ==> c == Rfc768(order, src, dst, udp)
  {
    var ph := PseudoHeader(order, src, dst, |udp|);
    var c1 := Checksum16(ph);
    var sum := AddWords(Complement(c1), udp);
    var folded, passes := Fold(sum);
    c := Complement(folded);
    if |udp| <= 65535 {
      PrefixApart(ph, udp);
    }
    if c == 0 {
      c := 0xFFFF;
    }
  }

  // What a receiver finds when it sums the data again with the checksum in place.

  /** c is the checksum of data that sum to the given value, 0 possibly written as 0xFFFF. */
  ghost predicate IsChecksumOf(c: Word16, sum: nat) {
    var r := Complement(Canonical(sum));
    c == r || (r == 0 && c == 0xFFFF)
  }

  /** With a value added, the sum is all ones exactly when the value is the checksum. */
  lemma OnesIffChecksum(sum: nat, c: Word16)
    requires sum > 0
    ensures Canonical(sum + c) == 0xFFFF <==> IsChecksumOf(c, sum)
  {
    CanonicalAbsorb(sum, c);
    CanonicalIs(sum, 0);
  }

  /** With the two bytes of the checksum swapped, the sum is all ones exactly when they are equal. */
  lemma OnesIffSameBytes(sum: nat, hi: Byte, lo: Byte)
    requires sum > 0 && IsChecksumOf(Word(hi, lo), sum)
    ensures Canonical(sum + Word(lo, hi)) == 0xFFFF <==> hi == lo
  {
    OnesIffChecksum(sum, Word(lo, hi));
  }
}
