/** Bytes, machine words and the C string view shared by the other modules. */
module Words {

  datatype Option<+T> = None | Some(value: T)

  type Byte = b: int | 0 <= b < 0x100
  type Word16 = w: int | 0 <= w < 0x1_0000
  type Word32 = w: int | 0 <= w < 0x1_0000_0000

  const U32 := 0x1_0000_0000

  /** What a uint32 holds after counting up to n. */
  function Wrap32(n: nat): Word32 {
    if n < U32 then n else Wrap32(n - U32)
  }

  lemma {:induction false} Wrap32IsModulo(n: nat)
    ensures Wrap32(n) == n % U32
  {
    if n >= U32 {
      Wrap32IsModulo(n - U32);
    }
  }

  /** Wrapping part of a sum first does not change the wrapped whole. */
  lemma {:induction false} Wrap32Absorb(a: nat, b: nat)
    ensures Wrap32(Wrap32(a) + b) == Wrap32(a + b)
  {
    if a >= U32 {
      Wrap32Absorb(a - U32, b);
    }
  }

  function Zeroes(n: nat): (s: seq<Byte>)
    ensures |s| == n && forall i :: 0 <= i < n ==> s[i] == 0
  {
    seq(n, _ => 0)
  }

  function Pow2(n: nat): (r: nat)
    ensures r > 0
  {
    if n == 0 then 1 else 2 * Pow2(n - 1)
  }

  /** The byte order in which the host keeps its words in memory. */
  datatype HostOrder = LittleEndian | BigEndian

  /** (hi << 8) | lo */
  function Word(hi: Byte, lo: Byte): Word16 {
    var h: int := hi;
    h * 0x100 + lo
  }

  /** The two bytes, as they lie in memory, of a word written by the host. */
  function Store16(order: HostOrder, w: Word16): (s: seq<Byte>)
    ensures |s| == 2
  {
    if order.BigEndian? then [w / 0x100, w % 0x100] else [w % 0x100, w / 0x100]
  }

  function Load16(order: HostOrder, s: seq<Byte>): Word16
    requires |s| == 2
  {
    if order.BigEndian? then Word(s[0], s[1]) else Word(s[1], s[0])
  }

  function Store32(order: HostOrder, w: Word32): (s: seq<Byte>)
    ensures |s| == 4
  {
    if order.BigEndian?
    then Store16(order, w / 0x1_0000) + Store16(order, w % 0x1_0000)
    else Store16(order, w % 0x1_0000) + Store16(order, w / 0x1_0000)
  }

  function Load32(order: HostOrder, s: seq<Byte>): Word32
    requires |s| == 4
  {
    if order.BigEndian?
    then Load16(order, s[..2]) * 0x1_0000 + Load16(order, s[2..])
    else Load16(order, s[2..]) * 0x1_0000 + Load16(order, s[..2])
  }

  /** htons, which is its own inverse and so also ntohs. */
  function Htons(order: HostOrder, w: Word16): Word16 {
    if order.BigEndian? then w else (w % 0x100) * 0x100 + w / 0x100
  }

  /** The two bytes of htons(w) as the host stores it. */
  function Net16(order: HostOrder, w: Word16): (s: seq<Byte>)
    ensures |s| == 2
  {
    Store16(order, Htons(order, w))
  }

  /** ntohs of the two bytes. */
  function NetWord(order: HostOrder, s: seq<Byte>): Word16
    requires |s| == 2
  {
    Htons(order, Load16(order, s))
  }

  /** On every host htons puts the high byte first, and ntohs reads it back. */
  lemma NetworkOrder(order: HostOrder, w: Word16)
    ensures Net16(order, w) == [w / 0x100, w % 0x100]
    ensures NetWord(order, Net16(order, w)) == w
  {
  }

  lemma LoadOfStore32(order: HostOrder, w: Word32)
    ensures Load32(order, Store32(order, w)) == w
  {
    var s := Store32(order, w);
    var first := if order.BigEndian? then w / 0x1_0000 else w % 0x1_0000;
    assert s[..2] == Store16(order, first);
  }

  /** A word read by the host weighs its four bytes in the host's order. */
  lemma Load32Weighs(order: HostOrder, s: seq<Byte>)
    requires |s| == 4
    ensures Load32(order, s) ==
      if order.BigEndian? then 0x100_0000 * s[0] as int + 0x1_0000 * s[1] as int + 0x100 * s[2] as int + s[3] as int
      else 0x100_0000 * s[3] as int + 0x1_0000 * s[2] as int + 0x100 * s[1] as int + s[0] as int
  {
    assert s[2..][0] == s[2] && s[2..][1] == s[3];
  }

  /** The C string in a buffer: the bytes before the first NUL. */
  function CStr(s: seq<Byte>): (t: seq<Byte>)
    ensures t <= s && 0 !in t
    ensures |t| < |s| ==> s[|t|] == 0
  {
    if s == [] || s[0] == 0 then [] else [s[0]] + CStr(s[1..])
  }

  /** CStr is determined by what its contract says. */
  lemma {:induction false} CStrIs(s: seq<Byte>, t: seq<Byte>)
    requires t <= s && 0 !in t && (|t| < |s| ==> s[|t|] == 0)
    ensures CStr(s) == t
  {
    if t != [] {
      CStrIs(s[1..], t[1..]);
    }
  }
}
