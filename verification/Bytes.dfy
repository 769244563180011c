/** Bytes, big-endian integers and byte-wise exclusive or: the vocabulary of the wire formats. */
module Bytes {

  newtype byte = x: int | 0 <= x < 256

  datatype Option<+T> = None | Some(value: T)

  function Zeros(n: nat): (zs: seq<byte>)
    ensures |zs| == n
  {
    seq(n, _ => 0)
  }

  // ----- Big-endian integers -----

  function Pow256(n: nat): (p: nat)
    ensures p > 0
  {
    if n == 0 then 1 else 256 * Pow256(n - 1)
  }

  /** The low `width` bytes of `v`, most significant first. */
  function BigEndian(v: nat, width: nat): (bs: seq<byte>)
    ensures |bs| == width
  {
    if width == 0 then [] else BigEndian(v / 256, width - 1) + [(v % 256) as byte]
  }

  lemma TwoBytes(v: nat)
    requires v < 0x1_0000
    ensures BigEndian(v, 2) == [(v / 256) as byte, (v % 256) as byte]
  {
    assert BigEndian(v / 256, 1) == BigEndian(0, 0) + [(v / 256) as byte];
  }

  lemma Quotients(v: nat)
    ensures v / 256 / 256 == v / 0x1_0000 && v / 0x1_0000 / 256 == v / 0x100_0000
  {
  }

  lemma FourBytes(v: nat)
    requires v < 0x1_0000_0000
    ensures BigEndian(v, 4) == [(v / 0x100_0000) as byte, (v / 0x1_0000 % 256) as byte, (v / 256 % 256) as byte, (v % 256) as byte]
  {
    var w := v / 256;
    Quotients(v);
    TwoBytes(v / 0x1_0000);
    assert BigEndian(v, 4) == BigEndian(w, 3) + [(v % 256) as byte];
    assert BigEndian(w, 3) == BigEndian(v / 0x1_0000, 2) + [(w % 256) as byte];
  }

  function FromBigEndian(bs: seq<byte>): (v: nat)
    ensures v < Pow256(|bs|)
  {
    if bs == [] then 0 else 256 * FromBigEndian(bs[..|bs| - 1]) + bs[|bs| - 1] as nat
  }

  lemma {:induction false} BigEndianRoundTrip(v: nat, width: nat)
    requires v < Pow256(width)
    ensures FromBigEndian(BigEndian(v, width)) == v
  {
    if width > 0 {
      BigEndianRoundTrip(v / 256, width - 1);
      assert BigEndian(v, width)[..width - 1] == BigEndian(v / 256, width - 1);
    }
  }

  lemma LastByte(front: nat, last: byte)
    ensures (256 * front + last as nat) / 256 == front && (256 * front + last as nat) % 256 == last as nat
  {
  }

  lemma {:induction false} FromBigEndianRoundTrip(bs: seq<byte>)
    ensures BigEndian(FromBigEndian(bs), |bs|) == bs
  {
    if bs != [] {
      FromBigEndianRoundTrip(bs[..|bs| - 1]);
      LastByte(FromBigEndian(bs[..|bs| - 1]), bs[|bs| - 1]);
      assert bs == bs[..|bs| - 1] + [bs[|bs| - 1]];
    }
  }

  /** The field sizes the wire formats use. */
  lemma FieldSizes()
    ensures Pow256(1) == 0x100 && Pow256(2) == 0x1_0000 && Pow256(4) == 0x1_0000_0000
    ensures Pow256(8) == 0x1_0000_0000_0000_0000
  {
    assert Pow256(3) == 256 * Pow256(2);
    assert Pow256(5) == 256 * Pow256(4);
    assert Pow256(6) == 256 * Pow256(5);
    assert Pow256(7) == 256 * Pow256(6);
  }

  lemma TakeDrop<T>(s: seq<T>, i: nat)
    requires i <= |s|
    ensures s[..i] + s[i..] == s
  {
  }

  lemma Associate<T>(a: seq<T>, b: seq<T>, c: seq<T>)
    ensures (a + b) + c == a + (b + c)
  {
  }

  // ----- Bits -----

  function Pow2(n: nat): (p: nat)
    ensures p > 0
  {
    if n == 0 then 1 else 2 * Pow2(n - 1)
  }

  function Halve(v: nat, k: nat): nat { if k == 0 then v else Halve(v / 2, k - 1) }

  function HalvedBit(v: nat, k: nat): nat { Halve(v, k) % 2 }

  function Weight(k: nat): (w: nat)
    requires k < 8
    ensures w > 0
  {
    match k
    case 0 => 1
    case 1 => 2
    case 2 => 4
    case 3 => 8
    case 4 => 16
    case 5 => 32
    case 6 => 64
    case _ => 128
  }

  /** Bit `k` of a byte, the lowest being bit 0. */
  function Bit(b: byte, k: nat): bool
    requires k < 8
  {
    b as nat / Weight(k) % 2 == 1
  }

  lemma HalfThen(v: nat)
    ensures v / 2 / 1 == v / 2 && v / 2 / 2 == v / 4 && v / 2 / 4 == v / 8 && v / 2 / 8 == v / 16
  {
  }

  lemma HalfThenMore(v: nat)
    ensures v / 2 / 16 == v / 32 && v / 2 / 32 == v / 64 && v / 2 / 64 == v / 128
  {
  }

  lemma {:induction false} HalveIs(v: nat, k: nat)
    requires k < 8
    ensures Halve(v, k) == v / Weight(k)
  {
    if k > 0 {
      HalveIs(v / 2, k - 1);
      HalfThen(v);
      HalfThenMore(v);
    }
  }

  lemma BitIsHalved(b: byte, k: nat)
    requires k < 8
    ensures Bit(b, k) <==> HalvedBit(b as nat, k) == 1
  {
    HalveIs(b as nat, k);
  }

  lemma {:induction false} HalvesDetermine(a: nat, b: nat, n: nat)
    requires a < Pow2(n) && b < Pow2(n) && forall k :: 0 <= k < n ==> HalvedBit(a, k) == HalvedBit(b, k)
    ensures a == b
  {
    if n > 0 {
      forall k | 0 <= k < n - 1 ensures HalvedBit(a / 2, k) == HalvedBit(b / 2, k) {
        assert HalvedBit(a, k + 1) == HalvedBit(a / 2, k) && HalvedBit(b, k + 1) == HalvedBit(b / 2, k);
      }
      HalvesDetermine(a / 2, b / 2, n - 1);
      assert HalvedBit(a, 0) == a % 2 && HalvedBit(b, 0) == b % 2;
    }
  }

  /** A byte is its eight bits. */
  lemma SameBits(a: byte, b: byte)
    requires forall k :: 0 <= k < 8 ==> Bit(a, k) == Bit(b, k)
    ensures a == b
  {
    assert Pow2(8) == 256;
    var v, w := a as nat, b as nat;
    forall k | 0 <= k < 8 ensures HalvedBit(v, k) == HalvedBit(w, k) {
      BitIsHalved(a, k);
      BitIsHalved(b, k);
    }
    HalvesDetermine(v, w, 8);
  }

  // ----- Exclusive or -----

  /** Exclusive or of the low `bits` bits of `a` and `b`. */
  function XorBits(a: nat, b: nat, bits: nat): (r: nat)
    ensures r < Pow2(bits)
  {
    if bits == 0 then 0 else 2 * XorBits(a / 2, b / 2, bits - 1) + (a + b) % 2
  }

  function Xor(a: byte, b: byte): byte
  {
    assert Pow2(8) == 256;
    XorBits(a as nat, b as nat, 8) as byte
  }

  lemma HalvedBitStep(v: nat, k: nat)
    ensures HalvedBit(v, k) == if k == 0 then v % 2 else HalvedBit(v / 2, k - 1)
  {
  }

  lemma XorBitsStep(a: nat, b: nat, bits: nat)
    requires bits > 0
    ensures XorBits(a, b, bits) / 2 == XorBits(a / 2, b / 2, bits - 1) && XorBits(a, b, bits) % 2 == (a + b) % 2
  {
    Halves(XorBits(a / 2, b / 2, bits - 1), (a + b) % 2);
  }

  lemma Halves(half: nat, low: nat)
    requires low < 2
    ensures (2 * half + low) / 2 == half && (2 * half + low) % 2 == low
  {
  }

  lemma Parity(a: nat, b: nat)
    ensures (a + b) % 2 == 1 <==> (a % 2 == 1) != (b % 2 == 1)
  {
  }

  lemma {:induction false} XorHalved(a: nat, b: nat, bits: nat, k: nat)
    requires k < bits
    ensures HalvedBit(XorBits(a, b, bits), k) == 1 <==> (HalvedBit(a, k) == 1) != (HalvedBit(b, k) == 1)
  {
    Parity(a, b);
    XorBitsStep(a, b, bits);
    HalvedBitStep(XorBits(a, b, bits), k);
    HalvedBitStep(a, k);
    HalvedBitStep(b, k);
    if k > 0 { XorHalved(a / 2, b / 2, bits - 1, k - 1); }
  }

  /** Exclusive or, bit by bit. */
  lemma XorBit(a: byte, b: byte, k: nat)
    requires k < 8
    ensures Bit(Xor(a, b), k) <==> Bit(a, k) != Bit(b, k)
  {
    assert Pow2(8) == 256;
    BitIsHalved(a, k);
    BitIsHalved(b, k);
    BitIsHalved(Xor(a, b), k);
    XorHalved(a as nat, b as nat, 8, k);
  }

  lemma XorCancels(a: byte, b: byte)
    ensures Xor(Xor(a, b), b) == a
  {
    forall k | 0 <= k < 8 ensures Bit(Xor(Xor(a, b), b), k) == Bit(a, k) {
      XorBit(a, b, k);
      XorBit(Xor(a, b), b, k);
    }
    SameBits(Xor(Xor(a, b), b), a);
  }

  lemma XorZero(a: byte)
    ensures Xor(0, a) == a
  {
    forall k | 0 <= k < 8 ensures Bit(Xor(0, a), k) == Bit(a, k) {
      XorBit(0, a, k);
      assert !Bit(0, k);
    }
    SameBits(Xor(0, a), a);
  }

  function XorSeq(a: seq<byte>, b: seq<byte>): (r: seq<byte>)
    requires |a| == |b|
    ensures |r| == |a|
  {
    seq(|a|, i requires 0 <= i < |a| => Xor(a[i], b[i]))
  }

  /** Applying the same key stream twice gives the text back. */
  lemma XorSeqCancels(a: seq<byte>, b: seq<byte>)
    requires |a| == |b|
    ensures XorSeq(XorSeq(a, b), b) == a
  {
    forall i | 0 <= i < |a| ensures Xor(Xor(a[i], b[i]), b[i]) == a[i] { XorCancels(a[i], b[i]); }
  }
}
