/** Bytes, machine integers and the fixed-width encodings that the wire formats share. */
module Base {

  datatype Option<+T> = None | Some(value: T)

  type Byte = b: int | 0 <= b < 256

  const TWO32: int := 0x1_0000_0000
  const TWO64: int := 0x1_0000_0000_0000_0000
  const MAX_UINT64: int := TWO64 - 1

  type Uint32 = n: int | 0 <= n < TWO32
  type Uint64 = n: int | 0 <= n < TWO64

  function Min(a: int, b: int): int { if a <= b then a else b }

  /** A cut behind the first part of a buffer only shortens the rest. */
  lemma {:induction false} CutConcat(h: seq<Byte>, t: seq<Byte>, k: nat)
    requires k <= |t|
    ensures (h + t)[..|h| + k] == h + t[..k]
  {
  }

  lemma {:induction false} Regroup(a: seq<Byte>, b: seq<Byte>, c: seq<Byte>)
    ensures (a + b) + c == a + (b + c)
  {
  }

  lemma {:induction false} RegroupFour(a: seq<Byte>, b: seq<Byte>, c: seq<Byte>, d: seq<Byte>)
    ensures (a + (b + c)) + d == a + (b + (c + d))
  {
  }

  /** The bytes of several buffers written one after the other. */
  function Concat(parts: seq<seq<Byte>>): seq<Byte>
  {
    if parts == [] then [] else parts[0] + Concat(parts[1..])
  }

  lemma {:induction false} ConcatAppend(a: seq<seq<Byte>>, b: seq<seq<Byte>>)
    ensures Concat(a + b) == Concat(a) + Concat(b)
  {
    if a == [] {
      assert a + b == b;
    } else {
      ConcatAppend(a[1..], b);
      assert (a + b)[1..] == a[1..] + b;
      assert Concat(a + b) == a[0] + (Concat(a[1..]) + Concat(b));
    }
  }

  lemma {:induction false} ConcatSnoc(a: seq<seq<Byte>>, x: seq<Byte>)
    ensures Concat(a + [x]) == Concat(a) + x
  {
    ConcatAppend(a, [x]);
    assert Concat([x]) == x + Concat([][..]) == x;
  }

  lemma {:induction false} ConcatNext(parts: seq<seq<Byte>>, i: nat)
    requires i < |parts|
    ensures Concat(parts[..i + 1]) == Concat(parts[..i]) + parts[i]
  {
    assert parts[..i + 1] == parts[..i] + [parts[i]];
    ConcatSnoc(parts[..i], parts[i]);
  }

  function Pow256(k: nat): nat
  {
    if k == 0 then 1 else 256 * Pow256(k - 1)
  }

  lemma {:induction false} Pow256Values()
    ensures Pow256(3) == 0x100_0000 && Pow256(4) == TWO32 && Pow256(8) == TWO64
  {
    assert Pow256(1) == 256;
    assert Pow256(2) == 0x1_0000;
    assert Pow256(4) == 256 * Pow256(3);
    assert Pow256(5) == 256 * Pow256(4);
    assert Pow256(6) == 256 * Pow256(5);
    assert Pow256(7) == 256 * Pow256(6);
    assert Pow256(8) == 256 * Pow256(7);
  }

  /** binary.LittleEndian.PutUint32/PutUint64: the low `width` bytes of `v`, least significant first. */
  function LittleEndian(v: nat, width: nat): (s: seq<Byte>)
    ensures |s| == width
  {
    if width == 0 then [] else [v % 256] + LittleEndian(v / 256, width - 1)
  }

  function FromLittleEndian(s: seq<Byte>): nat
  {
    if s == [] then 0 else s[0] + 256 * FromLittleEndian(s[1..])
  }

  lemma {:induction false} LittleEndianRoundTrip(v: nat, width: nat)
    requires v < Pow256(width)
    ensures FromLittleEndian(LittleEndian(v, width)) == v
  {
    if width > 0 {
      LittleEndianRoundTrip(v / 256, width - 1);
      assert LittleEndian(v, width)[1..] == LittleEndian(v / 256, width - 1);
    }
  }

  /** binary.BigEndian.PutUint32/PutUint64 and putUint24: most significant first. */
  function BigEndian(v: nat, width: nat): (s: seq<Byte>)
    ensures |s| == width
  {
    if width == 0 then [] else BigEndian(v / 256, width - 1) + [v % 256]
  }

  function FromBigEndian(s: seq<Byte>): nat
  {
    if s == [] then 0 else 256 * FromBigEndian(s[..|s| - 1]) + s[|s| - 1]
  }

  lemma {:induction false} BigEndianRoundTrip(v: nat, width: nat)
    requires v < Pow256(width)
    ensures FromBigEndian(BigEndian(v, width)) == v
  {
    if width > 0 {
      BigEndianRoundTrip(v / 256, width - 1);
      assert BigEndian(v, width)[..width - 1] == BigEndian(v / 256, width - 1);
    }
  }

  lemma {:induction false} BigEndianInverse(s: seq<Byte>)
    ensures FromBigEndian(s) < Pow256(|s|)
    ensures BigEndian(FromBigEndian(s), |s|) == s
  {
    if s != [] {
      BigEndianInverse(s[..|s| - 1]);
      assert FromBigEndian(s) / 256 == FromBigEndian(s[..|s| - 1]);
      assert s == s[..|s| - 1] + [s[|s| - 1]];
    }
  }

  /** Bitwise exclusive or on the low `bits` bits, from the least significant one up. */
  function XorBits(a: nat, b: nat, bits: nat): (r: nat)
  {
    if bits == 0 then 0
    else (if a % 2 == b % 2 then 0 else 1) + 2 * XorBits(a / 2, b / 2, bits - 1)
  }

  function Pow2(k: nat): nat
  {
    if k == 0 then 1 else 2 * Pow2(k - 1)
  }

  lemma {:induction false} XorBitsCancels(a: nat, b: nat, bits: nat)
    requires a < Pow2(bits)
    ensures XorBits(a, b, bits) < Pow2(bits)
    ensures XorBits(XorBits(a, b, bits), b, bits) == a
  {
    if bits > 0 {
      XorBitsCancels(a / 2, b / 2, bits - 1);
      var x := XorBits(a, b, bits);
      assert x / 2 == XorBits(a / 2, b / 2, bits - 1);
    }
  }

  function Xor(a: Byte, b: Byte): Byte
  {
    assert Pow2(8) == 256 by { assert Pow2(4) == 16; }
    XorBitsCancels(a, b, 8);
    XorBits(a, b, 8)
  }

  lemma {:induction false} XorCancels(a: Byte, b: Byte)
    ensures Xor(Xor(a, b), b) == a
  {
    assert Pow2(8) == 256 by { assert Pow2(4) == 16; }
    XorBitsCancels(a, b, 8);
  }

  lemma {:induction false} XorBitsCommute(a: nat, b: nat, bits: nat)
    ensures XorBits(a, b, bits) == XorBits(b, a, bits)
  {
    if bits > 0 { XorBitsCommute(a / 2, b / 2, bits - 1); }
  }

  lemma {:induction false} XorCommutes(a: Byte, b: Byte)
    ensures Xor(a, b) == Xor(b, a)
  {
    XorBitsCommute(a, b, 8);
  }

  /** With one operand fixed, the other can be told from the result. */
  lemma {:induction false} XorInjective(a: Byte, b: Byte, c: Byte)
    requires Xor(a, b) == Xor(a, c)
    ensures b == c
  {
    XorCommutes(a, b);
    XorCommutes(a, c);
    XorCancels(b, a);
    XorCancels(c, a);
  }

  /** Bit `k` of a number. */
  function Bit(a: nat, k: nat): nat
  {
    if k == 0 then a % 2 else Bit(a / 2, k - 1)
  }

  lemma {:induction false} XorBitsHalves(a: nat, b: nat, bits: nat)
    requires bits > 0
    ensures XorBits(a, b, bits) / 2 == XorBits(a / 2, b / 2, bits - 1)
    ensures XorBits(a, b, bits) % 2 == if a % 2 == b % 2 then 0 else 1
  {
    var rest := XorBits(a / 2, b / 2, bits - 1);
    assert XorBits(a, b, bits) == (if a % 2 == b % 2 then 0 else 1) + 2 * rest;
  }

  lemma {:induction false} XorBitsAt(a: nat, b: nat, bits: nat, k: nat)
    requires k < bits
    ensures Bit(XorBits(a, b, bits), k) == if Bit(a, k) == Bit(b, k) then 0 else 1
  {
    XorBitsHalves(a, b, bits);
    if k > 0 {
      XorBitsAt(a / 2, b / 2, bits - 1, k - 1);
      BitStep(XorBits(a, b, bits), k);
      BitStep(a, k);
      BitStep(b, k);
    }
  }

  lemma {:induction false} BitStep(a: nat, k: nat)
    requires k > 0
    ensures Bit(a, k) == Bit(a / 2, k - 1)
  {
  }

  /** Exclusive or, bit by bit. */
  lemma {:induction false} XorBit(a: Byte, b: Byte, k: nat)
    requires k < 8
    ensures Bit(Xor(a, b), k) == if Bit(a, k) == Bit(b, k) then 0 else 1
  {
    XorBitsAt(a, b, 8, k);
  }

  /** Digit `k` to the base 256. */
  function Digit(v: nat, k: nat): Byte
  {
    if k == 0 then v % 256 else Digit(v / 256, k - 1)
  }

  /** The byte order of the fixed-width encodings. */
  lemma {:induction false} LittleEndianAt(v: nat, width: nat, k: nat)
    requires k < width
    ensures LittleEndian(v, width)[k] == Digit(v, k)
  {
    if k > 0 { LittleEndianAt(v / 256, width - 1, k - 1); }
  }

  lemma {:induction false} BigEndianAt(v: nat, width: nat, k: nat)
    requires k < width
    ensures BigEndian(v, width)[width - 1 - k] == Digit(v, k)
  {
    if k > 0 { BigEndianAt(v / 256, width - 1, k - 1); }
  }
}
