/** Unsigned LEB128 integers as encoding/binary writes them, limited to 64 bits. */
module Varint {
  import opened Base

  /** binary.AppendUvarint. */
  function Encode(v: nat): (s: seq<Byte>)
    ensures |s| >= 1
  {
    if v < 128 then [v] else [v % 128 + 128] + Encode(v / 128)
  }

  datatype Result = Value(v: nat, n: nat) | Short | Overflow

  /** What one byte at index `i` may still contribute: values from there on are below Cap(i). */
  function Cap(i: nat): nat
    decreases 10 - i
  {
    if i >= 9 then 2 else 128 * Cap(i + 1)
  }

  lemma {:induction false} CapIsUint64()
    ensures Cap(0) == TWO64
  {
    assert Cap(8) == 256;
    assert Cap(7) == 128 * Cap(8);
    assert Cap(6) == 128 * Cap(7);
    assert Cap(5) == 128 * Cap(6);
    assert Cap(4) == 128 * Cap(5);
    assert Cap(3) == 128 * Cap(4);
    assert Cap(2) == 128 * Cap(3);
    assert Cap(1) == 128 * Cap(2);
    assert Cap(0) == 128 * Cap(1);
  }

  /** Reads the bytes from index `i` of a varint on: at most ten bytes, the tenth at most 1. */
  function Decode(b: seq<Byte>, i: nat): (r: Result)
    requires i <= 10
    ensures r.Value? ==> 1 <= r.n <= |b| && i + r.n <= 10
    decreases |b|
  {
    if i == 10 then Overflow
    else if b == [] then Short
    else if b[0] < 128 then
      if i == 9 && b[0] > 1 then Overflow else Value(b[0], 1)
    else
      match Decode(b[1..], i + 1)
      case Value(v, n) => Value(b[0] - 128 + 128 * v, n + 1)
      case other => other
  }

  lemma {:induction false} DecodeFits(b: seq<Byte>, i: nat)
    requires i <= 10
    ensures Decode(b, i).Value? ==> Decode(b, i).v < Cap(i)
    decreases 10 - i
  {
    if i < 9 {
      assert Cap(i) >= 256 by { CapAtLeast(i); }
      if b != [] && b[0] >= 128 { DecodeFits(b[1..], i + 1); }
    }
  }

  lemma {:induction false} CapAtLeast(i: nat)
    requires i <= 8
    ensures Cap(i) >= 256
    decreases 10 - i
  {
    if i < 8 { CapAtLeast(i + 1); }
  }

  lemma {:induction false} RoundTrip(v: nat, rest: seq<Byte>, i: nat)
    requires i <= 9 && v < Cap(i)
    ensures Decode(Encode(v) + rest, i) == Value(v, |Encode(v)|)
    decreases 10 - i
  {
    if v >= 128 {
      RoundTrip(v / 128, rest, i + 1);
      assert (Encode(v) + rest)[1..] == Encode(v / 128) + rest;
    }
  }

  /** A cut-off encoding is recognised as incomplete. */
  lemma {:induction false} CutIsShort(v: nat, k: nat, i: nat)
    requires i <= 9 && v < Cap(i) && k < |Encode(v)|
    ensures Decode(Encode(v)[..k], i) == Short
    decreases 10 - i
  {
    if v >= 128 && k > 0 {
      CutIsShort(v / 128, k - 1, i + 1);
      assert Encode(v)[..k][1..] == Encode(v / 128)[..k - 1];
    }
  }

  /** Every 64-bit integer is read back, and its encoding tolerates no cut. */
  lemma {:induction false} RoundTrip64(v: nat, rest: seq<Byte>)
    requires v < TWO64
    ensures Decode(Encode(v) + rest, 0) == Value(v, |Encode(v)|)
  {
    CapIsUint64();
    RoundTrip(v, rest, 0);
  }

  lemma {:induction false} CutIsShort64(v: nat, k: nat)
    requires v < TWO64 && k < |Encode(v)|
    ensures Decode(Encode(v)[..k], 0) == Short
  {
    CapIsUint64();
    CutIsShort(v, k, 0);
  }

  /** A decision, once made, does not depend on the bytes that follow. */
  lemma {:induction false} DecodeStable(b: seq<Byte>, c: seq<Byte>, i: nat)
    requires i <= 10 && !Decode(b, i).Short?
    ensures Decode(b + c, i) == Decode(b, i)
    decreases 10 - i
  {
    if i < 10 && b[0] >= 128 {
      DecodeStable(b[1..], c, i + 1);
      assert (b + c)[1..] == b[1..] + c;
    }
  }

  /** What is incomplete is exactly a run of fewer than ten continuation bytes. */
  lemma {:induction false} ShortIff(b: seq<Byte>, i: nat)
    requires i <= 10
    ensures Decode(b, i).Short? <==> i + |b| < 10 && forall k :: 0 <= k < |b| ==> b[k] >= 128
    decreases 10 - i
  {
    if i < 10 && b != [] {
      if b[0] >= 128 {
        ShortIff(b[1..], i + 1);
        assert forall k :: 1 <= k < |b| ==> b[k] == b[1..][k - 1];
      }
    }
  }

  /** The low seven bits are all in the first byte. */
  lemma {:induction false} FirstByte(b: seq<Byte>, i: nat)
    requires i <= 10 && Decode(b, i).Value?
    ensures Decode(b, i).v % 128 == b[0] % 128
  {
  }

  /** Groups of seven bits, least significant first; all bytes but the last have the top bit set. */
  function Group(v: nat, k: nat): nat
  {
    if k == 0 then v % 128 else Group(v / 128, k - 1)
  }

  lemma {:induction false} EncodeShape(v: nat, k: nat)
    requires k < |Encode(v)|
    ensures Encode(v)[k] == Group(v, k) + if k == |Encode(v)| - 1 then 0 else 128
  {
    if k > 0 { EncodeShape(v / 128, k - 1); }
  }
}
