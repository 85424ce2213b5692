/** RLP encoding of byte strings and lists, and the strict decoder that it is the inverse of. */
module Rlp {
  import opened Base

  // Lengths.

  /** The big-endian form of `v` without leading zeros, one byte for zero. */
  function Minimal(v: nat): (s: seq<Byte>)
    ensures |s| >= 1
  {
    if v < 256 then [v] else Minimal(v / 256) + [v % 256]
  }

  /** The same, dropping leading zeros from a fixed-width form. */
  function Stripped(b: seq<Byte>): seq<Byte>
  {
    if |b| > 1 && b[0] == 0 then Stripped(b[1..]) else b
  }

  lemma {:induction false} BigEndianPadsZero(v: nat, width: nat)
    requires v < Pow256(width)
    ensures BigEndian(v, width + 1) == [0] + BigEndian(v, width)
  {
    if width == 0 {
      assert BigEndian(v / 256, 0) == [];
    } else {
      BigEndianPadsZero(v / 256, width - 1);
    }
  }

  lemma {:induction false} StrippedIsMinimal(v: nat, width: nat)
    requires width >= 1 && v < Pow256(width)
    ensures Stripped(BigEndian(v, width)) == Minimal(v)
  {
    if width == 1 {
      assert Pow256(1) == 256;
      assert BigEndian(v / 256, 0) == [];
      assert BigEndian(v, 1) == [v];
    } else if v < Pow256(width - 1) {
      BigEndianPadsZero(v, width - 1);
      assert BigEndian(v, width)[1..] == BigEndian(v, width - 1);
      StrippedIsMinimal(v, width - 1);
    } else {
      FullWidthMinimal(v, width);
    }
  }

  lemma {:induction false} FullWidthMinimal(v: nat, width: nat)
    requires width >= 2 && Pow256(width - 1) <= v < Pow256(width)
    ensures BigEndian(v, width) == Minimal(v) && Minimal(v)[0] != 0
  {
    if width == 2 {
      assert Pow256(1) == 256 && Pow256(2) == 0x1_0000;
      assert BigEndian(v / 256 / 256, 0) == [];
      assert BigEndian(v / 256, 1) == [v / 256];
      assert Minimal(v / 256) == [v / 256];
    } else {
      FullWidthMinimal(v / 256, width - 1);
    }
  }

  method MinimalBigEndian(value: Uint64) returns (r: seq<Byte>)
    ensures r == Minimal(value)
  {
    var buffer := BigEndian(value, 8);
    var first := 0;
    while first < |buffer| - 1 && buffer[first] == 0
      invariant 0 <= first < |buffer|
      invariant Stripped(buffer[first..]) == Stripped(buffer)
    {
      assert buffer[first..][1..] == buffer[first + 1..];
      first := first + 1;
    }
    Pow256Values();
    StrippedIsMinimal(value, 8);
    return buffer[first..];
  }

  /** Minimal lengths read back, start with a non-zero byte unless they are one byte, and fit in eight bytes. */
  lemma {:induction false} MinimalReadsBack(v: nat)
    ensures FromBigEndian(Minimal(v)) == v
    ensures v > 0 ==> Minimal(v)[0] != 0
  {
    if v < 256 {
      assert Minimal(v)[..0] == [];
    } else {
      MinimalReadsBack(v / 256);
      assert Minimal(v)[..|Minimal(v)| - 1] == Minimal(v / 256);
    }
  }

  lemma {:induction false} MinimalWidth(v: nat, width: nat)
    requires width >= 1 && v < Pow256(width)
    ensures |Minimal(v)| <= width
  {
    if width == 1 {
      assert Pow256(1) == 256;
    } else if v >= 256 {
      MinimalWidth(v / 256, width - 1);
    }
  }

  /** Any big-endian form without a leading zero is the minimal one. */
  lemma {:induction false} NoLeadingZeroIsMinimal(s: seq<Byte>)
    requires s != [] && s[0] != 0
    ensures s == Minimal(FromBigEndian(s)) && FromBigEndian(s) > 0
  {
    var front, last := s[..|s| - 1], s[|s| - 1];
    if |s| == 1 {
      assert front == [] && s == [last];
    } else {
      NoLeadingZeroIsMinimal(front);
      assert FromBigEndian(s) / 256 == FromBigEndian(front);
      assert s == front + [last];
    }
  }

  // Encoding.

  const SHORT_STRING: nat := 0x80
  const SHORT_LIST: nat := 0xc0

  /** The prefix of a payload of `n` bytes, with the bases for short and long payloads. */
  function Prefix(short: nat, n: nat): (r: seq<Byte>)
    requires (short == SHORT_STRING || short == SHORT_LIST) && n < TWO64
    ensures |r| >= 1
  {
    if n <= 55 then [short + n]
    else
      Pow256Values();
      MinimalWidth(n, 8);
      [short + 55 + |Minimal(n)|] + Minimal(n)
  }

  function EncodeString(payload: seq<Byte>): seq<Byte>
    requires |payload| < TWO64
  {
    if |payload| == 1 && payload[0] < 0x80 then payload else Prefix(SHORT_STRING, |payload|) + payload
  }

  function EncodeListPayload(payload: seq<Byte>): seq<Byte>
    requires |payload| < TWO64
  {
    Prefix(SHORT_LIST, |payload|) + payload
  }

  /** A payload of more than 55 bytes: the width of its length, the length without leading zeros, and the payload. */
  ghost predicate LongForm(r: seq<Byte>, base: nat, payload: seq<Byte>)
  {
    var width := |r| - 1 - |payload|;
    && 1 <= width <= 8 && r[0] == base + width && r[1] != 0
    && FromBigEndian(r[1..1 + width]) == |payload| && r[1 + width..] == payload
  }

  lemma {:induction false} LongFormIs(base: nat, payload: seq<Byte>)
    requires base <= 247 && 55 < |payload| < TWO64
    ensures 1 <= |Minimal(|payload|)| <= 8
    ensures LongForm([base + |Minimal(|payload|)|] + Minimal(|payload|) + payload, base, payload)
  {
    var length := Minimal(|payload|);
    Pow256Values();
    MinimalWidth(|payload|, 8);
    MinimalReadsBack(|payload|);
    var r := [base + |length|] + length + payload;
    assert r[1..1 + |length|] == length && r[1 + |length|..] == payload && r[1] == length[0];
  }

  method EncodeRLPBytes(payload: seq<Byte>) returns (r: seq<Byte>)
    requires |payload| < TWO64
    ensures r == EncodeString(payload)
    ensures |payload| == 1 && payload[0] < 128 ==> r == payload
    ensures |payload| <= 55 && !(|payload| == 1 && payload[0] < 128) ==> r == [128 + |payload|] + payload
    ensures |payload| > 55 ==> LongForm(r, 183, payload)
  {
    if |payload| == 1 && payload[0] < 0x80 { return payload; }
    if |payload| <= 55 {
      return [0x80 + |payload|] + payload;
    }
    var length := MinimalBigEndian(|payload|);
    Pow256Values();
    MinimalWidth(|payload|, 8);
    LongFormIs(183, payload);
    return [0xb7 + |length|] + length + payload;
  }

  method EncodeRLPList(items: seq<seq<Byte>>) returns (r: seq<Byte>)
    requires |Concat(items)| < TWO64
    ensures r == EncodeListPayload(Concat(items))
    ensures |Concat(items)| <= 55 ==> r == [192 + |Concat(items)|] + Concat(items)
    ensures |Concat(items)| > 55 ==> LongForm(r, 247, Concat(items))
  {
    var payloadSize := 0;
    for i := 0 to |items|
      invariant payloadSize == |Concat(items[..i])|
    {
      ConcatNext(items, i);
      payloadSize := payloadSize + |items[i]|;
    }
    assert items[..|items|] == items;
    var out: seq<Byte>;
    if payloadSize <= 55 {
      out := [0xc0 + payloadSize];
    } else {
      var length := MinimalBigEndian(payloadSize);
      Pow256Values();
      MinimalWidth(payloadSize, 8);
      out := [0xf7 + |length|] + length;
    }
    ghost var prefix := out;
    for i := 0 to |items|
      invariant out == prefix + Concat(items[..i])
    {
      ConcatNext(items, i);
      out := out + items[i];
    }
    if payloadSize > 55 { LongFormIs(247, Concat(items)); }
    return out;
  }

  // Item trees.

  datatype Item = Str(bytes: seq<Byte>) | List(items: seq<Item>)

  /** Every payload in the tree has a length that fits 64 bits. */
  ghost predicate Encodable(t: Item)
    decreases t, 0
  {
    match t
    case Str(bytes) => |bytes| < TWO64
    case List(items) => AllEncodable(items) && |EncodeAll(items)| < TWO64
  }

  ghost predicate AllEncodable(items: seq<Item>)
    decreases items, 0
  {
    forall i :: 0 <= i < |items| ==> Encodable(items[i])
  }

  function Encode(t: Item): seq<Byte>
    requires Encodable(t)
    decreases t, 1
  {
    match t
    case Str(bytes) => EncodeString(bytes)
    case List(items) => EncodeListPayload(EncodeAll(items))
  }

  function EncodeAll(items: seq<Item>): seq<Byte>
    requires AllEncodable(items)
    decreases items, 1
  {
    if items == [] then []
    else
      assert AllEncodable(items[1..]);
      Encode(items[0]) + EncodeAll(items[1..])
  }

  // The strict decoder of appendix B of the Yellow Paper.

  datatype Wrapped = Wrapped(list: bool, payload: seq<Byte>, rest: seq<Byte>)

  /** The payload after a prefix byte of the class that starts at `short`. */
  function Payload(b: seq<Byte>, short: nat, list: bool): (r: Option<Wrapped>)
    requires b != [] && short <= b[0]
    ensures r.Some? ==> |r.value.payload| + |r.value.rest| < |b|
  {
    var t := b[0] - short;
    if t <= 55 then
      if |b| <= t then None else Some(Wrapped(list, b[1..1 + t], b[1 + t..]))
    else
      var width := t - 55;
      if |b| <= width || b[1] == 0 then None
      else
        var n := FromBigEndian(b[1..1 + width]);
        if n <= 55 || |b| - 1 - width < n then None
        else Some(Wrapped(list, b[1 + width..1 + width + n], b[1 + width + n..]))
  }

  function Unwrap(b: seq<Byte>): (r: Option<Wrapped>)
    ensures r.Some? ==> |r.value.rest| < |b| && (r.value.list ==> |r.value.payload| < |b|)
  {
    if b == [] then None
    else if b[0] < SHORT_STRING then Some(Wrapped(false, b[..1], b[1..]))
    else if b[0] < SHORT_LIST then
      var r := Payload(b, SHORT_STRING, false);
      if r.Some? && |r.value.payload| == 1 && r.value.payload[0] < 0x80 then None else r
    else Payload(b, SHORT_LIST, true)
  }

  function Decode(b: seq<Byte>): (r: Option<(Item, seq<Byte>)>)
    ensures r.Some? ==> |r.value.1| < |b|
    decreases |b|, 0
  {
    match Unwrap(b)
    case None => None
    case Some(w) =>
      if !w.list then Some((Str(w.payload), w.rest))
      else
        match DecodeAll(w.payload)
        case None => None
        case Some(items) => Some((List(items), w.rest))
  }

  function DecodeAll(p: seq<Byte>): Option<seq<Item>>
    decreases |p|, 1
  {
    if p == [] then Some([])
    else
      match Decode(p)
      case None => None
      case Some(r) =>
        match DecodeAll(r.1)
        case None => None
        case Some(items) => Some([r.0] + items)
  }

  lemma {:induction false} PayloadRoundTrip(short: nat, list: bool, payload: seq<Byte>, rest: seq<Byte>)
    requires (short == SHORT_STRING || short == SHORT_LIST) && |payload| < TWO64
    ensures short <= (Prefix(short, |payload|) + payload + rest)[0] < short + 64
    ensures Payload(Prefix(short, |payload|) + payload + rest, short, list) == Some(Wrapped(list, payload, rest))
  {
    var n, prefix := |payload|, Prefix(short, |payload|);
    var b := prefix + payload + rest;
    ThreeParts(prefix, payload, rest);
    if n > 55 {
      assert |Minimal(n)| <= 8 by {
        Pow256Values();
        MinimalWidth(n, 8);
      }
      MinimalReadsBack(n);
      var width := |Minimal(n)|;
      assert b[1..1 + width] == b[..1 + width][1..] == Minimal(n);
      assert b[1] == b[1..1 + width][0];
    }
  }

  lemma {:induction false} ThreeParts(x: seq<Byte>, y: seq<Byte>, z: seq<Byte>)
    ensures var b := x + y + z; b[..|x|] == x && b[|x|..|x| + |y|] == y && b[|x| + |y|..] == z
  {
  }

  /** The prefix is the only one that the decoder accepts for its payload. */
  lemma {:induction false} PayloadCanonical(b: seq<Byte>, short: nat, list: bool)
    requires b != [] && (short == SHORT_STRING || short == SHORT_LIST) && short <= b[0] < short + 64
    requires Payload(b, short, list).Some?
    ensures var w := Payload(b, short, list).value;
      |w.payload| < TWO64 && b == Prefix(short, |w.payload|) + w.payload + w.rest
  {
    var t := b[0] - short;
    if t <= 55 {
      CutTwice(b, 1, 1 + t);
      assert b[..1] == [b[0]];
    } else {
      LongPayloadCanonical(b, short, t - 55, list);
    }
  }

  lemma {:induction false} LongPayloadCanonical(b: seq<Byte>, short: nat, width: nat, list: bool)
    requires 1 <= width <= 8 && b != [] && b[0] == short + 55 + width
    requires short == SHORT_STRING || short == SHORT_LIST
    requires Payload(b, short, list).Some?
    ensures var w := Payload(b, short, list).value;
      |w.payload| < TWO64 && b == Prefix(short, |w.payload|) + w.payload + w.rest
  {
    var n := FromBigEndian(b[1..1 + width]);
    LongPrefixCanonical(b, short, width);
    CutTwice(b, 1 + width, 1 + width + n);
  }

  lemma {:induction false} LongPrefixCanonical(b: seq<Byte>, short: nat, width: nat)
    requires 1 <= width <= 8 && |b| > width && b[0] == short + 55 + width && b[1] != 0
    requires short == SHORT_STRING || short == SHORT_LIST
    requires FromBigEndian(b[1..1 + width]) > 55
    ensures var n := FromBigEndian(b[1..1 + width]); n < TWO64 && Prefix(short, n) == b[..1 + width]
  {
    var length := b[1..1 + width];
    var n := FromBigEndian(length);
    assert length[0] == b[1];
    assert Minimal(n) == length by { NoLeadingZeroIsMinimal(length); }
    assert n < TWO64 by {
      BigEndianInverse(length);
      Pow256Values();
      PowGrows(width, 8);
    }
    assert b[..1 + width] == [b[0]] + length;
  }

  lemma {:induction false} CutTwice(b: seq<Byte>, i: nat, j: nat)
    requires i <= j <= |b|
    ensures b == b[..i] + b[i..j] + b[j..]
  {
  }

  lemma {:induction false} PowGrows(a: nat, b: nat)
    requires a <= b
    ensures Pow256(a) <= Pow256(b)
    decreases b
  {
    if a < b { PowGrows(a, b - 1); }
  }

  function EncodeWrapped(list: bool, payload: seq<Byte>): seq<Byte>
    requires |payload| < TWO64
  {
    if list then EncodeListPayload(payload) else EncodeString(payload)
  }

  lemma {:induction false} UnwrapRoundTrip(list: bool, payload: seq<Byte>, rest: seq<Byte>)
    requires |payload| < TWO64
    ensures Unwrap(EncodeWrapped(list, payload) + rest) == Some(Wrapped(list, payload, rest))
  {
    if !list && |payload| == 1 && payload[0] < 0x80 {
      assert (payload + rest)[..1] == payload && (payload + rest)[1..] == rest;
    } else {
      PayloadRoundTrip(if list then SHORT_LIST else SHORT_STRING, list, payload, rest);
    }
  }

  lemma {:induction false} UnwrapCanonical(b: seq<Byte>)
    requires Unwrap(b).Some?
    ensures var w := Unwrap(b).value; |w.payload| < TWO64 && b == EncodeWrapped(w.list, w.payload) + w.rest
  {
    if b[0] < SHORT_STRING {
      assert b == b[..1] + b[1..];
    } else if b[0] < SHORT_LIST {
      PayloadCanonical(b, SHORT_STRING, false);
    } else {
      PayloadCanonical(b, SHORT_LIST, true);
    }
  }

  /** Decoding an encoding followed by anything gives the item and what follows. */
  lemma {:induction false} RoundTrip(t: Item, rest: seq<Byte>)
    requires Encodable(t)
    ensures Decode(Encode(t) + rest) == Some((t, rest))
    decreases t, 1
  {
    match t
    case Str(bytes) => UnwrapRoundTrip(false, bytes, rest);
    case List(items) =>
      UnwrapRoundTrip(true, EncodeAll(items), rest);
      RoundTripAll(items);
  }

  lemma {:induction false} RoundTripAll(items: seq<Item>)
    requires AllEncodable(items)
    ensures DecodeAll(EncodeAll(items)) == Some(items)
    decreases items, 1
  {
    if items != [] {
      assert AllEncodable(items[1..]);
      RoundTrip(items[0], EncodeAll(items[1..]));
      RoundTripAll(items[1..]);
      assert Decode(EncodeAll(items)).Some?;
      assert [items[0]] + items[1..] == items;
    }
  }

  /** Whatever the decoder accepts is the encoding of what it returns. */
  lemma {:induction false} Canonical(b: seq<Byte>)
    requires Decode(b).Some?
    ensures var (t, rest) := Decode(b).value; Encodable(t) && b == Encode(t) + rest
    decreases |b|, 0
  {
    UnwrapCanonical(b);
    var w := Unwrap(b).value;
    if w.list { CanonicalAll(w.payload); }
  }

  lemma {:induction false} CanonicalAll(p: seq<Byte>)
    requires DecodeAll(p).Some?
    ensures AllEncodable(DecodeAll(p).value) && p == EncodeAll(DecodeAll(p).value)
    decreases |p|, 1
  {
    if p != [] {
      Canonical(p);
      var (t, rest) := Decode(p).value;
      CanonicalAll(rest);
      var items := DecodeAll(rest).value;
      assert ([t] + items)[1..] == items;
    }
  }

  /** Encodings are injective and prefix-free: a stream of items splits in one way only. */
  lemma {:induction false} UniqueDecodability(t: Item, u: Item, x: seq<Byte>, y: seq<Byte>)
    requires Encodable(t) && Encodable(u) && Encode(t) + x == Encode(u) + y
    ensures t == u && x == y
  {
    RoundTrip(t, x);
    RoundTrip(u, y);
  }
}
