/** One RLPx frame byte by byte: where the keystream, the digests and the padding go. */
module RlpxBytes {
  import opened Base
  import opened Rlpx

  /** The sixteen bytes that a MAC step adds to the hash: the encrypted head of the digest, masked with the seed. */
  function Mixed(c: Crypto, digest: seq<Byte>, seed: seq<Byte>): (r: seq<Byte>)
    requires |digest| == 32 && |seed| == 16
    ensures |r| == 16
  {
    seq(16, i requires 0 <= i < 16 => Xor(Encrypt(c, digest[..16])[i], seed[i]))
  }

  /**
   * The header: a 24-bit size, most significant byte first, the header data and zeros, encrypted with the keystream
   * from the current position on.
   */
  lemma {:induction false} HeaderOnWire(c: Crypto, st: FrameState, f: Frame)
    requires Accepted(f)
    ensures var b, n := FrameBytes(c, st, f), |f.plaintext|;
      && b[0] == Xor(n / 65536, c.keystream(st.pos)) && b[1] == Xor(n / 256 % 256, c.keystream(st.pos + 1))
      && b[2] == Xor(n % 256, c.keystream(st.pos + 2))
      && (forall i :: 3 <= i < 3 + |f.headerData| ==> b[i] == Xor(f.headerData[i - 3], c.keystream(st.pos + i)))
      && (forall i :: 3 + |f.headerData| <= i < 16 ==> b[i] == Xor(0, c.keystream(st.pos + i)))
  {
    var n := |f.plaintext|;
    var plain := BigEndian(n, 3) + PadHeader(f.headerData);
    ThreeBytes(n);
    var header := Header(c, st, f);
    assert header == Crypt(c, st.pos, plain);
    assert forall i :: 0 <= i < 16 ==> FrameBytes(c, st, f)[i] == header[i];
    assert forall i :: 0 <= i < 16 ==> header[i] == Xor(plain[i], c.keystream(st.pos + i));
  }

  lemma {:induction false} ThreeBytes(n: nat)
    requires n < 16777216
    ensures BigEndian(n, 3) == [n / 65536, n / 256 % 256, n % 256]
  {
    assert BigEndian(n, 3) == BigEndian(n / 256, 2) + [n % 256];
    assert BigEndian(n / 256, 2) == BigEndian(n / 256 / 256, 1) + [n / 256 % 256];
    assert BigEndian(n / 256 / 256, 1) == BigEndian(n / 256 / 256 / 256, 0) + [n / 256 / 256 % 256];
    HalveTwice256(n);
  }

  lemma {:induction false} HalveTwice256(n: nat)
    ensures n / 256 / 256 == n / 65536
  {
  }

  /** The body: the plaintext and zeros, encrypted with the keystream from sixteen bytes further on. */
  lemma {:induction false} BodyOnWire(c: Crypto, st: FrameState, f: Frame)
    requires Accepted(f)
    ensures var b, n := FrameBytes(c, st, f), PaddedSize(|f.plaintext|);
      && |b| == 48 + n && n % 16 == 0 && |f.plaintext| <= n < |f.plaintext| + 16
      && forall i :: 32 <= i < 32 + n ==>
           b[i] == Xor(if i - 32 < |f.plaintext| then f.plaintext[i - 32] else 0, c.keystream(st.pos + 16 + (i - 32)))
    ensures AfterFrame(c, st, f).pos == st.pos + 16 + PaddedSize(|f.plaintext|)
  {
    var body := Body(c, st, f);
    assert FrameBytes(c, st, f)[32..32 + |body|] == body;
    forall i | 32 <= i < 32 + |body| ensures FrameBytes(c, st, f)[i] == body[i - 32] {
      assert FrameBytes(c, st, f)[32..32 + |body|][i - 32] == body[i - 32];
    }
  }

  /** The two MACs, and the hash that the frame leaves. */
  lemma {:induction false} MacsOnWire(c: Crypto, st: FrameState, f: Frame)
    requires Accepted(f)
    ensures var b, n := FrameBytes(c, st, f), PaddedSize(|f.plaintext|);
      var mid := st.absorbed + Mixed(c, Digest(c, st.absorbed), b[..16]);
      var digest := Digest(c, mid + b[32..32 + n]);
      var end := mid + b[32..32 + n] + Mixed(c, digest, digest[..16]);
      && b[16..32] == Digest(c, mid)[..16] && b[32 + n..] == Digest(c, end)[..16]
      && AfterFrame(c, st, f).absorbed == end
  {
    var header, body := Header(c, st, f), Body(c, st, f);
    var hm := HeaderMac(c, st.absorbed, header);
    var bm := BodyMac(c, hm.absorbed, body);
    var b := FrameBytes(c, st, f);
    assert b == header + (hm.tag + (body + bm.tag));
    assert b[..16] == header && b[16..32] == hm.tag && b[32..32 + |body|] == body && b[32 + |body|..] == bm.tag;
    MixedIs(c, Digest(c, st.absorbed), header);
    var digest := Digest(c, hm.absorbed + body);
    MixedIs(c, digest, digest[..16]);
  }

  lemma {:induction false} MixedIs(c: Crypto, digest: seq<Byte>, seed: seq<Byte>)
    requires |digest| == 32 && |seed| == 16
    ensures Mixed(c, digest, seed) == XorSeq(Encrypt(c, digest[..16]), seed)
  {
  }
}
