/** The RLPx frame writer, a running keystream and MAC over a sequence of frames, and the reader of the protocol. */
module Rlpx {
  import opened Base
  import opened Sockets
  import opened WriteLog

  const MAX_FRAME: nat := 0xffffff
  const MAX_HEADER_DATA: nat := 13

  /**
   * AES-CTR as a byte stream by position, Keccak-256 over all bytes absorbed so far, and the MAC's AES block. The last
   * two may be any functions; Digest and Encrypt see 32 and 16 bytes of them.
   */
  datatype Crypto = Crypto(keystream: nat -> Byte, digest: seq<Byte> -> seq<Byte>, encrypt: seq<Byte> -> seq<Byte>)

  function Fit(s: seq<Byte>, n: nat): (r: seq<Byte>)
    ensures |r| == n
    ensures |s| == n ==> r == s
  {
    (s + Zeros(n))[..n]
  }

  function Digest(c: Crypto, absorbed: seq<Byte>): (r: seq<Byte>)
    ensures |r| == 32
  {
    Fit(c.digest(absorbed), 32)
  }

  function Encrypt(c: Crypto, block: seq<Byte>): (r: seq<Byte>)
    ensures |r| == 16
  {
    Fit(c.encrypt(block), 16)
  }

  /** Both ends keep the keystream position and the bytes absorbed by the MAC. */
  datatype FrameState = FrameState(pos: nat, absorbed: seq<Byte>)

  datatype Frame = Frame(headerData: seq<Byte>, plaintext: seq<Byte>)

  predicate Accepted(f: Frame)
  {
    |f.headerData| <= MAX_HEADER_DATA && |f.plaintext| <= MAX_FRAME
  }

  function Zeros(n: nat): (s: seq<Byte>)
    ensures |s| == n
  {
    seq(n, _ => 0)
  }

  /** XORKeyStream from position `pos` on. */
  function Crypt(c: Crypto, pos: nat, data: seq<Byte>): (r: seq<Byte>)
    ensures |r| == |data|
  {
    seq(|data|, i requires 0 <= i < |data| => Xor(data[i], c.keystream(pos + i)))
  }

  lemma {:induction false} CryptTwice(c: Crypto, pos: nat, data: seq<Byte>)
    ensures Crypt(c, pos, Crypt(c, pos, data)) == data
  {
    forall i | 0 <= i < |data| ensures Crypt(c, pos, Crypt(c, pos, data))[i] == data[i] {
      XorCancels(data[i], c.keystream(pos + i));
    }
  }

  function XorSeq(a: seq<Byte>, b: seq<Byte>): (r: seq<Byte>)
    requires |a| == |b|
    ensures |r| == |a|
  {
    seq(|a|, i requires 0 <= i < |a| => Xor(a[i], b[i]))
  }

  // The framing of the RLPx specification.

  datatype Mac = Mac(absorbed: seq<Byte>, tag: seq<Byte>)

  /** Absorb the block-encrypted digest xored with `seed`; the tag is the head of the new digest. */
  function Seal(c: Crypto, absorbed: seq<Byte>, sum: seq<Byte>, seed: seq<Byte>): (m: Mac)
    requires |sum| >= 16 && |seed| == 16
    ensures |m.tag| == 16
  {
    var after := absorbed + XorSeq(Encrypt(c, sum[..16]), seed);
    Mac(after, Digest(c, after)[..16])
  }

  /** The seed is covered: another one leaves other bytes in the hash. */
  lemma {:induction false} SealCovers(c: Crypto, absorbed: seq<Byte>, sum: seq<Byte>, seed: seq<Byte>, other: seq<Byte>)
    requires |sum| >= 16 && |seed| == |other| == 16 && seed != other
    ensures Seal(c, absorbed, sum, seed).absorbed != Seal(c, absorbed, sum, other).absorbed
  {
    var i :| 0 <= i < 16 && seed[i] != other[i];
    var block := Encrypt(c, sum[..16]);
    assert Seal(c, absorbed, sum, seed).absorbed[|absorbed| + i] == Xor(block[i], seed[i]);
    assert Seal(c, absorbed, sum, other).absorbed[|absorbed| + i] == Xor(block[i], other[i]);
    if Xor(block[i], seed[i]) == Xor(block[i], other[i]) { XorInjective(block[i], seed[i], other[i]); }
  }

  /** Different headers leave different bytes in the hash, so the header MAC covers the header. */
  lemma {:induction false} HeaderCovered(c: Crypto, absorbed: seq<Byte>, header: seq<Byte>, other: seq<Byte>)
    requires |header| == |other| == 16 && header != other
    ensures HeaderMac(c, absorbed, header).absorbed != HeaderMac(c, absorbed, other).absorbed
  {
    SealCovers(c, absorbed, Digest(c, absorbed), header, other);
  }

  function HeaderMac(c: Crypto, absorbed: seq<Byte>, header: seq<Byte>): (m: Mac)
    requires |header| == 16
    ensures |m.tag| == 16
  {
    Seal(c, absorbed, Digest(c, absorbed), header)
  }

  function BodyMac(c: Crypto, absorbed: seq<Byte>, body: seq<Byte>): (m: Mac)
    ensures |m.tag| == 16
  {
    var d := Digest(c, absorbed + body);
    Seal(c, absorbed + body, d, d[..16])
  }

  function PadHeader(headerData: seq<Byte>): (r: seq<Byte>)
    requires |headerData| <= MAX_HEADER_DATA
    ensures |r| == MAX_HEADER_DATA
  {
    headerData + Zeros(MAX_HEADER_DATA - |headerData|)
  }

  function PaddedSize(n: nat): (r: nat)
    ensures n <= r < n + 16 && r % 16 == 0
  {
    if n % 16 == 0 then n else n + 16 - n % 16
  }

  function PadBody(plaintext: seq<Byte>): (r: seq<Byte>)
    ensures |r| == PaddedSize(|plaintext|)
  {
    plaintext + Zeros(PaddedSize(|plaintext|) - |plaintext|)
  }

  function Header(c: Crypto, st: FrameState, f: Frame): (r: seq<Byte>)
    requires Accepted(f)
    ensures |r| == 16
  {
    Crypt(c, st.pos, BigEndian(|f.plaintext|, 3) + PadHeader(f.headerData))
  }

  function Body(c: Crypto, st: FrameState, f: Frame): (r: seq<Byte>)
    ensures |r| == PaddedSize(|f.plaintext|)
  {
    Crypt(c, st.pos + 16, PadBody(f.plaintext))
  }

  /** The bytes of one frame: header, header MAC, body, body MAC. */
  function FrameBytes(c: Crypto, st: FrameState, f: Frame): (r: seq<Byte>)
    requires Accepted(f)
    ensures |r| == 48 + PaddedSize(|f.plaintext|)
  {
    var header := Header(c, st, f);
    var hm := HeaderMac(c, st.absorbed, header);
    var body := Body(c, st, f);
    header + (hm.tag + (body + BodyMac(c, hm.absorbed, body).tag))
  }

  function AfterFrame(c: Crypto, st: FrameState, f: Frame): FrameState
    requires Accepted(f)
  {
    var header := Header(c, st, f);
    var hm := HeaderMac(c, st.absorbed, header);
    var body := Body(c, st, f);
    FrameState(st.pos + 16 + |body|, BodyMac(c, hm.absorbed, body).absorbed)
  }

  // The reader.

  datatype Received = Received(headerData: seq<Byte>, plaintext: seq<Byte>, rest: seq<Byte>, state: FrameState)

  /** Verify and decrypt the frame at the front of the wire; None when it is incomplete or a MAC does not match. */
  function ReadFrame(c: Crypto, st: FrameState, wire: seq<Byte>): Option<Received>
  {
    if |wire| < 32 then None
    else
      var header, tag := wire[..16], wire[16..32];
      var hm := HeaderMac(c, st.absorbed, header);
      if tag != hm.tag then None
      else ReadBody(c, FrameState(st.pos + 16, hm.absorbed), Crypt(c, st.pos, header), wire[32..])
  }

  function ReadBody(c: Crypto, st: FrameState, header: seq<Byte>, wire: seq<Byte>): Option<Received>
    requires |header| == 16
  {
    var size := FromBigEndian(header[..3]);
    var n := PaddedSize(size);
    if |wire| < n + 16 then None
    else
      var body, tag := wire[..n], wire[n..n + 16];
      var bm := BodyMac(c, st.absorbed, body);
      if tag != bm.tag then None
      else
        Some(Received(
          header[3..], Crypt(c, st.pos, body)[..size], wire[n + 16..], FrameState(st.pos + n, bm.absorbed)))
  }

  lemma {:induction false} BodyRoundTrip(
      c: Crypto, st: FrameState, header: seq<Byte>, plaintext: seq<Byte>, rest: seq<Byte>)
    requires |header| == 16 && FromBigEndian(header[..3]) == |plaintext|
    ensures var body := Crypt(c, st.pos, PadBody(plaintext));
      var bm := BodyMac(c, st.absorbed, body);
      ReadBody(c, st, header, (body + bm.tag) + rest)
        == Some(Received(header[3..], plaintext, rest, FrameState(st.pos + |body|, bm.absorbed)))
  {
    var body := Crypt(c, st.pos, PadBody(plaintext));
    var bm := BodyMac(c, st.absorbed, body);
    var wire := (body + bm.tag) + rest;
    var n := |body|;
    assert wire[..n] == body && wire[n..n + 16] == bm.tag && wire[n + 16..] == rest;
    CryptTwice(c, st.pos, PadBody(plaintext));
    assert PadBody(plaintext)[..|plaintext|] == plaintext;
  }

  lemma {:induction false} HeaderDecrypts(c: Crypto, st: FrameState, f: Frame)
    requires Accepted(f)
    ensures var h := Crypt(c, st.pos, Header(c, st, f));
      FromBigEndian(h[..3]) == |f.plaintext| && h[3..] == PadHeader(f.headerData)
  {
    var plain := BigEndian(|f.plaintext|, 3) + PadHeader(f.headerData);
    CryptTwice(c, st.pos, plain);
    assert plain[..3] == BigEndian(|f.plaintext|, 3) && plain[3..] == PadHeader(f.headerData);
    Pow256Values();
    BigEndianRoundTrip(|f.plaintext|, 3);
  }

  lemma {:induction false} ReadPastHeader(c: Crypto, st: FrameState, header: seq<Byte>, wire: seq<Byte>)
    requires |header| == 16
    ensures var hm := HeaderMac(c, st.absorbed, header);
      ReadFrame(c, st, header + (hm.tag + wire))
        == ReadBody(c, FrameState(st.pos + 16, hm.absorbed), Crypt(c, st.pos, header), wire)
  {
    var hm := HeaderMac(c, st.absorbed, header);
    var all := header + (hm.tag + wire);
    assert all[..16] == header && all[16..32] == hm.tag && all[32..] == wire;
  }

  /** A reader in the writer's state verifies the frame, recovers its contents and ends up in the writer's new state. */
  lemma {:induction false} FrameRoundTrip(c: Crypto, st: FrameState, f: Frame, rest: seq<Byte>)
    requires Accepted(f)
    ensures ReadFrame(c, st, FrameBytes(c, st, f) + rest)
      == Some(Received(PadHeader(f.headerData), f.plaintext, rest, AfterFrame(c, st, f)))
  {
    var header := Header(c, st, f);
    var hm := HeaderMac(c, st.absorbed, header);
    var body := Body(c, st, f);
    var bm := BodyMac(c, hm.absorbed, body);
    var st' := FrameState(st.pos + 16, hm.absorbed);
    RegroupFour(header, hm.tag, body + bm.tag, rest);
    ReadPastHeader(c, st, header, (body + bm.tag) + rest);
    HeaderDecrypts(c, st, f);
    BodyRoundTrip(c, st', Crypt(c, st.pos, header), f.plaintext, rest);
  }

  /** A frame that a failed write left incomplete is not delivered. */
  lemma {:induction false} TornFrameUnread(c: Crypto, st: FrameState, f: Frame, k: nat)
    requires Accepted(f) && k < |FrameBytes(c, st, f)|
    ensures ReadFrame(c, st, FrameBytes(c, st, f)[..k]) == None
  {
    if k >= 32 {
      var header := Header(c, st, f);
      var hm := HeaderMac(c, st.absorbed, header);
      var body := Body(c, st, f);
      var tail := body + BodyMac(c, hm.absorbed, body).tag;
      assert FrameBytes(c, st, f)[..k] == header + (hm.tag + tail[..k - 32]);
      ReadPastHeader(c, st, header, tail[..k - 32]);
      HeaderDecrypts(c, st, f);
    }
  }

  // Runs of frames, for any framing whose reader inverts its writer.

  datatype Framing = Framing(
    write: (FrameState, Frame) -> seq<Byte>,
    next: (FrameState, Frame) -> FrameState,
    read: (FrameState, seq<Byte>) -> Option<Received>)

  /** `g` is the RLPx framing with this crypto. */
  ghost predicate Uses(g: Framing, c: Crypto)
  {
    && (forall st: FrameState, f: Frame {:trigger FrameBytes(c, st, f)} ::
          Accepted(f) ==> g.write(st, f) == FrameBytes(c, st, f) && g.next(st, f) == AfterFrame(c, st, f))
    && (forall st: FrameState, wire: seq<Byte> {:trigger ReadFrame(c, st, wire)} ::
          g.read(st, wire) == ReadFrame(c, st, wire))
  }

  function RlpxFraming(c: Crypto): (g: Framing)
    ensures Uses(g, c)
  {
    Framing(
      (st: FrameState, f: Frame) => if Accepted(f) then FrameBytes(c, st, f) else [],
      (st: FrameState, f: Frame) => if Accepted(f) then AfterFrame(c, st, f) else st,
      (st: FrameState, wire: seq<Byte>) => ReadFrame(c, st, wire))
  }

  ghost predicate Faithful(g: Framing)
  {
    forall st: FrameState, f: Frame, rest: seq<Byte> {:trigger g.read(st, g.write(st, f) + rest)} ::
      Accepted(f) ==>
        g.read(st, g.write(st, f) + rest)
          == Some(Received(PadHeader(f.headerData), f.plaintext, rest, g.next(st, f)))
  }

  lemma {:induction false} RlpxIsFaithful(g: Framing, c: Crypto)
    requires Uses(g, c)
    ensures Faithful(g)
  {
    forall st: FrameState, f: Frame, rest: seq<Byte> | Accepted(f)
      ensures g.read(st, g.write(st, f) + rest)
        == Some(Received(PadHeader(f.headerData), f.plaintext, rest, g.next(st, f)))
    {
      var wire := FrameBytes(c, st, f) + rest;
      FrameRoundTrip(c, st, f, rest);
      assert g.read(st, wire) == ReadFrame(c, st, wire);
    }
  }

  function WriteFrames(g: Framing, st: FrameState, frames: seq<Frame>): seq<Byte>
    decreases |frames|
  {
    if frames == [] then [] else g.write(st, frames[0]) + WriteFrames(g, g.next(st, frames[0]), frames[1..])
  }

  function AfterFrames(g: Framing, st: FrameState, frames: seq<Frame>): FrameState
    decreases |frames|
  {
    if frames == [] then st else AfterFrames(g, g.next(st, frames[0]), frames[1..])
  }

  /** `n` frames from the front of the wire. */
  function ReadFrames(g: Framing, st: FrameState, wire: seq<Byte>, n: nat): Option<(seq<Frame>, seq<Byte>, FrameState)>
    decreases n
  {
    if n == 0 then Some(([], wire, st))
    else
      match g.read(st, wire)
      case None => None
      case Some(r) =>
        match ReadFrames(g, r.state, r.rest, n - 1)
        case None => None
        case Some(t) => Some(([Frame(r.headerData, r.plaintext)] + t.0, t.1, t.2))
  }

  /** What arrives: header data zero-padded to thirteen bytes, plaintext as sent. */
  function Arrived(frames: seq<Frame>): seq<Frame>
    requires forall i :: 0 <= i < |frames| ==> Accepted(frames[i])
  {
    if frames == [] then []
    else
      assert Accepted(frames[0]);
      [Frame(PadHeader(frames[0].headerData), frames[0].plaintext)] + Arrived(frames[1..])
  }

  ghost predicate AllAccepted(frames: seq<Frame>)
  {
    forall i :: 0 <= i < |frames| ==> Accepted(frames[i])
  }

  /** What `m` more reads add to the frames that have arrived. */
  function Behind(fs: seq<Frame>, more: Option<(seq<Frame>, seq<Byte>, FrameState)>):
    Option<(seq<Frame>, seq<Byte>, FrameState)>
  {
    match more
    case None => None
    case Some(t) => Some((fs + t.0, t.1, t.2))
  }

  lemma {:induction false} BehindTwice(a: seq<Frame>, b: seq<Frame>, more: Option<(seq<Frame>, seq<Byte>, FrameState)>)
    ensures Behind(a, Behind(b, more)) == Behind(a + b, more)
  {
    if more.Some? { assert a + (b + more.value.0) == (a + b) + more.value.0; }
  }

  lemma {:induction false} RunRoundTrip(g: Framing, st: FrameState, frames: seq<Frame>, rest: seq<Byte>, m: nat)
    requires Faithful(g) && AllAccepted(frames)
    ensures ReadFrames(g, st, WriteFrames(g, st, frames) + rest, |frames| + m)
      == Behind(Arrived(frames), ReadFrames(g, AfterFrames(g, st, frames), rest, m))
    decreases |frames|
  {
    if frames == [] {
      assert WriteFrames(g, st, frames) + rest == rest;
      var more := ReadFrames(g, st, rest, m);
      assert more.Some? ==> [] + more.value.0 == more.value.0;
    } else {
      var st' := g.next(st, frames[0]);
      var after := WriteFrames(g, st', frames[1..]) + rest;
      Regroup(g.write(st, frames[0]), WriteFrames(g, st', frames[1..]), rest);
      assert g.read(st, g.write(st, frames[0]) + after).Some?;
      RunRoundTrip(g, st', frames[1..], rest, m);
      var head := [Frame(PadHeader(frames[0].headerData), frames[0].plaintext)];
      BehindTwice(head, Arrived(frames[1..]), ReadFrames(g, AfterFrames(g, st', frames[1..]), rest, m));
    }
  }

  /** Over any run of accepted frames, every MAC verifies and every plaintext comes back, in order. */
  lemma {:induction false} RlpxRunRoundTrip(g: Framing, c: Crypto, st: FrameState, frames: seq<Frame>, rest: seq<Byte>)
    requires Uses(g, c) && AllAccepted(frames)
    ensures ReadFrames(g, st, WriteFrames(g, st, frames) + rest, |frames|)
      == Some((Arrived(frames), rest, AfterFrames(g, st, frames)))
  {
    RlpxIsFaithful(g, c);
    RunRoundTrip(g, st, frames, rest, 0);
    assert Arrived(frames) + [] == Arrived(frames);
  }

  lemma {:induction false} WriteFramesAppend(g: Framing, st: FrameState, a: seq<Frame>, b: seq<Frame>)
    ensures WriteFrames(g, st, a + b) == WriteFrames(g, st, a) + WriteFrames(g, AfterFrames(g, st, a), b)
    ensures AfterFrames(g, st, a + b) == AfterFrames(g, AfterFrames(g, st, a), b)
    decreases |a|
  {
    if a == [] {
      assert a + b == b;
    } else {
      assert (a + b)[1..] == a[1..] + b;
      var st' := g.next(st, a[0]);
      WriteFramesAppend(g, st', a[1..], b);
      Regroup(g.write(st, a[0]), WriteFrames(g, st', a[1..]), WriteFrames(g, AfterFrames(g, st', a[1..]), b));
    }
  }

  lemma {:induction false} OneFrame(g: Framing, st: FrameState, f: Frame)
    ensures WriteFrames(g, st, [f]) == g.write(st, f) && AfterFrames(g, st, [f]) == g.next(st, f)
  {
    assert [f][1..] == [];
    assert g.write(st, f) + [] == g.write(st, f);
  }

  // Runs of writes.

  type WriterLog = seq<Attempt<Frame>>

  /** Each accepted write was framed in the state that all earlier ones left, sent completely or not. */
  ghost predicate Framed(g: Framing, start: FrameState, log: WriterLog)
  {
    forall i :: 0 <= i < |log| ==>
      && log[i].Fits() && Accepted(log[i].item)
      && log[i].bytes == g.write(AfterFrames(g, start, Items(log[..i])), log[i].item)
  }

  /** Nothing was written after a write that did not go out completely. */
  ghost predicate InStep(log: WriterLog)
  {
    forall i :: 0 <= i < |log| - 1 ==> log[i].Whole()
  }

  lemma {:induction false} ItemsSnoc(log: WriterLog, n: nat)
    requires n < |log|
    ensures Items(log[..n + 1]) == Items(log[..n]) + [log[n].item]
  {
  }

  /** A run of complete writes is the run of its frames. */
  lemma {:induction false} WholeRun(g: Framing, start: FrameState, log: WriterLog, n: nat)
    requires Framed(g, start, log) && n <= |log| && forall i :: 0 <= i < n ==> log[i].Whole()
    ensures Fitting(log[..n]) && Out(log[..n]) == WriteFrames(g, start, Items(log[..n]))
    ensures AllAccepted(Items(log[..n])) && WholeItems(log[..n]) == Items(log[..n])
  {
    if n > 0 {
      var front, last := log[..n - 1], log[n - 1];
      WholeRun(g, start, log, n - 1);
      assert log[..n][..n - 1] == front;
      ItemsSnoc(log, n - 1);
      OneFrame(g, AfterFrames(g, start, Items(front)), last.item);
      WriteFramesAppend(g, start, Items(front), [last.item]);
      assert last.bytes[..last.taken] == last.bytes;
    }
  }

  /** What a run in step leaves on the wire: complete frames, then the bytes of the last one that went out. */
  lemma {:induction false} InStepOut(g: Framing, start: FrameState, log: WriterLog)
    requires Framed(g, start, log) && InStep(log) && log != []
    ensures var n := |log| - 1;
      && Fitting(log) && AllAccepted(Items(log[..n])) && AllAccepted(Items(log))
      && Out(log) == WriteFrames(g, start, Items(log[..n])) + log[n].bytes[..log[n].taken]
      && WholeItems(log) == if log[n].Whole() then Items(log) else Items(log[..n])
  {
    var n := |log| - 1;
    WholeRun(g, start, log, n);
    assert Fitting(log);
    assert log[..n + 1] == log;
    ItemsSnoc(log, n);
  }

  // What is written behind an incomplete frame.

  lemma {:induction false} TopByte(s: seq<Byte>)
    requires |s| == 3
    ensures FromBigEndian(s) / 65536 == s[0]
  {
    assert FromBigEndian(s[..1]) == s[0] by { assert s[..1][..0] == []; }
    assert s[..2][..1] == s[..1] && s[..3] == s;
    var high: int, middle: int, low: int := s[0], s[1], s[2];
    assert FromBigEndian(s[..2]) == 256 * high + middle;
    assert FromBigEndian(s) == 65536 * high + (256 * middle + low);
  }

  /** The first byte of a header, once decrypted, is the top byte of the size. */
  lemma {:induction false} HeaderTop(c: Crypto, st: FrameState, f: Frame)
    requires Accepted(f)
    ensures Xor(FrameBytes(c, st, f)[0], c.keystream(st.pos)) == |f.plaintext| / 65536
  {
    var h := Crypt(c, st.pos, Header(c, st, f));
    HeaderDecrypts(c, st, f);
    TopByte(h[..3]);
    assert FrameBytes(c, st, f)[0] == Header(c, st, f)[0];
  }

  lemma {:induction false} DeliveredTop(c: Crypto, st: FrameState, wire: seq<Byte>)
    requires ReadFrame(c, st, wire).Some?
    ensures |ReadFrame(c, st, wire).value.plaintext| / 65536 == Xor(wire[0], c.keystream(st.pos))
  {
    var header := Crypt(c, st.pos, wire[..16]);
    TopByte(header[..3]);
    assert header[0] == Xor(wire[0], c.keystream(st.pos + 0));
  }

  /** A frame that is read where a torn one begins has a size of the same magnitude as the torn one. */
  lemma {:induction false} TornTop(c: Crypto, st: FrameState, f: Frame, k: nat, rest: seq<Byte>)
    requires Accepted(f) && 0 < k < |FrameBytes(c, st, f)|
    ensures var r := ReadFrame(c, st, FrameBytes(c, st, f)[..k] + rest);
      r.Some? ==> |r.value.plaintext| / 65536 == |f.plaintext| / 65536
  {
    var wire := FrameBytes(c, st, f)[..k] + rest;
    assert wire[0] == FrameBytes(c, st, f)[0];
    HeaderTop(c, st, f);
    if ReadFrame(c, st, wire).Some? { DeliveredTop(c, st, wire); }
  }

  /** The header MACs of a frame differ between the state it was framed in and the state of the reader. */
  ghost predicate TagsDiffer(c: Crypto, reader: FrameState, writer: FrameState, f: Frame)
  {
    && Accepted(f)
    && var header := Header(c, writer, f);
       HeaderMac(c, reader.absorbed, header).tag != HeaderMac(c, writer.absorbed, header).tag
  }

  lemma {:induction false} OutOfStepUnread(c: Crypto, reader: FrameState, writer: FrameState, f: Frame)
    requires TagsDiffer(c, reader, writer, f)
    ensures ReadFrame(c, reader, FrameBytes(c, writer, f)) == None
  {
    var header := Header(c, writer, f);
    var wire := FrameBytes(c, writer, f);
    assert wire[..16] == header;
    assert wire[16..32] == HeaderMac(c, writer.absorbed, header).tag;
  }

  // The properties of the framing that runs rely on.

  /** A frame that is cut short is not delivered. */
  ghost predicate Tight(g: Framing)
  {
    && (forall st: FrameState {:trigger g.read(st, [])} :: g.read(st, []) == None)
    && (forall st: FrameState, f: Frame, k: nat {:trigger g.write(st, f)[..k]} ::
          Accepted(f) && k < |g.write(st, f)| ==> g.read(st, g.write(st, f)[..k]) == None)
  }

  /** And what is read in its place, whatever follows, shows the magnitude of its size. */
  ghost predicate Telling(g: Framing)
  {
    forall st: FrameState, f: Frame, k: nat, rest: seq<Byte> {:trigger g.read(st, g.write(st, f)[..k] + rest)} ::
      Accepted(f) && 0 < k < |g.write(st, f)| ==>
        var r := g.read(st, g.write(st, f)[..k] + rest);
        r.Some? ==> |r.value.plaintext| / 65536 == |f.plaintext| / 65536
  }

  lemma {:induction false} RlpxIsTight(g: Framing, c: Crypto)
    requires Uses(g, c)
    ensures Tight(g)
  {
    forall st: FrameState, f: Frame, k: nat | Accepted(f) && k < |g.write(st, f)|
      ensures g.read(st, g.write(st, f)[..k]) == None
    {
      var wire := FrameBytes(c, st, f)[..k];
      TornFrameUnread(c, st, f, k);
      assert g.read(st, wire) == ReadFrame(c, st, wire);
    }
    forall st: FrameState ensures g.read(st, []) == None {
      assert g.read(st, []) == ReadFrame(c, st, []);
    }
  }

  lemma {:induction false} RlpxIsTelling(g: Framing, c: Crypto)
    requires Uses(g, c)
    ensures Telling(g)
  {
    forall st: FrameState, f: Frame, k: nat, rest: seq<Byte> | Accepted(f) && 0 < k < |g.write(st, f)|
      ensures var r := g.read(st, g.write(st, f)[..k] + rest);
        r.Some? ==> |r.value.plaintext| / 65536 == |f.plaintext| / 65536
    {
      var wire := FrameBytes(c, st, f)[..k] + rest;
      TornTop(c, st, f, k, rest);
      assert g.read(st, wire) == ReadFrame(c, st, wire);
    }
  }

  /** What the reader gets from the first `n` frames of a wire. */
  ghost predicate Gets(g: Framing, start: FrameState, wire: seq<Byte>, frames: seq<Frame>)
    requires AllAccepted(frames)
  {
    var r := ReadFrames(g, start, wire, |frames|);
    r.Some? && r.value.0 == Arrived(frames)
  }

  /** It gets these frames and finds no further one. */
  ghost predicate GetsOnly(g: Framing, start: FrameState, wire: seq<Byte>, frames: seq<Frame>)
    requires AllAccepted(frames)
  {
    && Gets(g, start, wire, frames)
    && var r := ReadFrames(g, start, wire, |frames|).value; g.read(r.2, r.1) == None
  }

  lemma {:induction false} GetsRun(g: Framing, start: FrameState, frames: seq<Frame>, rest: seq<Byte>)
    requires Faithful(g) && AllAccepted(frames)
    ensures Gets(g, start, WriteFrames(g, start, frames) + rest, frames)
    ensures g.read(AfterFrames(g, start, frames), rest) == None ==>
      GetsOnly(g, start, WriteFrames(g, start, frames) + rest, frames)
  {
    RunRoundTrip(g, start, frames, rest, 0);
    assert Arrived(frames) + [] == Arrived(frames);
  }

  /**
   * A run of writes, end to end, as long as none follows an incomplete one: the reader gets exactly the frames that
   * went out completely.
   */
  lemma {:induction false} RunArrives(g: Framing, start: FrameState, log: WriterLog)
    requires Faithful(g) && Tight(g) && Framed(g, start, log) && InStep(log) && log != []
    ensures Fitting(log) && AllAccepted(WholeItems(log))
    ensures GetsOnly(g, start, Out(log), WholeItems(log))
  {
    var n := |log| - 1;
    var last := log[n];
    InStepOut(g, start, log);
    if last.Whole() {
      assert Out(log) == WriteFrames(g, start, Items(log)) + [] by { WholeLog(g, start, log); }
      GetsRun(g, start, Items(log), []);
    } else {
      GetsRun(g, start, Items(log[..n]), last.bytes[..last.taken]);
    }
  }

  lemma {:induction false} WholeLog(g: Framing, start: FrameState, log: WriterLog)
    requires Framed(g, start, log) && InStep(log) && log != [] && log[|log| - 1].Whole()
    ensures Fitting(log) && Out(log) == WriteFrames(g, start, Items(log))
    ensures AllAccepted(Items(log)) && WholeItems(log) == Items(log)
  {
    assert log[..|log|] == log;
    WholeRun(g, start, log, |log|);
  }

  /** The wire when `later` frames are written completely after the run. */
  function Continued(g: Framing, start: FrameState, log: WriterLog, later: seq<Frame>): seq<Byte>
    requires Fitting(log)
  {
    Out(log) + WriteFrames(g, AfterFrames(g, start, Items(log)), later)
  }

  lemma {:induction false} LaterArrive(g: Framing, start: FrameState, log: WriterLog, later: seq<Frame>)
    requires Faithful(g) && Framed(g, start, log) && InStep(log) && log != [] && log[|log| - 1].Whole()
    requires AllAccepted(later)
    ensures Fitting(log) && AllAccepted(WholeItems(log) + later)
    ensures Gets(g, start, Continued(g, start, log, later), WholeItems(log) + later)
  {
    WholeLog(g, start, log);
    var frames := Items(log) + later;
    WriteFramesAppend(g, start, Items(log), later);
    GetsRun(g, start, frames, []);
    assert WriteFrames(g, start, frames) + [] == WriteFrames(g, start, frames);
  }

  /** Where the reader stands when it has read what went out completely before the last write. */
  function ReaderAt(g: Framing, start: FrameState, log: WriterLog): FrameState
    requires log != []
  {
    AfterFrames(g, start, Items(log[..|log| - 1]))
  }

  /** The frame would not be read in place of a last write of which no byte went out. */
  ghost predicate Unread(g: Framing, start: FrameState, log: WriterLog, f: Frame)
    requires log != []
  {
    Accepted(f) && g.read(ReaderAt(g, start, log), g.write(AfterFrames(g, start, Items(log)), f)) == None
  }

  lemma {:induction false} LaterLost(g: Framing, start: FrameState, log: WriterLog, lost: Frame)
    requires Faithful(g) && Telling(g) && Framed(g, start, log) && InStep(log) && log != []
    requires !log[|log| - 1].Whole() && Accepted(lost)
    requires var last := log[|log| - 1];
      if last.taken > 0 then |lost.plaintext| / 65536 != |last.item.plaintext| / 65536 else Unread(g, start, log, lost)
    ensures Fitting(log) && AllAccepted(WholeItems(log) + [lost])
    ensures !Gets(g, start, Continued(g, start, log, [lost]), WholeItems(log) + [lost])
  {
    var n := |log| - 1;
    var last, whole := log[n], Items(log[..n]);
    var torn, bytes := last.bytes[..last.taken], g.write(AfterFrames(g, start, Items(log)), lost);
    InStepOut(g, start, log);
    OneFrame(g, AfterFrames(g, start, Items(log)), lost);
    Regroup(WriteFrames(g, start, whole), torn, bytes);
    if last.taken == 0 { assert torn + bytes == bytes; }
    NotRead(g, start, whole, torn + bytes, lost);
  }

  /** A reader that finds no frame, or one of another size, behind a run does not get the expected frame. */
  lemma {:induction false} NotRead(g: Framing, start: FrameState, whole: seq<Frame>, rest: seq<Byte>, lost: Frame)
    requires Faithful(g) && AllAccepted(whole) && Accepted(lost)
    requires var r := g.read(AfterFrames(g, start, whole), rest); r.Some? ==> |r.value.plaintext| != |lost.plaintext|
    ensures AllAccepted(whole + [lost])
    ensures !Gets(g, start, WriteFrames(g, start, whole) + rest, whole + [lost])
  {
    RunRoundTrip(g, start, whole, rest, 1);
    ArrivedAt(whole + [lost], |whole|);
    if whole != [] { ArrivedAt(whole, 0); }
  }

  lemma {:induction false} ArrivedAt(frames: seq<Frame>, i: nat)
    requires AllAccepted(frames) && i < |frames|
    ensures |Arrived(frames)| == |frames| && Arrived(frames)[i].plaintext == frames[i].plaintext
  {
    if |frames| > 1 { ArrivedAt(frames[1..], if i > 0 then i - 1 else 0); }
  }

  ghost predicate AllLaterArrive(g: Framing, start: FrameState, log: WriterLog)
    requires Fitting(log)
  {
    forall later: seq<Frame> {:induction false} ::
      AllAccepted(WholeItems(log) + later) ==> Gets(g, start, Continued(g, start, log, later), WholeItems(log) + later)
  }

  /**
   * The exact condition for what is written later: after a run in step, every further run of frames arrives if and only
   * if the last write went out completely. If no byte of it went out, this takes a frame that is not read in its place.
   */
  lemma {:induction false} LaterFramesArriveIff(g: Framing, start: FrameState, log: WriterLog)
    requires Faithful(g) && Telling(g) && Framed(g, start, log) && InStep(log) && log != []
    requires log[|log| - 1].taken == 0 ==> exists f :: Unread(g, start, log, f)
    ensures Fitting(log) && (log[|log| - 1].Whole() <==> AllLaterArrive(g, start, log))
  {
    var last := log[|log| - 1];
    InStepOut(g, start, log);
    if last.Whole() {
      forall later: seq<Frame> | AllAccepted(WholeItems(log) + later)
        ensures Gets(g, start, Continued(g, start, log, later), WholeItems(log) + later)
      {
        assert later == (WholeItems(log) + later)[|WholeItems(log)|..];
        LaterArrive(g, start, log, later);
      }
    } else {
      var lost: Frame;
      if last.taken > 0 {
        lost := Frame([], Zeros(if |last.item.plaintext| < 65536 then 65536 else 0));
      } else {
        lost :| Unread(g, start, log, lost);
      }
      LaterLost(g, start, log, lost);
    }
  }

  /** The RLPx framing has all of these properties; of the last, a difference of the header MACs is enough. */
  lemma {:induction false} RlpxRuns(g: Framing, c: Crypto, start: FrameState, log: WriterLog)
    requires Uses(g, c) && Framed(g, start, log) && InStep(log) && log != []
    requires log[|log| - 1].taken == 0 ==>
      exists f :: TagsDiffer(c, ReaderAt(g, start, log), AfterFrames(g, start, Items(log)), f)
    ensures Fitting(log) && AllAccepted(WholeItems(log))
    ensures GetsOnly(g, start, Out(log), WholeItems(log))
    ensures log[|log| - 1].Whole() <==> AllLaterArrive(g, start, log)
  {
    RlpxIsFaithful(g, c);
    RlpxIsTight(g, c);
    RlpxIsTelling(g, c);
    RunArrives(g, start, log);
    if log[|log| - 1].taken == 0 {
      var reader, writer := ReaderAt(g, start, log), AfterFrames(g, start, Items(log));
      var f :| TagsDiffer(c, reader, writer, f);
      OutOfStepUnread(c, reader, writer, f);
      assert g.read(reader, FrameBytes(c, writer, f)) == ReadFrame(c, reader, FrameBytes(c, writer, f));
      assert Unread(g, start, log, f);
    }
    LaterFramesArriveIff(g, start, log);
  }

  // The writer.

  class FrameMAC {
    const crypto: Crypto
    var absorbed: seq<Byte>
    const block: array<Byte>

    constructor (crypto: Crypto, seed: seq<Byte>)
      ensures this.crypto == crypto && absorbed == seed && block.Length == 16 && fresh(block)
    {
      this.crypto, absorbed := crypto, seed;
      block := new Byte[16](_ => 0);
    }

    method HeaderTag(header: seq<Byte>) returns (tag: seq<Byte>)
      requires |header| == 16 && block.Length == 16
      modifies this, block
      ensures Mac(absorbed, tag) == HeaderMac(crypto, old(absorbed), header)
      ensures |absorbed| == |old(absorbed)| + 16 && old(absorbed) <= absorbed
      ensures var block := Encrypt(crypto, Digest(crypto, old(absorbed))[..16]);
        forall i :: 0 <= i < 16 ==> absorbed[|old(absorbed)| + i] == Xor(block[i], header[i])
      ensures tag == Digest(crypto, absorbed)[..16]
    {
      var sum := Digest(crypto, absorbed);
      tag := Compute(sum, header);
    }

    method FrameTag(frame: seq<Byte>) returns (tag: seq<Byte>)
      requires block.Length == 16
      modifies this, block
      ensures Mac(absorbed, tag) == BodyMac(crypto, old(absorbed), frame)
      ensures |absorbed| == |old(absorbed)| + |frame| + 16 && old(absorbed) + frame <= absorbed
      ensures var digest := Digest(crypto, old(absorbed) + frame); var block := Encrypt(crypto, digest[..16]);
        forall i :: 0 <= i < 16 ==> absorbed[|old(absorbed)| + |frame| + i] == Xor(block[i], digest[i])
      ensures tag == Digest(crypto, absorbed)[..16]
    {
      absorbed := absorbed + frame;
      var seed := Digest(crypto, absorbed);
      tag := Compute(seed, seed[..16]);
    }

    /** The block buffer is filled by the cipher, xored in place and absorbed. */
    method Compute(sum: seq<Byte>, seed: seq<Byte>) returns (tag: seq<Byte>)
      requires |sum| >= 16 && |seed| == 16 && block.Length == 16
      modifies this, block
      ensures Mac(absorbed, tag) == Seal(crypto, old(absorbed), sum, seed)
    {
      var encrypted := Encrypt(crypto, sum[..16]);
      forall i | 0 <= i < 16 { block[i] := encrypted[i]; }
      for i := 0 to 16
        invariant absorbed == old(absorbed)
        invariant forall k :: 0 <= k < i ==> block[k] == Xor(encrypted[k], seed[k])
        invariant forall k :: i <= k < 16 ==> block[k] == encrypted[k]
      {
        block[i] := Xor(block[i], seed[i]);
      }
      assert block[..] == XorSeq(encrypted, seed);
      absorbed := absorbed + block[..];
      tag := Digest(crypto, absorbed)[..16];
    }
  }

  datatype WriteOutcome = HeaderTooLarge | FrameTooLarge | Sent | SocketFailed(why: WriteResult)

  class FrameWriter {
    var pos: nat
    const mac: FrameMAC

    constructor (crypto: Crypto, seed: seq<Byte>)
      ensures mac.crypto == crypto && State() == FrameState(0, seed) && mac.block.Length == 16
      ensures fresh(mac) && fresh(mac.block)
    {
      pos := 0;
      mac := new FrameMAC(crypto, seed);
    }

    ghost function State(): FrameState
      reads this, mac
    {
      FrameState(pos, mac.absorbed)
    }

    method Write(dst: Socket, headerData: seq<Byte>, plaintext: seq<Byte>) returns (r: WriteOutcome)
      requires dst.Honest() && mac.block.Length == 16
      modifies this, mac, mac.block, dst
      ensures r == HeaderTooLarge <==> |headerData| > 13
      ensures r == FrameTooLarge <==> |headerData| <= 13 && |plaintext| > 16777215
      ensures !Accepted(Frame(headerData, plaintext)) ==> State() == old(State()) && dst.sent == old(dst.sent)
      ensures Accepted(Frame(headerData, plaintext)) ==>
        State() == AfterFrame(mac.crypto, old(State()), Frame(headerData, plaintext))
      ensures r == Sent ==>
        dst.sent == old(dst.sent) + FrameBytes(mac.crypto, old(State()), Frame(headerData, plaintext))
      ensures Accepted(Frame(headerData, plaintext)) ==>
        PartlySent(old(dst.sent), dst.sent, FrameBytes(mac.crypto, old(State()), Frame(headerData, plaintext)))
      ensures Accepted(Frame(headerData, plaintext)) && !dst.closed ==>
        (r == Sent <==> AllGood(dst.answers, old(dst.turn), dst.turn))
    {
      if |headerData| > MAX_HEADER_DATA { return HeaderTooLarge; }
      if |plaintext| > MAX_FRAME { return FrameTooLarge; }
      ghost var st, f := State(), Frame(headerData, plaintext);
      var header := BigEndian(|plaintext|, 3) + PadHeader(headerData);
      header := XorKeyStream(header);
      var frame := plaintext;
      if |frame| % 16 > 0 {
        frame := frame + Zeros(16 - |frame| % 16);
      }
      assert frame == PadBody(plaintext);
      frame := XorKeyStream(frame);
      assert header == Header(mac.crypto, st, f) && frame == Body(mac.crypto, st, f);
      var headerTag := mac.HeaderTag(header);
      var frameTag := mac.FrameTag(frame);
      var out := header + (headerTag + (frame + frameTag));
      assert out == FrameBytes(mac.crypto, st, f);
      var w := WriteAll(dst, out);
      r := if w == Written then Sent else SocketFailed(w);
    }

    method XorKeyStream(data: seq<Byte>) returns (r: seq<Byte>)
      modifies this`pos
      ensures pos == old(pos) + |data| && r == Crypt(mac.crypto, old(pos), data)
    {
      r := Crypt(mac.crypto, pos, data);
      pos := pos + |data|;
    }
  }

  /** How one call extends the log: not at all when it is refused. */
  ghost predicate Logs(before: WriterLog, after: WriterLog, f: Frame, r: WriteOutcome)
  {
    if !Accepted(f) then after == before
    else
      && |after| == |before| + 1 && after[..|before|] == before
      && after[|before|].item == f && (r == Sent ==> after[|before|].Whole())
  }

  /** A connection after its handshake: the socket, with what it had sent by then, and the frame writer. */
  class Conn {
    const net: Socket
    const writer: FrameWriter
    ghost const framing: Framing
    ghost const base: seq<Byte>
    ghost const start: FrameState
    ghost var log: WriterLog

    ghost predicate Valid()
      reads this, net, writer, writer.mac
    {
      && net.Honest() && writer.mac.block.Length == 16 && Uses(framing, writer.mac.crypto)
      && Framed(framing, start, log) && Fitting(log)
      && net.sent == base + Out(log)
      && writer.State() == AfterFrames(framing, start, Items(log))
    }

    constructor (net: Socket, writer: FrameWriter)
      requires net.Honest() && writer.mac.block.Length == 16
      ensures Valid() && log == [] && this.net == net && this.writer == writer
      ensures base == net.sent && start == writer.State()
    {
      this.net, this.writer, framing := net, writer, RlpxFraming(writer.mac.crypto);
      base, start, log := net.sent, writer.State(), [];
    }

    method WriteRawFrame(headerData: seq<Byte>, plaintext: seq<Byte>) returns (r: WriteOutcome)
      requires Valid()
      modifies this`log, net, writer, writer.mac, writer.mac.block
      ensures Valid()
      ensures r == HeaderTooLarge <==> |headerData| > 13
      ensures r == FrameTooLarge <==> |headerData| <= 13 && |plaintext| > 16777215
      ensures Logs(old(log), log, Frame(headerData, plaintext), r)
      ensures Accepted(Frame(headerData, plaintext)) && !net.closed ==>
        (r == Sent <==> AllGood(net.answers, old(net.turn), net.turn))
    {
      ghost var f := Frame(headerData, plaintext);
      ghost var before, st := net.sent, writer.State();
      r := writer.Write(net, headerData, plaintext);
      if r.HeaderTooLarge? || r.FrameTooLarge? { return; }
      Record(f, FrameBytes(writer.mac.crypto, st, f), st, before, r);
    }

    /** The log after an accepted write. */
    ghost method Record(f: Frame, bytes: seq<Byte>, st: FrameState, before: seq<Byte>, r: WriteOutcome)
      requires Framed(framing, start, log) && Fitting(log) && st == AfterFrames(framing, start, Items(log))
      requires Accepted(f) && bytes == framing.write(st, f) && bytes != []
      requires before == base + Out(log) && PartlySent(before, net.sent, bytes)
      requires r == Sent ==> net.sent == before + bytes
      modifies this`log
      ensures Framed(framing, start, log) && Fitting(log) && net.sent == base + Out(log)
      ensures AfterFrames(framing, start, Items(log)) == framing.next(st, f)
      ensures Logs(old(log), log, f, r)
    {
      Taken(before, net.sent, bytes);
      var a := Attempt(f, bytes, |net.sent| - |before|);
      LogFrame(framing, start, log, a);
      Regroup(base, Out(log), bytes[..a.taken]);
      log := log + [a];
    }
  }

  lemma {:induction false} LogFrame(g: Framing, start: FrameState, log: WriterLog, a: Attempt<Frame>)
    requires Framed(g, start, log) && Fitting(log) && Accepted(a.item) && a.Fits()
    requires a.bytes == g.write(AfterFrames(g, start, Items(log)), a.item)
    ensures Framed(g, start, log + [a]) && Fitting(log + [a])
    ensures Out(log + [a]) == Out(log) + a.bytes[..a.taken]
    ensures AfterFrames(g, start, Items(log + [a])) == g.next(AfterFrames(g, start, Items(log)), a.item)
  {
    Snoc(log, a);
    FramedSnoc(g, start, log, a);
    ItemsAppend(log, a);
    WriteFramesAppend(g, start, Items(log), [a.item]);
    OneFrame(g, AfterFrames(g, start, Items(log)), a.item);
  }

  lemma {:induction false} ItemsAppend(log: WriterLog, a: Attempt<Frame>)
    ensures Items(log + [a]) == Items(log) + [a.item]
  {
  }

  lemma {:induction false} FramedSnoc(g: Framing, start: FrameState, log: WriterLog, a: Attempt<Frame>)
    requires Framed(g, start, log) && Accepted(a.item) && a.Fits()
    requires a.bytes == g.write(AfterFrames(g, start, Items(log)), a.item)
    ensures Framed(g, start, log + [a])
  {
    var all := log + [a];
    forall i | 0 <= i < |all|
      ensures all[i].Fits() && Accepted(all[i].item)
      ensures all[i].bytes == g.write(AfterFrames(g, start, Items(all[..i])), all[i].item)
    {
      assert all[..i] == log[..i];
      if i == |log| { assert log[..i] == log; }
    }
  }

  /**
   * A connection after any calls: unless something was written after an incomplete write, the peer gets exactly the
   * frames that went out completely.
   */
  lemma {:induction false} PeerGetsWrites(conn: Conn)
    requires conn.Valid() && InStep(conn.log) && conn.log != []
    ensures AllAccepted(WholeItems(conn.log))
    ensures conn.base <= conn.net.sent
    ensures GetsOnly(conn.framing, conn.start, conn.net.sent[|conn.base|..], WholeItems(conn.log))
  {
    RlpxIsFaithful(conn.framing, conn.writer.mac.crypto);
    RlpxIsTight(conn.framing, conn.writer.mac.crypto);
    RunArrives(conn.framing, conn.start, conn.log);
    assert conn.net.sent[|conn.base|..] == Out(conn.log);
  }
}
