/** How reading a response can end, for every input: at an EOF, at a stream that breaks without one, or at a bound. */
module RespFaults {
  import opened Base
  import opened RespStream
  import opened RespReader
  import Varint

  /** Frames up to the very end, none of them with data. */
  ghost predicate OnlyEmptyFrames(c: Codec, avail: seq<Byte>)
    decreases |avail|
  {
    avail == [] ||
    (&& c.unpack(avail).Block? && c.unpack(avail).data == [] && 0 < c.unpack(avail).used <= |avail|
     && OnlyEmptyFrames(c, avail[c.unpack(avail).used..]))
  }

  /** Input that ends before any data: nothing, or the stream identifier and frames without data. */
  ghost predicate Dataless(c: Codec, avail: seq<Byte>)
  {
    avail == [] ||
    (&& |avail| >= 10 && avail[..10] == [0xff, 6, 0, 0, 0x73, 0x4e, 0x61, 0x50, 0x70, 0x59]
     && OnlyEmptyFrames(c, avail[10..]))
  }

  lemma {:induction false} BlocksEofIff(c: Codec, avail: seq<Byte>, eof: bool, need: nat, started: bool)
    requires need > 0
    ensures Blocks(c, avail, eof, need, started) == InflateEof <==> eof && !started && OnlyEmptyFrames(c, avail)
    decreases |avail|
  {
    if avail != [] {
      match c.unpack(avail)
      case Corrupt =>
      case Block(d, used) =>
        if 0 < used <= |avail| && |d| < need {
          BlocksEofIff(c, avail[used..], eof, need - |d|, started || d != []);
        }
    }
  }

  lemma {:induction false} InflateEofIff(c: Codec, avail: seq<Byte>, eof: bool, need: nat)
    requires need > 0
    ensures Inflate(c, avail, eof, need) == InflateEof <==> eof && Dataless(c, avail)
  {
    assert STREAM_ID <= avail <==> |avail| >= 10 && avail[..10] == STREAM_ID;
    if STREAM_ID <= avail { BlocksEofIff(c, avail[10..], eof, need, false); }
  }

  /** The body runs into the end of its input before any data: the end of the stream, or the limit of its size. */
  ghost predicate BodyEndsEmpty(c: Codec, bytes: seq<Byte>, eof: bool, length: nat)
  {
    if |bytes| >= 32 + length + length / 6 then Dataless(c, bytes[..32 + length + length / 6])
    else eof && Dataless(c, bytes)
  }

  /** The bytes begin with the length of a body that is neither empty nor beyond what is left of the bounds. */
  predicate Announces(r: Reader, bytes: seq<Byte>)
  {
    var v := Varint.Decode(bytes, 0);
    v.Value? && 0 < v.v <= r.maxPayload && v.v <= r.maxTotal - r.total
  }

  /** What follows the context ends in the length, or in front of the data. */
  ghost predicate BodyIsSilent(c: Codec, r: Reader, bytes: seq<Byte>)
  {
    || (r.eof && |bytes| < 10 && forall i :: 0 <= i < |bytes| ==> bytes[i] >= 128)
    || (&& Announces(r, bytes)
        && var v := Varint.Decode(bytes, 0); BodyEndsEmpty(c, bytes[v.n..], r.eof, v.v))
  }

  /** The input ends where a wrapped io.EOF is the error. */
  ghost predicate EndsSilently(c: Codec, r: Reader)
  {
    && r.chunks != r.maxChunks && r.pending != []
    && if r.pending[0] == 0 && r.hasContext
       then (r.eof && |r.pending| == 1) || (|r.pending| >= 5 && BodyIsSilent(c, r, r.pending[5..]))
       else BodyIsSilent(c, r, r.pending[1..])
  }

  lemma {:induction false} BodySilentIff(c: Codec, r: Reader, head: Chunk, bytes: seq<Byte>)
    ensures NextBody(c, r, head, bytes) == Ended(WrappedEof) <==> BodyIsSilent(c, r, bytes)
    ensures NextBody(c, r, head, bytes) != Ended(BareEof)
  {
    Varint.ShortIff(bytes, 0);
    if Announces(r, bytes) {
      var v := Varint.Decode(bytes, 0);
      PayloadSilentIff(
        c, head, r.(pending := bytes[v.n..], total := r.total + v.v, chunks := r.chunks + 1), v.v);
    }
  }

  lemma {:induction false} PayloadSilentIff(c: Codec, head: Chunk, r: Reader, length: nat)
    requires length > 0
    ensures NextPayload(c, head, r, length) == Ended(WrappedEof) <==> BodyEndsEmpty(c, r.pending, r.eof, length)
    ensures NextPayload(c, head, r, length) != Ended(BareEof)
  {
    var limit := 32 + length + length / 6;
    if |r.pending| >= limit {
      InflateEofIff(c, r.pending[..limit], true, length);
    } else {
      InflateEofIff(c, r.pending, r.eof, length);
    }
  }

  /** For every input at all: exactly these ends are taken for the end of the response by a test for io.EOF. */
  lemma {:induction false} SilentIff(c: Codec, r: Reader)
    ensures Next(c, r) == Ended(WrappedEof) <==> EndsSilently(c, r)
    ensures Next(c, r) == Ended(BareEof) <==> r.pending == [] && r.eof
  {
    BareEofIff(c, r);
    if r.chunks != r.maxChunks && r.pending != [] {
      var code, rest := r.pending[0], r.pending[1..];
      if code == CODE_SUCCESS && r.hasContext {
        if |rest| >= CONTEXT_LEN {
          assert rest[CONTEXT_LEN..] == r.pending[5..];
          BodySilentIff(c, r, Chunk(code, rest[..CONTEXT_LEN], []), rest[CONTEXT_LEN..]);
        }
      } else {
        BodySilentIff(c, r, Chunk(code, [], []), rest);
      }
    }
  }

  /** What a chunk that is read was made from. */
  lemma {:induction false} GotMeans(c: Codec, r: Reader)
    requires r.Valid() && Next(c, r).Got?
    ensures var chunk, start := Next(c, r).chunk, if r.pending != [] && r.pending[0] == 0 && r.hasContext then 5 else 1;
      && |r.pending| >= start && chunk.code == r.pending[0] && chunk.context == r.pending[1..start]
      && Varint.Decode(r.pending[start..], 0).Value? && Varint.Decode(r.pending[start..], 0).v == |chunk.payload|
  {
    var code, rest := r.pending[0], r.pending[1..];
    var k := if code == CODE_SUCCESS && r.hasContext then CONTEXT_LEN else 0;
    assert rest[..k] == r.pending[1..k + 1] && rest[k..] == r.pending[k + 1..] && rest[0..] == rest;
    BodyMeans(c, r, Chunk(code, rest[..k], []), rest[k..]);
  }

  lemma {:induction false} BodyMeans(c: Codec, r: Reader, head: Chunk, bytes: seq<Byte>)
    requires NextBody(c, r, head, bytes).Got? && head.payload == []
    ensures var chunk := NextBody(c, r, head, bytes).chunk;
      && chunk.code == head.code && chunk.context == head.context
      && Varint.Decode(bytes, 0).Value? && Varint.Decode(bytes, 0).v == |chunk.payload|
  {
    var v := Varint.Decode(bytes, 0);
    if v.v > 0 { InflatedLength(c, bytes[v.n..], r.eof, 32 + v.v + v.v / 6, v.v); }
  }

  // Streams that break without an EOF.

  ghost predicate FillsLimit(c: Codec, r: Reader, bytes: seq<Byte>)
  {
    && Announces(r, bytes)
    && var v := Varint.Decode(bytes, 0);
       var limit := 32 + v.v + v.v / 6;
       |bytes[v.n..]| >= limit && Dataless(c, bytes[v.n..][..limit])
  }

  /**
   * The limit of the body is filled without any data. This alone makes a reader report an EOF that is not there, since
   * the limit reader ends with one.
   */
  ghost predicate LimitFilled(c: Codec, r: Reader)
  {
    var start := if r.pending != [] && r.pending[0] == 0 && r.hasContext then 5 else 1;
    && r.chunks != r.maxChunks && |r.pending| >= start
    && FillsLimit(c, r, r.pending[start..])
  }

  /** On a broken stream the next chunk is read or the failure is no EOF, except when a limit is filled without data. */
  lemma {:induction false} BrokenIff(c: Codec, r: Reader)
    requires !r.eof
    ensures Next(c, r) != Ended(BareEof)
    ensures Next(c, r) == Ended(WrappedEof) <==> LimitFilled(c, r)
    ensures Next(c, r).Got? || Next(c, r) == Ended(Other) || LimitFilled(c, r)
  {
    SilentIff(c, r);
  }

  /** The reader with which the last, failing call is made. */
  ghost function LastReader(next: NextFn, r: Reader): Reader
    requires Progressive(next) && r.Valid()
    decreases |r.pending|
  {
    if next(r).Got? then LastReader(next, next(r).reader) else r
  }

  lemma {:induction false} LastReaderFails(next: NextFn, r: Reader)
    requires Progressive(next) && r.Valid()
    ensures LastReader(next, r).eof == r.eof && next(LastReader(next, r)) == Ended(ReadAll(next, r).fault)
    decreases |r.pending|
  {
    if next(r).Got? { LastReaderFails(next, next(r).reader); }
  }

  /**
   * A request on a stream that breaks: the one chunk asked for, or the chunks up to an error chunk, if they came before
   * the break; otherwise it fails, on every input that does not fill a limit without data.
   */
  lemma {:induction false} BrokenResponse(c: Codec, r: Reader, all: bool)
    requires r.Valid() && !r.eof
    ensures Progressive(Decoder(c))
    ensures var e := ReadAll(Decoder(c), r);
      !LimitFilled(c, LastReader(Decoder(c), r)) ==>
        Collect(Decoder(c), r, all) ==
          if e.chunks != [] && !all then Chunks([e.chunks[0]])
          else if HasError(e.chunks) then Chunks(UpToError(e.chunks))
          else Failed
    ensures var e := ReadAll(Decoder(c), r);
      LimitFilled(c, LastReader(Decoder(c), r)) && all && !HasError(e.chunks) ==>
        Collect(Decoder(c), r, all) == if e.chunks == [] then EmptyResponse else Chunks(e.chunks)
  {
    DecoderWorks(c);
    LastReaderFails(Decoder(c), r);
    BrokenIff(c, LastReader(Decoder(c), r));
    assert Decoder(c)(LastReader(Decoder(c), r)) == Next(c, LastReader(Decoder(c), r));
    if all { CollectMeans(Decoder(c), r); } else { CollectOne(Decoder(c), r); }
  }

  // Honest streams that break.

  lemma {:induction false} BlocksIgnoreEof(c: Codec, avail: seq<Byte>, need: nat, started: bool)
    ensures Blocks(c, avail, false, need, started).Inflated? ==>
      Blocks(c, avail, true, need, started) == Blocks(c, avail, false, need, started)
    decreases |avail|
  {
    if need > 0 && avail != [] {
      match c.unpack(avail)
      case Corrupt =>
      case Block(d, used) =>
        if 0 < used <= |avail| && |d| < need {
          BlocksIgnoreEof(c, avail[used..], need - |d|, started || d != []);
        }
    }
  }

  lemma {:induction false} BodyIgnoresEof(c: Codec, r: Reader, head: Chunk, bytes: seq<Byte>)
    requires !r.eof && NextBody(c, r, head, bytes).Got?
    ensures NextBody(c, r.(eof := true), head, bytes).Got?
  {
    var v := Varint.Decode(bytes, 0);
    if v.v > 0 {
      var rest := bytes[v.n..];
      if STREAM_ID <= rest { BlocksIgnoreEof(c, rest[|STREAM_ID|..], v.v, false); }
    }
  }

  /** What is read from a stream that breaks is also read when it ends instead. */
  lemma {:induction false} NextIgnoresEof(c: Codec, r: Reader)
    requires !r.eof && Next(c, r).Got?
    ensures Next(c, r.(eof := true)).Got?
  {
    var code, rest := r.pending[0], r.pending[1..];
    if code == CODE_SUCCESS && r.hasContext {
      BodyIgnoresEof(c, r, Chunk(code, rest[..CONTEXT_LEN], []), rest[CONTEXT_LEN..]);
    } else {
      BodyIgnoresEof(c, r, Chunk(code, [], []), rest);
    }
  }

  /** The counterpart of a cut before an EOF: a chunk that breaks off anywhere is never taken for a clean end. */
  lemma {:induction false} BrokenChunk(c: Codec, r: Reader, chunk: Chunk, k: nat)
    requires Sound(c) && r.Valid() && !r.eof && Fits(r, chunk)
    requires k < |EncodeChunk(c, chunk)| && r.pending == EncodeChunk(c, chunk)[..k]
    ensures Next(c, r) == Ended(Other)
  {
    if k == 0 {
      assert r.pending == [];
    } else {
      CutClassification(c, r.(eof := true), chunk, k);
      if Next(c, r).Got? { NextIgnoresEof(c, r); }
      BrokenIff(c, r);
      if LimitFilled(c, r) {
        HonestNeverFills(c, r, chunk, k);
        assert false;
      }
    }
  }

  lemma {:induction false} HonestNeverFills(c: Codec, r: Reader, chunk: Chunk, k: nat)
    requires Sound(c) && r.Valid() && Fits(r, chunk)
    requires 0 < k < |EncodeChunk(c, chunk)| && r.pending == EncodeChunk(c, chunk)[..k]
    ensures !LimitFilled(c, r)
  {
    var start := 1 + |chunk.context|;
    CutParts(chunk.code, chunk.context, EncodeBody(c, chunk.payload), k);
    if k >= start { BodyNeverFills(c, r, chunk.payload, k - start); }
  }

  lemma {:induction false} CutParts(code: Byte, context: seq<Byte>, body: seq<Byte>, k: nat)
    requires 0 < k <= 1 + |context| + |body|
    ensures var cut := ([code] + (context + body))[..k];
      cut[0] == code && (k >= 1 + |context| ==> cut[1 + |context|..] == body[..k - 1 - |context|])
  {
  }

  lemma {:induction false} BodyNeverFills(c: Codec, r: Reader, p: seq<Byte>, k: nat)
    requires Sound(c) && r.Valid() && |p| <= r.maxPayload && k < |EncodeBody(c, p)|
    ensures !FillsLimit(c, r, EncodeBody(c, p)[..k])
  {
    var v := Varint.Encode(|p|);
    if k < |v| {
      assert EncodeBody(c, p)[..k] == v[..k];
      Varint.CutIsShort64(|p|, k);
    } else {
      var cut := Compress(c, p)[..k - |v|];
      assert EncodeBody(c, p)[..k] == v + cut;
      Varint.RoundTrip64(|p|, cut);
      assert (v + cut)[|v|..] == cut;
      if p != [] { LimitIsGenerous(c, p); }
    }
  }

  /**
   * An honest response on a stream that breaks, between two chunks or inside one: what came before the break is
   * returned only if it is all that was asked for or ends in an error chunk; otherwise the request fails.
   */
  lemma {:induction false} BrokenHonestResponse(
      c: Codec, r: Reader, before: seq<Chunk>, chunk: Chunk, k: nat, all: bool)
    requires Sound(c) && r.Valid() && !r.eof && Honest(r, before + [chunk])
    requires k < |EncodeChunk(c, chunk)|
    requires r.pending == EncodeChunks(Encoder(c), before) + EncodeChunk(c, chunk)[..k]
    ensures Progressive(Decoder(c))
    ensures Collect(Decoder(c), r, all) ==
      if before != [] && !all then Chunks([before[0]])
      else if HasError(before) then Chunks(UpToError(before))
      else Failed
  {
    var cut := EncodeChunk(c, chunk)[..k];
    TotalSizeSnoc(before, chunk);
    assert forall i :: 0 <= i < |before| ==> before[i] == (before + [chunk])[i];
    assert (before + [chunk])[|before|] == chunk;
    DecoderWorks(c);
    StreamRoundTrip(Decoder(c), Encoder(c), r, before, cut);
    var end := Advanced(r, before, cut);
    BrokenChunk(c, end, chunk, k);
    assert Decoder(c)(end) == Next(c, end);
    assert ReadAll(Decoder(c), r) == Everything(before, Other) by { assert before + [] == before; }
    if all { CollectMeans(Decoder(c), r); } else { CollectOne(Decoder(c), r); }
  }

  /** The example: code and length arrive, then the stream breaks. */
  lemma {:induction false} BrokenBeforePayload(c: Codec, r: Reader)
    requires r == Reader([0, 5], false, false, 100, 100, 10, 0, 0)
    ensures Next(c, r) == Ended(Other) && Next(c, r.(eof := true)) == Ended(WrappedEof)
  {
    assert r.pending[1..] == [5] && [5][1..] == [];
    assert Varint.Decode([5], 0) == Varint.Value(5, 1);
    assert Varint.Decode(r.pending[1..], 0) == Varint.Value(5, 1);
  }

  /** And the exception: three frames without data fill the limit of a two-byte payload on a stream that breaks. */
  lemma {:induction false} FilledLimitLooksClean(c: Codec, empty: seq<Byte>, r: Reader)
    requires |empty| == 8 && forall rest :: c.unpack(empty + rest) == Block([], 8)
    requires r == Reader([1, 2] + STREAM_ID + empty + empty + empty, false, false, 100, 100, 10, 0, 0)
    ensures Next(c, r) == Ended(WrappedEof)
  {
    var avail := empty + empty + empty;
    ThreeEmptyFrames(c, empty);
    var body := r.pending[1..];
    assert body == [2] + (STREAM_ID + avail) && body[0] == 2;
    assert Varint.Decode(body, 0) == Varint.Value(2, 1);
    assert body[1..][..34] == STREAM_ID + avail;
    assert (STREAM_ID + avail)[10..] == avail && (STREAM_ID + avail)[..10] == STREAM_ID;
    BrokenIff(c, r);
  }

  lemma {:induction false} ThreeEmptyFrames(c: Codec, empty: seq<Byte>)
    requires |empty| == 8 && forall rest :: c.unpack(empty + rest) == Block([], 8)
    ensures OnlyEmptyFrames(c, empty + empty + empty)
  {
    assert empty + [] == empty;
    assert (empty + empty)[8..] == empty && empty[8..] == [];
    assert (empty + (empty + empty))[8..] == empty + empty;
    assert empty + empty + empty == empty + (empty + empty);
    assert c.unpack(empty + []) == Block([], 8) && c.unpack(empty + empty) == Block([], 8);
    assert OnlyEmptyFrames(c, empty) && OnlyEmptyFrames(c, empty + empty);
  }

  /** Uncompressed framing has such frames. */
  lemma {:induction false} StoredEmptyFrame(crc: seq<Byte> -> Uint32)
    ensures |StoredFrame(crc, [])| == 8
    ensures forall rest :: Stored(crc).unpack(StoredFrame(crc, []) + rest) == Block([], 8)
  {
    forall rest: seq<Byte> ensures StoredUnpack(crc, StoredFrame(crc, []) + rest) == Block([], 8) {
      var b := StoredFrame(crc, []) + rest;
      Pow256Values();
      LittleEndianRoundTrip(4, 3);
      assert b[1..4] == LittleEndian(4, 3) && b[4..8] == LittleEndian(crc([]), 4) && b[8..8] == [];
    }
  }

  // Bodies and responses beyond the round trip.

  /** A block longer than the announced payload is cut to it, unless the limit of the payload already cuts the frame. */
  lemma {:induction false} LongBlock(c: Codec, head: Chunk, r: Reader, p: seq<Byte>, rest: seq<Byte>, n: nat)
    requires Sound(c) && IsBlock(p) && 0 < n <= |p| && r.pending == STREAM_ID + (c.pack(p) + rest)
    ensures NextPayload(c, head, r, n) ==
      if 10 + |c.pack(p)| <= 32 + n + n / 6 then Got(head.(payload := p[..n]), r.(pending := rest)) else Ended(Other)
  {
    var limit, frame := 32 + n + n / 6, c.pack(p);
    if 10 + |frame| <= limit {
      WholeBlock(c, p, rest, r.eof, n);
      if |r.pending| >= limit {
        var cut := rest[..limit - 10 - |frame|];
        assert r.pending[..limit] == STREAM_ID + (frame + cut);
        WholeBlock(c, p, cut, true, n);
      }
      assert r.pending[10 + |frame|..] == rest;
    } else {
      assert r.pending[..limit] == STREAM_ID + frame[..limit - 10];
      CutBlock(c, p, limit - 10, n);
    }
  }

  lemma {:induction false} WholeBlock(c: Codec, p: seq<Byte>, rest: seq<Byte>, eof: bool, n: nat)
    requires Sound(c) && IsBlock(p) && 0 < n <= |p|
    ensures Inflate(c, STREAM_ID + (c.pack(p) + rest), eof, n) == Inflated(p[..n], 10 + |c.pack(p)|)
  {
    assert (STREAM_ID + (c.pack(p) + rest))[10..] == c.pack(p) + rest;
    assert c.unpack(c.pack(p) + rest) == Block(p, |c.pack(p)|);
  }

  lemma {:induction false} CutBlock(c: Codec, p: seq<Byte>, k: nat, n: nat)
    requires Sound(c) && IsBlock(p) && 0 < n && 0 < k < |c.pack(p)|
    ensures Inflate(c, STREAM_ID + c.pack(p)[..k], true, n) == InflateFailed
  {
    assert (STREAM_ID + c.pack(p)[..k])[10..] == c.pack(p)[..k];
    assert c.unpack(c.pack(p)[..k]) == Corrupt;
  }

  /** An error chunk ends the response and is returned as its last chunk, whatever follows it. */
  lemma {:induction false} ErrorEndsResponse(
      c: Codec, r: Reader, good: seq<Chunk>, bad: Chunk, rest: seq<Byte>)
    requires Sound(c) && r.Valid() && Honest(r, good + [bad])
    requires (forall i :: 0 <= i < |good| ==> good[i].code == 0) && bad.code != 0
    requires r.pending == EncodeChunks(Encoder(c), good + [bad]) + rest
    ensures Progressive(Decoder(c)) && Collect(Decoder(c), r, true) == Chunks(good + [bad])
  {
    DecoderWorks(c);
    ErrorEnds(Decoder(c), Encoder(c), r, good, bad, rest);
  }

  lemma {:induction false} ErrorEnds(
      next: NextFn, enc: EncodeFn, r: Reader, good: seq<Chunk>, bad: Chunk, rest: seq<Byte>)
    requires Progressive(next) && Inverts(next, enc) && r.Valid() && Honest(r, good + [bad])
    requires (forall i :: 0 <= i < |good| ==> good[i].code == 0) && bad.code != 0
    requires r.pending == EncodeChunks(enc, good + [bad]) + rest
    ensures Collect(next, r, true) == Chunks(good + [bad])
  {
    StreamRoundTrip(next, enc, r, good + [bad], rest);
    CollectMeans(next, r);
    var more := ReadAll(next, Advanced(r, good + [bad], rest)).chunks;
    assert ReadAll(next, r).chunks == (good + [bad]) + more;
    UpToFirstError(good, bad, more);
  }

  lemma {:induction false} UpToFirstError(good: seq<Chunk>, bad: Chunk, more: seq<Chunk>)
    requires (forall i :: 0 <= i < |good| ==> good[i].code == 0) && bad.code != 0
    ensures HasError((good + [bad]) + more) && UpToError((good + [bad]) + more) == good + [bad]
  {
    var all := (good + [bad]) + more;
    assert all[|good|] == bad;
    if good == [] {
      assert all[..1] == [bad] == good + [bad];
    } else {
      assert all[1..] == (good[1..] + [bad]) + more;
      UpToFirstError(good[1..], bad, more);
      assert [good[0]] + (good[1..] + [bad]) == good + [bad];
    }
  }
}
