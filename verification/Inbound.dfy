/** Reading the body of an inbound request, the partner of what a client sends. */
module Inbound {
  import opened Base
  import opened RespStream
  import opened Sockets
  import opened WriteLog
  import Varint

  /**
   * One bounded, length-prefixed body from the front of `bytes`, after which the stream ends with an EOF or an error.
   */
  function ReadSSZSnappy(c: Codec, bytes: seq<Byte>, eof: bool, maxPayload: Uint64): Option<seq<Byte>>
  {
    if maxPayload == 0 || maxPayload > MAX_PAYLOAD then None
    else
      match Varint.Decode(bytes, 0)
      case Short => None
      case Overflow => None
      case Value(length, n) =>
        ReadPayload(c, bytes[n..], eof, length, maxPayload)
  }

  /** The body once its length prefix has been read. */
  function ReadPayload(c: Codec, after: seq<Byte>, eof: bool, length: nat, maxPayload: Uint64): Option<seq<Byte>>
  {
    if length > maxPayload then None
    else if length == 0 then Some([])
    else
      match InflateLimited(c, after, eof, 32 + length + length / 6, length)
      case Inflated(data, _) => Some(data)
      case _ => None
  }

  /** Whatever arrives, an accepted body has exactly the announced length and respects the ceiling. */
  lemma {:induction false} AcceptedIsBounded(c: Codec, bytes: seq<Byte>, eof: bool, maxPayload: Uint64)
    requires ReadSSZSnappy(c, bytes, eof, maxPayload).Some?
    ensures |ReadSSZSnappy(c, bytes, eof, maxPayload).value| <= maxPayload <= MAX_PAYLOAD
    ensures Varint.Decode(bytes, 0).Value?
      && Varint.Decode(bytes, 0).v == |ReadSSZSnappy(c, bytes, eof, maxPayload).value|
  {
    var v := Varint.Decode(bytes, 0);
    if v.v > 0 { InflatedLength(c, bytes[v.n..], eof, 32 + v.v + v.v / 6, v.v); }
  }

  lemma {:induction false} ReadSized(
      c: Codec, prefix: seq<Byte>, after: seq<Byte>, eof: bool, length: nat, maxPayload: Uint64)
    requires 0 < maxPayload <= MAX_PAYLOAD
    requires Varint.Decode(prefix + after, 0) == Varint.Value(length, |prefix|)
    ensures ReadSSZSnappy(c, prefix + after, eof, maxPayload) == ReadPayload(c, after, eof, length, maxPayload)
  {
    assert (prefix + after)[|prefix|..] == after;
  }

  /** What WriteSSZSnappy sends is read back whatever follows it, exactly when it is within the reader's bounds. */
  lemma {:induction false} RequestRoundTrip(c: Codec, p: seq<Byte>, rest: seq<Byte>, eof: bool, maxPayload: Uint64)
    requires Sound(c) && |p| <= MAX_INT64
    ensures ReadSSZSnappy(c, EncodeBody(c, p) + rest, eof, maxPayload)
      == if |p| <= maxPayload && 0 < maxPayload <= 10485760 then Some(p) else None
  {
    if 0 < maxPayload <= MAX_PAYLOAD {
      var v, after := Varint.Encode(|p|), Compress(c, p) + rest;
      assert EncodeBody(c, p) + rest == v + after;
      Varint.RoundTrip64(|p|, after);
      ReadSized(c, v, after, eof, |p|, maxPayload);
      if p != [] { InflateRoundTrip(c, p, rest, eof); }
    }
  }

  /** Unlike a response, a request body that is cut anywhere is never accepted. */
  lemma {:induction false} CutRequestRefused(c: Codec, p: seq<Byte>, k: nat, maxPayload: Uint64)
    requires Sound(c) && |p| <= MAX_INT64 && k < |EncodeBody(c, p)|
    ensures ReadSSZSnappy(c, EncodeBody(c, p)[..k], true, maxPayload) == None
  {
    var v := Varint.Encode(|p|);
    if k < |v| {
      assert EncodeBody(c, p)[..k] == v[..k];
      Varint.CutIsShort64(|p|, k);
    } else if 0 < maxPayload <= MAX_PAYLOAD {
      var cut := Compress(c, p)[..k - |v|];
      assert EncodeBody(c, p)[..k] == v + cut;
      Varint.RoundTrip64(|p|, cut);
      ReadSized(c, v, cut, true, |p|, maxPayload);
      CutInflate(c, p, k - |v|);
    }
  }

  // Runs of response chunks.

  /** What each accepted write of a chunk put on the wire. */
  type ChunkLog = seq<Attempt<Chunk>>

  ghost predicate Encodes(enc: EncodeFn, log: ChunkLog)
  {
    forall i :: 0 <= i < |log| ==> log[i].Fits() && Writable(log[i].item) && log[i].bytes == enc(log[i].item)
  }

  lemma {:induction false} WholeChunks(enc: EncodeFn, log: ChunkLog)
    requires Encodes(enc, log)
    ensures WholeBytes(log) == EncodeChunks(enc, WholeItems(log))
  {
    if log != [] {
      var n := |log| - 1;
      WholeChunks(enc, log[..n]);
      EncodeOne(enc, log[n].item);
      EncodeChunksAppend(enc, WholeItems(log[..n]), [log[n].item]);
    }
  }

  /** What an orderly run leaves on the wire. */
  lemma {:induction false} OrderlyChunks(enc: EncodeFn, log: ChunkLog)
    requires Encodes(enc, log) && Orderly(log)
    ensures Out(log) == EncodeChunks(enc, WholeItems(log)) + Tail(log)
  {
    OrderlyOut(log);
    WholeChunks(enc, log);
  }

  /**
   * An orderly run of writes, end to end: the reader gets exactly the chunks that went out completely, and then a clean
   * end or, behind a torn chunk, the error that its last offset decides.
   */
  lemma {:induction false} ResponsesArrive(c: Codec, log: ChunkLog, r: Reader)
    requires Sound(c) && Encodes(Encoder(c), log) && Orderly(log)
    requires r.Valid() && r.eof && r.pending == Out(log) && Honest(r, WholeItems(log))
    requires forall i :: 0 <= i < |log| && log[i].Torn() ==> Honest(r, WholeItems(log) + [log[i].item])
    ensures Progressive(Decoder(c))
    ensures Tail(log) == [] ==> ReadAll(Decoder(c), r) == Everything(WholeItems(log), BareEof)
    ensures forall i :: 0 <= i < |log| && log[i].Torn() ==>
      ReadAll(Decoder(c), r)
        == Everything(WholeItems(log), if SilentCut(c, log[i].item, log[i].taken) then WrappedEof else Other)
  {
    DecoderWorks(c);
    OrderlyChunks(Encoder(c), log);
    if Tail(log) == [] {
      assert Out(log) == EncodeChunks(Encoder(c), WholeItems(log));
      WholeStreamRoundTrip(c, r, WholeItems(log));
    }
    forall i | 0 <= i < |log| && log[i].Torn()
      ensures ReadAll(Decoder(c), r)
        == Everything(WholeItems(log), if SilentCut(c, log[i].item, log[i].taken) then WrappedEof else Other)
    {
      TornIsTail(log, i);
      CutStream(c, r, WholeItems(log), log[i].item, log[i].taken);
    }
  }

  /** The code of a chunk is its first byte. */
  ghost predicate CodeFirst(next: NextFn, enc: EncodeFn)
  {
    && (forall chunk {:trigger enc(chunk)} :: enc(chunk) != [] && enc(chunk)[0] == chunk.code)
    && (forall r: Reader {:trigger next(r)} :: next(r).Got? ==> r.pending != [] && next(r).chunk.code == r.pending[0])
  }

  lemma {:induction false} DecoderCodeFirst(c: Codec)
    ensures CodeFirst(Decoder(c), Encoder(c))
  {
    forall r: Reader | Next(c, r).Got? ensures r.pending != [] && Next(c, r).chunk.code == r.pending[0] {
    }
  }

  /** What a reader gets when the run goes on with complete chunks. */
  ghost function Received(next: NextFn, enc: EncodeFn, log: ChunkLog, r: Reader, later: seq<Chunk>): seq<Chunk>
    requires Progressive(next) && Fitting(log) && r.Valid()
  {
    ReadAll(next, r.(pending := Out(log) + EncodeChunks(enc, later), eof := true)).chunks
  }

  ghost predicate AllLaterArrive(next: NextFn, enc: EncodeFn, log: ChunkLog, r: Reader)
    requires Progressive(next) && Fitting(log) && r.Valid()
  {
    forall later: seq<Chunk> {:induction false} ::
      Honest(r, WholeItems(log) + later) ==> Received(next, enc, log, r, later) == WholeItems(log) + later
  }

  lemma {:induction false} LaterArrive(next: NextFn, enc: EncodeFn, log: ChunkLog, r: Reader, later: seq<Chunk>)
    requires Progressive(next) && Inverts(next, enc) && Encodes(enc, log) && Orderly(log) && r.Valid()
    requires Tail(log) == [] && Honest(r, WholeItems(log) + later)
    ensures Received(next, enc, log, r, later) == WholeItems(log) + later
  {
    OrderlyChunks(enc, log);
    assert Out(log) == EncodeChunks(enc, WholeItems(log));
    EncodeChunksAppend(enc, WholeItems(log), later);
    ReadsBack(next, enc, r, WholeItems(log) + later);
  }

  lemma {:induction false} ReadsBack(next: NextFn, enc: EncodeFn, r: Reader, all: seq<Chunk>)
    requires Progressive(next) && Inverts(next, enc) && r.Valid() && Honest(r, all)
    ensures ReadAll(next, r.(pending := EncodeChunks(enc, all), eof := true)).chunks == all
  {
    var r' := r.(pending := EncodeChunks(enc, all), eof := true);
    assert r'.pending + [] == r'.pending && Honest(r', all);
    StreamRoundTrip(next, enc, r', all, []);
    assert all + [] == all;
  }

  lemma {:induction false} LaterLost(next: NextFn, enc: EncodeFn, log: ChunkLog, i: nat, r: Reader, lost: Chunk)
    requires Progressive(next) && Inverts(next, enc) && CodeFirst(next, enc)
    requires Encodes(enc, log) && Orderly(log) && r.Valid() && Honest(r, WholeItems(log))
    requires i < |log| && log[i].Torn() && Tail(log) == log[i].bytes[..log[i].taken]
    requires lost.code != log[i].item.code
    ensures Received(next, enc, log, r, [lost]) != WholeItems(log) + [lost]
  {
    var whole, rest := WholeItems(log), Tail(log) + EncodeChunks(enc, [lost]);
    var r' := r.(pending := EncodeChunks(enc, whole) + rest, eof := true);
    OrderlyChunks(enc, log);
    Regroup(EncodeChunks(enc, whole), Tail(log), EncodeChunks(enc, [lost]));
    assert Honest(r', whole);
    StreamRoundTrip(next, enc, r', whole, rest);
    var end := Advanced(r', whole, rest);
    assert rest[0] == enc(log[i].item)[0] == log[i].item.code;
    var more := ReadAll(next, end).chunks;
    assert more != [] ==> more[0] == next(end).chunk;
    assert (whole + more)[|whole|..] == more && (whole + [lost])[|whole|..] == [lost];
  }

  /**
   * The exact condition for what is written later: after an orderly run, with room for another chunk, every further run
   * of complete chunks arrives if and only if the last write was not torn.
   */
  lemma {:induction false} LaterChunksArriveIff(c: Codec, log: ChunkLog, r: Reader)
    requires Sound(c) && Encodes(Encoder(c), log) && Orderly(log)
    requires r.Valid() && Honest(r, WholeItems(log)) && r.chunks + |WholeItems(log)| < r.maxChunks
    ensures Progressive(Decoder(c))
    ensures Tail(log) == [] <==> AllLaterArrive(Decoder(c), Encoder(c), log, r)
  {
    DecoderWorks(c);
    DecoderCodeFirst(c);
    if Tail(log) == [] {
      forall later: seq<Chunk> | Honest(r, WholeItems(log) + later)
        ensures Received(Decoder(c), Encoder(c), log, r, later) == WholeItems(log) + later
      {
        LaterArrive(Decoder(c), Encoder(c), log, r, later);
      }
    } else {
      var i := TailIsTorn(log);
      var code: Byte := if log[i].item.code == CODE_SUCCESS then 1 else CODE_SUCCESS;
      var lost := Chunk(code, seq(ContextSize(r, code), _ => 0), []);
      TotalSizeSnoc(WholeItems(log), lost);
      assert Honest(r, WholeItems(log) + [lost]);
      LaterLost(Decoder(c), Encoder(c), log, i, r, lost);
    }
  }

  /** How one call extends the log: not at all when the chunk is refused. */
  ghost predicate Logs(before: ChunkLog, after: ChunkLog, chunk: Chunk, ok: bool)
  {
    if !Writable(chunk) then after == before && !ok
    else
      && |after| == |before| + 1 && after[..|before|] == before
      && after[|before|].item == chunk && (ok ==> after[|before|].Whole())
  }

  /** `enc` encodes chunks with this codec. */
  ghost predicate Uses(enc: EncodeFn, c: Codec)
  {
    forall chunk {:trigger EncodeChunk(c, chunk)} :: enc(chunk) == EncodeChunk(c, chunk)
  }

  ghost predicate ShutBehindFailure(log: ChunkLog, closed: bool)
  {
    forall i :: 0 <= i < |log| && !log[i].Whole() ==> closed
  }

  lemma {:induction false} LogChunk(enc: EncodeFn, log: ChunkLog, a: Attempt<Chunk>, closed: bool)
    requires Encodes(enc, log) && Orderly(log) && ShutBehindFailure(log, closed)
    requires a.Fits() && Writable(a.item) && a.bytes == enc(a.item) && (closed ==> a.taken == 0)
    ensures Encodes(enc, log + [a]) && Orderly(log + [a]) && Out(log + [a]) == Out(log) + a.bytes[..a.taken]
    ensures ShutBehindFailure(log + [a], closed || !a.Whole())
  {
    Snoc(log, a);
    EncodesSnoc(enc, log, a);
    TornMeansClosed(log, closed);
    OrderlySnoc(log, a);
    ShutSnoc(log, a, closed);
  }

  lemma {:induction false} EncodesSnoc(enc: EncodeFn, log: ChunkLog, a: Attempt<Chunk>)
    requires Encodes(enc, log) && a.Fits() && Writable(a.item) && a.bytes == enc(a.item)
    ensures Encodes(enc, log + [a])
  {
  }

  lemma {:induction false} ShutSnoc(log: ChunkLog, a: Attempt<Chunk>, closed: bool)
    requires ShutBehindFailure(log, closed)
    ensures ShutBehindFailure(log + [a], closed || !a.Whole())
  {
  }

  /** A failed write before which the stream was open may be torn; behind a closed stream nothing goes out. */
  lemma {:induction false} TornMeansClosed(log: ChunkLog, closed: bool)
    requires ShutBehindFailure(log, closed)
    ensures forall i :: 0 <= i < |log| && log[i].Torn() ==> closed
  {
  }

  /** The attempt that a write amounts to, by what it left on the wire. */
  lemma {:induction false} AttemptOf(chunk: Chunk, bytes: seq<Byte>, before: seq<Byte>, after: seq<Byte>, ok: bool)
    returns (a: Attempt<Chunk>)
    requires bytes != []
    requires if ok then after == before + bytes else PartlySent(before, after, bytes)
    ensures a.item == chunk && a.bytes == bytes && a.Fits() && (ok ==> a.Whole())
    ensures after == before + bytes[..a.taken] && a.taken == |after| - |before|
  {
    assert PartlySent(before, after, bytes);
    Taken(before, after, bytes);
    a := Attempt(chunk, bytes, |after| - |before|);
  }

  class InboundRequest {
    const codec: Codec
    const stream: Socket
    ghost const enc: EncodeFn
    ghost const base: seq<Byte>
    ghost var log: ChunkLog

    /** The stream is reset after the first write that fails, so every run is orderly. */
    ghost predicate Valid()
      reads this, stream
    {
      && Uses(enc, codec) && Encodes(enc, log) && Orderly(log)
      && stream.sent == base + Out(log)
      && ShutBehindFailure(log, stream.closed)
    }

    constructor (codec: Codec, stream: Socket)
      ensures Valid() && log == [] && base == stream.sent && this.codec == codec && this.stream == stream
    {
      this.codec, this.stream := codec, stream;
      enc, base, log := Encoder(codec), stream.sent, [];
    }

    /** The log after a write that was not refused; a failed one still has to reset the stream. */
    ghost method Record(chunk: Chunk, bytes: seq<Byte>, before: seq<Byte>, ok: bool)
      requires Encodes(enc, log) && Orderly(log) && ShutBehindFailure(log, stream.closed)
      requires Writable(chunk) && bytes == enc(chunk) && bytes != [] && before == base + Out(log)
      requires if ok then stream.sent == before + bytes else PartlySent(before, stream.sent, bytes)
      requires stream.closed ==> !ok && stream.sent == before
      modifies this`log
      ensures Encodes(enc, log) && Orderly(log) && stream.sent == base + Out(log)
      ensures ShutBehindFailure(log, stream.closed || !ok)
      ensures Logs(old(log), log, chunk, ok)
    {
      var a := AttemptOf(chunk, bytes, before, stream.sent, ok);
      LogChunk(enc, log, a, stream.closed);
      Regroup(base, Out(log), bytes[..a.taken]);
      log := log + [a];
    }

    method WriteResponse(chunk: Chunk) returns (ok: bool)
      requires Valid()
      modifies this`log, stream
      ensures Valid()
      ensures Logs(old(log), log, chunk, ok)
      ensures !ok ==> stream.closed
      ensures !old(stream.closed) && (chunk.code == 0 ==> |chunk.context| == 0 || |chunk.context| == 4) ==>
        (ok <==> AllGood(stream.answers, old(stream.turn), stream.turn))
    {
      ghost var before := stream.sent;
      ok := WriteResponseChunk(codec, stream, chunk);
      if Writable(chunk) { Record(chunk, EncodeChunk(codec, chunk), before, ok); }
      if !ok { stream.Reset(); }
    }
  }

  lemma {:induction false} UsesEncoder(enc: EncodeFn, c: Codec, log: ChunkLog)
    requires Uses(enc, c) && Encodes(enc, log)
    ensures Encodes(Encoder(c), log)
  {
    forall i | 0 <= i < |log| ensures log[i].bytes == EncodeChunk(c, log[i].item) {
    }
  }

  /**
   * A request after any calls of WriteResponse: a reader of the response gets exactly the chunks that went out
   * completely, and a clean end unless the last one was torn.
   */
  lemma {:induction false} ReaderGetsResponses(request: InboundRequest, r: Reader)
    requires request.Valid() && Sound(request.codec)
    requires r.Valid() && r.eof && request.stream.sent == request.base + r.pending
    requires Honest(r, WholeItems(request.log))
    requires forall i :: 0 <= i < |request.log| && request.log[i].Torn() ==>
      Honest(r, WholeItems(request.log) + [request.log[i].item])
    ensures Progressive(Decoder(request.codec))
    ensures var all := ReadAll(Decoder(request.codec), r);
      all.chunks == WholeItems(request.log) && (Tail(request.log) == [] ==> all.fault == BareEof)
  {
    var log := request.log;
    UsesEncoder(request.enc, request.codec, log);
    assert r.pending == (request.base + r.pending)[|request.base|..] == Out(log);
    ResponsesArrive(request.codec, log, r);
    if Tail(log) != [] { var i := TailIsTorn(log); }
  }
}
