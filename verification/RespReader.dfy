/** The stateful response reader and the collection of a whole response by one request. */
module RespReader {
  import opened Base
  import opened RespStream
  import Varint

  datatype VarintRead = VarintValue(v: nat) | VarintFailed(fault: Fault)

  /** The value of a varint of which `value` has been read and `weight` is the weight of the next byte. */
  function Resumed(r: Varint.Result, value: nat, weight: nat, i: nat): Varint.Result
  {
    match r
    case Value(v, n) => Varint.Value(value + weight * v, i + n)
    case other => other
  }

  /** `bits` moved up to the place that `weight` marks. */
  function Shifted(bits: nat, weight: nat): nat { bits * weight }

  lemma {:induction false} ResumedStep(b: seq<Byte>, value: nat, weight: nat, i: nat)
    requires i < 10 && b != [] && b[0] >= 128
    ensures Resumed(Varint.Decode(b, i), value, weight, i)
      == Resumed(Varint.Decode(b[1..], i + 1), value + Shifted(b[0] - 128, weight), Shifted(128, weight), i + 1)
  {
    var r := Varint.Decode(b[1..], i + 1);
    if r.Value? { Distribute(weight, b[0] - 128, r.v); }
  }

  lemma {:induction false} Distribute(weight: nat, low: nat, high: nat)
    ensures weight * (low + 128 * high) == Shifted(low, weight) + Shifted(128, weight) * high
  {
  }

  lemma {:induction false} ResumedEnd(b: seq<Byte>, value: nat, weight: nat, i: nat)
    requires i < 10 && b != [] && b[0] < 128 && (i < 9 || b[0] <= 1)
    ensures Resumed(Varint.Decode(b, i), value, weight, i) == Varint.Value(value + Shifted(b[0], weight), i + 1)
  {
  }

  /** The body is read from the bytes that follow the context, whatever the reader held before. */
  lemma {:induction false} NextBodyIgnoresPending(c: Codec, r: Reader, r': Reader, head: Chunk, bytes: seq<Byte>)
    requires r' == r.(pending := bytes)
    ensures NextBody(c, r, head, bytes) == NextBody(c, r', head, bytes)
  {
  }

  datatype NextOutcome = Delivered(chunk: Chunk) | Refused(fault: Fault)

  /** The outcome of a call, and the state after it, are those of the specification. */
  ghost predicate Agrees(spec: NextResult, r: NextOutcome, after: Reader)
  {
    match spec
    case Got(chunk, reader) => r == Delivered(chunk) && after == reader
    case Ended(fault) => r == Refused(fault)
  }

  class ResponseReader {
    const codec: Codec
    var pending: seq<Byte>
    const eof: bool
    const hasContext: bool
    const maxPayload: nat
    const maxTotal: nat
    const maxChunks: nat
    var total: nat
    var chunks: nat

    constructor (codec: Codec, r: Reader)
      ensures State() == r && this.codec == codec
    {
      this.codec := codec;
      pending, eof, hasContext := r.pending, r.eof, r.hasContext;
      maxPayload, maxTotal, maxChunks := r.maxPayload, r.maxTotal, r.maxChunks;
      total, chunks := r.total, r.chunks;
    }

    ghost function State(): Reader
      reads this
    {
      Reader(pending, eof, hasContext, maxPayload, maxTotal, maxChunks, total, chunks)
    }

    /** readConsensusUvarint; the bits that each byte adds are new, so the source's `|` is an addition here. */
    method ReadUvarint() returns (r: VarintRead)
      modifies this`pending
      ensures match Varint.Decode(old(pending), 0)
        case Value(v, n) => r == VarintValue(v) && pending == old(pending)[n..]
        case Short => r == VarintFailed(if eof then WrappedEof else Other)
        case Overflow => r == VarintFailed(Other)
      ensures r.VarintValue? ==> r.v < TWO64
      ensures r != VarintFailed(BareEof) && |pending| <= |old(pending)|
    {
      ghost var input, whole := pending, Varint.Decode(pending, 0);
      assert input[0..] == input && Resumed(whole, 0, 1, 0) == whole;
      assert whole.Value? ==> whole.v < TWO64 by {
        Varint.CapIsUint64();
        Varint.DecodeFits(input, 0);
      }
      var value: nat, weight: nat := 0, 1;
      for i := 0 to 10
        invariant i <= |input| && pending == input[i..]
        invariant Resumed(Varint.Decode(input[i..], i), value, weight, i) == whole
      {
        if pending == [] {
          return VarintFailed(if eof then WrappedEof else Other);
        }
        var b: int := pending[0];
        pending := pending[1..];
        assert input[i..][1..] == input[i + 1..];
        if b < 128 {
          if i == 9 && b > 1 {
            return VarintFailed(Other);
          }
          assert whole == Varint.Value(value + Shifted(b, weight), i + 1) by {
            ResumedEnd(input[i..], value, weight, i);
          }
          return VarintValue(value + Shifted(b, weight));
        }
        ResumedStep(input[i..], value, weight, i);
        value := value + Shifted(b - 128, weight);
        weight := Shifted(128, weight);
      }
      return VarintFailed(Other);
    }

    /**
     * The next chunk, or why there is none. A clean end changes nothing and so repeats; any other failure keeps the
     * bounds and does not give back input.
     */
    method Next() returns (r: NextOutcome)
      requires State().Valid()
      modifies this
      ensures State().Valid()
      ensures Agrees(RespStream.Next(codec, old(State())), r, State())
      ensures r == Refused(BareEof) ==> State() == old(State())
      ensures |pending| <= |old(pending)|
    {
      if chunks == maxChunks {
        if pending == [] && eof { return Refused(BareEof); }
        return Refused(Other);
      }
      if pending == [] {
        if eof { return Refused(BareEof); }
        return Refused(Other);
      }
      ghost var before := State();
      var code := pending[0];
      pending := pending[1..];
      var context: seq<Byte> := [];
      if code == CODE_SUCCESS && hasContext {
        if |pending| < CONTEXT_LEN {
          return Refused(if pending == [] && eof then WrappedEof else Other);
        }
        context, pending := pending[..CONTEXT_LEN], pending[CONTEXT_LEN..];
      }
      assert before.pending == [code] + (context + pending);
      NextHead(codec, before, code, context, pending);
      NextBodyIgnoresPending(codec, before, State(), Chunk(code, context, []), pending);
      r := NextPayload(Chunk(code, context, []));
    }

    method NextPayload(head: Chunk) returns (r: NextOutcome)
      requires State().Valid() && chunks < maxChunks && head.payload == []
      modifies this
      ensures State().Valid()
      ensures Agrees(NextBody(codec, old(State()), head, old(pending)), r, State())
      ensures r != Refused(BareEof) && |pending| <= |old(pending)|
    {
      ghost var before, bytes := State(), pending;
      ghost var spec := NextBody(codec, before, head, bytes);
      var read := ReadUvarint();
      if read.VarintFailed? {
        assert spec == Ended(read.fault);
        return Refused(read.fault);
      }
      var length := read.v;
      assert pending == bytes[Varint.Decode(bytes, 0).n..];
      if length > maxPayload || length > maxTotal - total {
        assert spec == Ended(Other);
        return Refused(Other);
      }
      total := total + length;
      chunks := chunks + 1;
      assert spec == RespStream.NextPayload(codec, head, State(), length);
      r := ReadPayload(head, length);
    }

    method ReadPayload(head: Chunk, length: Uint64) returns (r: NextOutcome)
      requires State().Valid() && length <= maxPayload && head.payload == []
      modifies this`pending
      ensures Agrees(RespStream.NextPayload(codec, head, old(State()), length), r, State())
      ensures r != Refused(BareEof) && |pending| <= |old(pending)|
    {
      if length == 0 { return Delivered(head); }
      var limit := MaxCompressedLen(length);
      if limit.None? { return Refused(Other); }
      var inflated := InflateLimited(codec, pending, eof, limit.value, length);
      match inflated
      case Inflated(data, used) =>
        pending := pending[used..];
        r := Delivered(head.(payload := data));
      case InflateEof => r := Refused(WrappedEof);
      case InflateFailed => r := Refused(Other);
    }
  }

  // The response part of Session.request.

  datatype Collected = Chunks(chunks: seq<Chunk>) | EmptyResponse | Failed

  ghost function CollectMore(next: NextFn, r: Reader, acc: seq<Chunk>): Collected
    requires Progressive(next) && r.Valid()
    decreases |r.pending|
  {
    match next(r)
    case Ended(f) => if IsEof(f) then Chunks(acc) else Failed
    case Got(chunk, r') =>
      if chunk.code != CODE_SUCCESS then Chunks(acc + [chunk]) else CollectMore(next, r', acc + [chunk])
  }

  ghost function Collect(next: NextFn, r: Reader, all: bool): Collected
    requires Progressive(next) && r.Valid()
  {
    match next(r)
    case Ended(f) => if IsEof(f) then EmptyResponse else Failed
    case Got(first, r') =>
      if !all || first.code != CODE_SUCCESS then Chunks([first]) else CollectMore(next, r', [first])
  }

  method CollectResponse(reader: ResponseReader, all: bool) returns (result: Collected)
    requires reader.State().Valid()
    modifies reader
    ensures Progressive(Decoder(reader.codec))
    ensures result == Collect(Decoder(reader.codec), old(reader.State()), all)
  {
    ghost var next := Decoder(reader.codec);
    DecoderWorks(reader.codec);
    var first := reader.Next();
    if first.Refused? { return if IsEof(first.fault) then EmptyResponse else Failed; }
    var chunks := [first.chunk];
    if !all || first.chunk.code != CODE_SUCCESS { return Chunks(chunks); }
    ghost var outcome := CollectMore(next, reader.State(), chunks);
    while true
      invariant reader.State().Valid() && Progressive(next)
      invariant outcome == CollectMore(next, reader.State(), chunks)
      decreases |reader.pending|
    {
      assert next(reader.State()) == RespStream.Next(reader.codec, reader.State());
      var more := reader.Next();
      if more.Refused? { return if IsEof(more.fault) then Chunks(chunks) else Failed; }
      chunks := chunks + [more.chunk];
      if more.chunk.code != CODE_SUCCESS { return Chunks(chunks); }
    }
  }

  /** The chunks up to and including the first that reports an error. */
  function UpToError(chunks: seq<Chunk>): seq<Chunk>
  {
    if chunks == [] || chunks[0].code != CODE_SUCCESS then chunks[..if chunks == [] then 0 else 1]
    else [chunks[0]] + UpToError(chunks[1..])
  }

  predicate HasError(chunks: seq<Chunk>)
  {
    exists i :: 0 <= i < |chunks| && chunks[i].code != CODE_SUCCESS
  }

  /** What a collection means in terms of everything that could be read. */
  function Summary(everything: Everything): Collected
  {
    if HasError(everything.chunks) then Chunks(UpToError(everything.chunks))
    else if !IsEof(everything.fault) then Failed
    else if everything.chunks == [] then EmptyResponse
    else Chunks(everything.chunks)
  }

  lemma {:induction false} CollectMoreMeans(next: NextFn, r: Reader, acc: seq<Chunk>)
    requires Progressive(next) && r.Valid() && acc != []
    ensures var e := ReadAll(next, r);
      CollectMore(next, r, acc) ==
        if HasError(e.chunks) then Chunks(acc + UpToError(e.chunks))
        else if IsEof(e.fault) then Chunks(acc + e.chunks) else Failed
    decreases |r.pending|
  {
    match next(r)
    case Ended(f) =>
      assert acc + [] == acc;
    case Got(chunk, r') =>
      if chunk.code == CODE_SUCCESS { CollectMoreMeans(next, r', acc + [chunk]); }
      ErrorInTail(chunk, ReadAll(next, r').chunks);
      MoveOver(acc, chunk, ReadAll(next, r').chunks);
      MoveOver(acc, chunk, UpToError(ReadAll(next, r').chunks));
  }

  lemma {:induction false} MoveOver(acc: seq<Chunk>, chunk: Chunk, tail: seq<Chunk>)
    ensures acc + ([chunk] + tail) == (acc + [chunk]) + tail
  {
  }

  lemma {:induction false} ErrorInTail(chunk: Chunk, tail: seq<Chunk>)
    ensures HasError([chunk] + tail) <==> chunk.code != CODE_SUCCESS || HasError(tail)
    ensures UpToError([chunk] + tail) == if chunk.code != CODE_SUCCESS then [chunk] else [chunk] + UpToError(tail)
  {
    var all := [chunk] + tail;
    assert all[1..] == tail && all[..1] == [chunk];
    if chunk.code != CODE_SUCCESS { assert all[0].code != CODE_SUCCESS; }
    if HasError(tail) {
      var i :| 0 <= i < |tail| && tail[i].code != CODE_SUCCESS;
      assert all[i + 1].code != CODE_SUCCESS;
    }
    if HasError(all) && chunk.code == CODE_SUCCESS {
      var i :| 0 <= i < |all| && all[i].code != CODE_SUCCESS;
      assert tail[i - 1].code != CODE_SUCCESS;
    }
  }

  /** A request for all chunks returns what can be read, up to the first error chunk. */
  lemma {:induction false} CollectMeans(next: NextFn, r: Reader)
    requires Progressive(next) && r.Valid()
    ensures Collect(next, r, true) == Summary(ReadAll(next, r))
  {
    match next(r)
    case Ended(f) =>
    case Got(first, r') =>
      var tail := ReadAll(next, r');
      ErrorInTail(first, tail.chunks);
      assert ReadAll(next, r).chunks == [first] + tail.chunks;
      if first.code == CODE_SUCCESS { CollectMoreMeans(next, r', [first]); }
  }

  lemma {:induction false} UpToErrorShape(chunks: seq<Chunk>)
    ensures forall i :: 0 <= i < |UpToError(chunks)| - 1 ==> UpToError(chunks)[i].code == CODE_SUCCESS
    ensures chunks != [] ==> UpToError(chunks) != []
  {
    if chunks != [] && chunks[0].code == CODE_SUCCESS { UpToErrorShape(chunks[1..]); }
  }

  /** Every successful result is a run of successes followed by at most one error chunk, and is not empty. */
  lemma {:induction false} ResultShape(next: NextFn, r: Reader, all: bool)
    requires Progressive(next) && r.Valid() && Collect(next, r, all).Chunks?
    ensures var chunks := Collect(next, r, all).chunks;
      chunks != [] && forall i :: 0 <= i < |chunks| - 1 ==> chunks[i].code == CODE_SUCCESS
  {
    if all {
      CollectMeans(next, r);
      var e := ReadAll(next, r);
      UpToErrorShape(e.chunks);
      if HasError(e.chunks) {
        assert e.chunks != [];
      } else {
        assert forall i :: 0 <= i < |e.chunks| ==> e.chunks[i].code == CODE_SUCCESS;
      }
    }
  }

  /** An honest response of successful chunks is returned whole. */
  lemma {:induction false} HonestResponse(c: Codec, r: Reader, chunks: seq<Chunk>)
    requires Sound(c) && r.Valid() && Honest(r, chunks) && r.pending == EncodeChunks(Encoder(c), chunks) && r.eof
    requires !HasError(chunks)
    ensures Progressive(Decoder(c))
    ensures Collect(Decoder(c), r, true) == if chunks == [] then EmptyResponse else Chunks(chunks)
  {
    WholeStreamRoundTrip(c, r, chunks);
    CollectMeans(Decoder(c), r);
  }

  /**
   * Cut inside a chunk, wherever that chunk stands: one chunk is all that a request for one needs, and an error chunk
   * ends the collection before the cut. Otherwise the response comes back short, or as an empty one, exactly at the
   * silent offsets, and as a failure at the others.
   */
  lemma {:induction false} TruncatedResponse(c: Codec, r: Reader, before: seq<Chunk>, chunk: Chunk, k: nat, all: bool)
    requires Sound(c) && r.Valid() && r.eof && Honest(r, before + [chunk])
    requires 0 < k < |EncodeChunk(c, chunk)|
    requires r.pending == EncodeChunks(Encoder(c), before) + EncodeChunk(c, chunk)[..k]
    ensures Progressive(Decoder(c))
    ensures Collect(Decoder(c), r, all) ==
      if before != [] && !all then Chunks([before[0]])
      else if HasError(before) then Chunks(UpToError(before))
      else if !SilentCut(c, chunk, k) then Failed
      else if before == [] then EmptyResponse
      else Chunks(before)
  {
    CutStream(c, r, before, chunk, k);
    if all {
      CollectMeans(Decoder(c), r);
    } else {
      CollectOne(Decoder(c), r);
    }
  }

  /** A request for one chunk returns the first one that can be read. */
  lemma {:induction false} CollectOne(next: NextFn, r: Reader)
    requires Progressive(next) && r.Valid()
    ensures var everything := ReadAll(next, r);
      Collect(next, r, false) ==
        if everything.chunks != [] then Chunks([everything.chunks[0]])
        else if IsEof(everything.fault) then EmptyResponse else Failed
  {
  }
}
