/** The response chunk stream of consensus req/resp: writing chunks and the bounded decoder that reads them back. */
module RespStream {
  import opened Base
  import opened Sockets
  import Varint

  const CODE_SUCCESS: Byte := 0
  const CONTEXT_LEN := 4
  const MAX_PAYLOAD: nat := 10 * 1024 * 1024
  const MAX_TOTAL: nat := 64 * 1024 * 1024
  const MAX_CHUNKS: nat := 1024
  const MAX_INT64: int := 0x7fff_ffff_ffff_ffff

  datatype Chunk = Chunk(code: Byte, context: seq<Byte>, payload: seq<Byte>)

  // Framed snappy: a stream identifier, then blocks. Compression and checksums inside a block stay abstract.

  const STREAM_ID: seq<Byte> := [0xff, 6, 0, 0, 0x73, 0x4e, 0x61, 0x50, 0x70, 0x59]
  const BLOCK: nat := 65536

  datatype Unpacked = Corrupt | Block(data: seq<Byte>, used: nat)

  /** `pack` frames one block; `unpack` reads one frame from the front of non-empty input. */
  datatype Codec = Codec(pack: seq<Byte> -> seq<Byte>, unpack: seq<Byte> -> Unpacked)

  predicate IsBlock(x: seq<Byte>) { 1 <= |x| <= BLOCK }

  /** Frames decode to what was packed, without looking past their end, cost at most 8 bytes, and tolerate no cut. */
  ghost predicate Sound(c: Codec)
  {
    && (forall x {:trigger c.pack(x)} :: IsBlock(x) ==> 0 < |c.pack(x)| <= |x| + 8)
    && (forall x, rest {:trigger c.unpack(c.pack(x) + rest)} :: IsBlock(x) ==>
      c.unpack(c.pack(x) + rest) == Block(x, |c.pack(x)|))
    && (forall x, k: nat {:trigger c.unpack(c.pack(x)[..k])} :: IsBlock(x) && 0 < k < |c.pack(x)| ==>
      c.unpack(c.pack(x)[..k]) == Corrupt)
  }

  /** The codec that never compresses: frame type 1, a 24-bit length, the checksum and the block itself. */
  function Stored(crc: seq<Byte> -> Uint32): Codec
  {
    Codec(x => StoredFrame(crc, x), b => StoredUnpack(crc, b))
  }

  function StoredFrame(crc: seq<Byte> -> Uint32, x: seq<Byte>): seq<Byte>
  {
    [1] + LittleEndian(|x| + 4, 3) + LittleEndian(crc(x), 4) + x
  }

  function StoredUnpack(crc: seq<Byte> -> Uint32, b: seq<Byte>): Unpacked
  {
    if |b| < 4 || b[0] != 1 then Corrupt
    else
      var size := FromLittleEndian(b[1..4]);
      if size < 4 || |b| < 4 + size || LittleEndian(crc(b[8..4 + size]), 4) != b[4..8] then Corrupt
      else Block(b[8..4 + size], 4 + size)
  }

  lemma {:induction false} StoredDecodes(crc: seq<Byte> -> Uint32, x: seq<Byte>, rest: seq<Byte>)
    requires IsBlock(x)
    ensures StoredUnpack(crc, StoredFrame(crc, x) + rest) == Block(x, |StoredFrame(crc, x)|)
  {
    var b := StoredFrame(crc, x) + rest;
    Pow256Values();
    LittleEndianRoundTrip(|x| + 4, 3);
    assert b[1..4] == LittleEndian(|x| + 4, 3);
    assert b[4..8] == LittleEndian(crc(x), 4);
    assert b[8..8 + |x|] == x;
  }

  lemma {:induction false} StoredRefusesCut(crc: seq<Byte> -> Uint32, x: seq<Byte>, k: nat)
    requires IsBlock(x) && k < |StoredFrame(crc, x)|
    ensures StoredUnpack(crc, StoredFrame(crc, x)[..k]) == Corrupt
  {
    var frame := StoredFrame(crc, x);
    if k >= 4 {
      Pow256Values();
      LittleEndianRoundTrip(|x| + 4, 3);
      assert frame[1..4] == LittleEndian(|x| + 4, 3);
      assert frame[..k][1..4] == frame[1..4];
    }
  }

  /** The assumptions on a codec are met by the uncompressed one, whatever the checksum. */
  lemma {:induction false} StoredIsSound(crc: seq<Byte> -> Uint32)
    ensures Sound(Stored(crc))
  {
    forall x: seq<Byte>, rest: seq<Byte> | IsBlock(x)
      ensures Stored(crc).unpack(Stored(crc).pack(x) + rest) == Block(x, |Stored(crc).pack(x)|)
    {
      StoredDecodes(crc, x, rest);
    }
    forall x: seq<Byte>, k: nat | IsBlock(x) && 0 < k < |Stored(crc).pack(x)|
      ensures Stored(crc).unpack(Stored(crc).pack(x)[..k]) == Corrupt
    {
      StoredRefusesCut(crc, x, k);
    }
  }

  function PackBlocks(c: Codec, p: seq<Byte>): seq<Byte>
    requires p != []
  {
    if |p| <= BLOCK then c.pack(p) else c.pack(p[..BLOCK]) + PackBlocks(c, p[BLOCK..])
  }

  /** snappy.NewBufferedWriter: nothing at all for an empty payload. */
  function Compress(c: Codec, p: seq<Byte>): seq<Byte>
  {
    if p == [] then [] else STREAM_ID + PackBlocks(c, p)
  }

  /** The blocks of a payload: 65536 bytes each but for the last, and none for an empty payload. */
  lemma {:induction false} CompressShape(c: Codec, p: seq<Byte>)
    ensures p == [] ==> Compress(c, p) == []
    ensures 0 < |p| <= 65536 ==> Compress(c, p) == STREAM_ID + c.pack(p)
    ensures |p| > 65536 ==>
      Compress(c, p) == STREAM_ID + (c.pack(p[..65536]) + PackBlocks(c, p[65536..])) &&
      Compress(c, p[65536..]) == STREAM_ID + PackBlocks(c, p[65536..])
  {
  }

  function EncodeBody(c: Codec, p: seq<Byte>): seq<Byte>
  {
    Varint.Encode(|p|) + Compress(c, p)
  }

  function EncodeContext(chunk: Chunk): seq<Byte>
  {
    if chunk.code == CODE_SUCCESS then chunk.context else []
  }

  function EncodeChunk(c: Codec, chunk: Chunk): seq<Byte>
  {
    [chunk.code] + (EncodeContext(chunk) + EncodeBody(c, chunk.payload))
  }

  // Writing.

  method WriteSSZSnappy(c: Codec, w: Socket, payload: seq<Byte>) returns (ok: bool)
    modifies w`sent, w`turn
    ensures ok ==> w.sent == old(w.sent) + EncodeBody(c, payload)
    ensures !ok ==> PartlySent(old(w.sent), w.sent, EncodeBody(c, payload))
    ensures old(w.turn) <= w.turn && (!w.closed ==> (ok <==> AllGood(w.answers, old(w.turn), w.turn)))
  {
    var prefix := Varint.Encode(|payload|);
    var r := WriteFull(w, prefix);
    if r != Written {
      PartOfFirst(old(w.sent), w.sent, prefix, Compress(c, payload));
      return false;
    }
    if payload == [] { return true; }
    ghost var before, turn := w.sent, w.turn;
    ok := WriteFramed(c, w, payload);
    AllGoodInTurn(w.answers, old(w.turn), turn, w.turn);
    if !ok { PartOfRest(old(w.sent), w.sent, prefix, Compress(c, payload)); }
  }

  /** The snappy writer: the stream identifier and the blocks. */
  method WriteFramed(c: Codec, w: Socket, payload: seq<Byte>) returns (ok: bool)
    requires payload != []
    modifies w`sent, w`turn
    ensures ok ==> w.sent == old(w.sent) + Compress(c, payload)
    ensures !ok ==> PartlySent(old(w.sent), w.sent, Compress(c, payload))
    ensures old(w.turn) <= w.turn && (!w.closed ==> (ok <==> AllGood(w.answers, old(w.turn), w.turn)))
  {
    var r := WriteFull(w, STREAM_ID);
    if r != Written {
      PartOfFirst(old(w.sent), w.sent, STREAM_ID, PackBlocks(c, payload));
      return false;
    }
    ghost var turn := w.turn;
    ok := WriteBlocks(c, w, payload);
    AllGoodInTurn(w.answers, old(w.turn), turn, w.turn);
    if ok {
      Regroup(old(w.sent), STREAM_ID, PackBlocks(c, payload));
    } else {
      PartOfRest(old(w.sent), w.sent, STREAM_ID, PackBlocks(c, payload));
    }
  }

  method WriteBlocks(c: Codec, w: Socket, payload: seq<Byte>) returns (ok: bool)
    requires payload != []
    modifies w`sent, w`turn
    ensures ok ==> w.sent == old(w.sent) + PackBlocks(c, payload)
    ensures !ok ==> PartlySent(old(w.sent), w.sent, PackBlocks(c, payload))
    ensures old(w.turn) <= w.turn && (!w.closed ==> (ok <==> AllGood(w.answers, old(w.turn), w.turn)))
  {
    var rest := payload;
    ghost var done: seq<Byte> := [];
    while |rest| > BLOCK
      invariant rest != []
      invariant w.sent == old(w.sent) + done
      invariant done + PackBlocks(c, rest) == PackBlocks(c, payload)
      invariant old(w.turn) <= w.turn && (!w.closed ==> AllGood(w.answers, old(w.turn), w.turn))
      decreases |rest|
    {
      var frame := c.pack(rest[..BLOCK]);
      ghost var turn, tail := w.turn, PackBlocks(c, rest[BLOCK..]);
      assert PackBlocks(c, rest) == frame + tail;
      var r := WriteFull(w, frame);
      AllGoodInTurn(w.answers, old(w.turn), turn, w.turn);
      if r != Written {
        PartOfFirst(old(w.sent) + done, w.sent, frame, tail);
        PartOfRest(old(w.sent), w.sent, done, PackBlocks(c, rest));
        return false;
      }
      Regroup(old(w.sent), done, frame);
      Regroup(done, frame, tail);
      done := done + frame;
      rest := rest[BLOCK..];
    }
    ghost var turn := w.turn;
    var r := WriteFull(w, c.pack(rest));
    AllGoodInTurn(w.answers, old(w.turn), turn, w.turn);
    if r != Written {
      PartOfRest(old(w.sent), w.sent, done, PackBlocks(c, rest));
      return false;
    }
    return true;
  }

  /** A successful chunk carries either no context or exactly four bytes of it. */
  predicate Writable(chunk: Chunk)
  {
    chunk.code == CODE_SUCCESS ==> |chunk.context| == 0 || |chunk.context| == CONTEXT_LEN
  }

  method WriteResponseChunk(c: Codec, w: Socket, chunk: Chunk) returns (ok: bool)
    modifies w`sent, w`turn
    ensures ok ==> Writable(chunk) && w.sent == old(w.sent) + EncodeChunk(c, chunk)
    ensures !Writable(chunk) ==> !ok && w.sent == old(w.sent)
    ensures !ok ==> PartlySent(old(w.sent), w.sent, EncodeChunk(c, chunk))
    ensures w.closed ==> !ok && w.sent == old(w.sent)
    ensures chunk.code == 0 && |chunk.context| != 0 && |chunk.context| != 4 ==> !ok && w.turn == old(w.turn)
    ensures !w.closed && (chunk.code == 0 ==> |chunk.context| == 0 || |chunk.context| == 4) ==>
      (ok <==> AllGood(w.answers, old(w.turn), w.turn))
  {
    if chunk.code == CODE_SUCCESS && |chunk.context| != 0 && |chunk.context| != CONTEXT_LEN {
      return false;
    }
    ghost var tail := EncodeContext(chunk) + EncodeBody(c, chunk.payload);
    var r := WriteFull(w, [chunk.code]);
    if r != Written {
      PartOfFirst(old(w.sent), w.sent, [chunk.code], tail);
      return false;
    }
    ghost var turn := w.turn;
    ok := WriteAfterCode(c, w, chunk, EncodeContext(chunk), EncodeBody(c, chunk.payload));
    AllGoodInTurn(w.answers, old(w.turn), turn, w.turn);
    if ok {
      Regroup(old(w.sent), [chunk.code], tail);
    } else {
      PartOfRest(old(w.sent), w.sent, [chunk.code], tail);
    }
  }

  method WriteAfterCode(
      c: Codec, w: Socket, chunk: Chunk, ghost context: seq<Byte>, ghost body: seq<Byte>) returns (ok: bool)
    requires context == EncodeContext(chunk) && body == EncodeBody(c, chunk.payload)
    modifies w`sent, w`turn
    ensures ok ==> w.sent == old(w.sent) + (context + body)
    ensures !ok ==> PartlySent(old(w.sent), w.sent, context + body)
    ensures old(w.turn) <= w.turn && (!w.closed ==> (ok <==> AllGood(w.answers, old(w.turn), w.turn)))
  {
    if chunk.code == CODE_SUCCESS && |chunk.context| != 0 {
      var r := WriteFull(w, chunk.context);
      if r != Written {
        PartOfFirst(old(w.sent), w.sent, context, body);
        return false;
      }
    }
    assert w.sent == old(w.sent) + context;
    ghost var turn := w.turn;
    ok := WriteSSZSnappy(c, w, chunk.payload);
    AllGoodInTurn(w.answers, old(w.turn), turn, w.turn);
    if ok {
      Regroup(old(w.sent), context, body);
    } else {
      PartOfRest(old(w.sent), w.sent, context, body);
    }
  }

  // Reading.

  /** How a read sequence failed: a bare io.EOF, an error that wraps io.EOF, or any other error. */
  datatype Fault = BareEof | WrappedEof | Other

  /** errors.Is(err, io.EOF), which callers take for a clean end. */
  predicate IsEof(f: Fault) { f != Other }

  /** The bounds of a reader, the bytes that are still to arrive, and whether an EOF or another error follows them. */
  datatype Reader = Reader(
    pending: seq<Byte>, eof: bool, hasContext: bool,
    maxPayload: nat, maxTotal: nat, maxChunks: nat,
    total: nat, chunks: nat)
  {
    ghost predicate Valid()
    {
      && 1 <= maxPayload <= MAX_PAYLOAD && 1 <= maxTotal <= MAX_TOTAL && 1 <= maxChunks <= MAX_CHUNKS
      && total <= maxTotal && chunks <= maxChunks
    }
  }

  function NewReader(
      bytes: seq<Byte>, eof: bool, hasContext: bool, maxPayload: Uint64, maxTotal: Uint64, maxChunks: Uint64):
    (r: Option<Reader>)
    ensures r.Some? <==>
      1 <= maxPayload <= 10485760 && 1 <= maxTotal <= 67108864 && 1 <= maxChunks <= 1024
    ensures r.Some? ==> r.value.Valid() && r.value.pending == bytes && r.value.total == 0 && r.value.chunks == 0
  {
    if maxPayload > MAX_PAYLOAD || maxTotal > MAX_TOTAL || maxChunks == 0 || maxChunks > MAX_CHUNKS then None
    else if maxPayload == 0 || maxTotal == 0 then None
    else Some(Reader(bytes, eof, hasContext, maxPayload, maxTotal, maxChunks, 0, 0))
  }

  function MaxCompressedLen(n: Uint64): Option<nat>
  {
    if n > MAX_UINT64 - 32 || n + 32 > MAX_UINT64 - n / 6 then None
    else
      var limit := 32 + n + n / 6;
      if limit > MAX_INT64 then None else Some(limit)
  }

  /** The two guards reject exactly the lengths whose limit does not fit a signed 64-bit integer. */
  lemma {:induction false} CompressedLimitExact(n: Uint64)
    ensures MaxCompressedLen(n) == if 32 + n + n / 6 <= 9223372036854775807 then Some(32 + n + n / 6) else None
  {
  }

  datatype Inflated = Inflated(data: seq<Byte>, used: nat) | InflateEof | InflateFailed

  /**
   * io.ReadFull over snappy.NewReader, past the stream identifier: `need` more bytes from `avail`, after which the
   * input ends with an EOF or not. Nothing is read beyond the frame that completes the request.
   */
  function Blocks(c: Codec, avail: seq<Byte>, eof: bool, need: nat, started: bool): (r: Inflated)
    ensures r.Inflated? ==> r.used <= |avail|
    decreases |avail|
  {
    if need == 0 then Inflated([], 0)
    else if avail == [] then (if eof && !started then InflateEof else InflateFailed)
    else
      match c.unpack(avail)
      case Corrupt => InflateFailed
      case Block(d, used) =>
        if used == 0 || used > |avail| then InflateFailed
        else if |d| >= need then Inflated(d[..need], used)
        else
          match Blocks(c, avail[used..], eof, need - |d|, started || d != [])
          case Inflated(tail, n) => Inflated(d + tail, used + n)
          case other => other
  }

  function Inflate(c: Codec, avail: seq<Byte>, eof: bool, need: nat): (r: Inflated)
    requires need > 0
    ensures r.Inflated? ==> r.used <= |avail|
  {
    if avail == [] then (if eof then InflateEof else InflateFailed)
    else if !(STREAM_ID <= avail) then InflateFailed
    else
      match Blocks(c, avail[|STREAM_ID|..], eof, need, false)
      case Inflated(data, n) => Inflated(data, |STREAM_ID| + n)
      case other => other
  }

  /** Inflate through io.LimitReader: at the limit the input ends with an EOF, whatever would follow. */
  function InflateLimited(c: Codec, bytes: seq<Byte>, eof: bool, limit: nat, need: nat): (r: Inflated)
    requires need > 0
    ensures r.Inflated? ==> r.used <= |bytes|
  {
    if |bytes| >= limit then Inflate(c, bytes[..limit], true, need) else Inflate(c, bytes, eof, need)
  }

  datatype NextResult = Got(chunk: Chunk, reader: Reader) | Ended(fault: Fault)

  /** What a failed read at this point is: nothing left and an EOF, or anything else. */
  function EndOfInput(r: Reader, bytes: seq<Byte>, fault: Fault): Fault
  {
    if bytes == [] && r.eof then fault else Other
  }

  function Next(c: Codec, r: Reader): NextResult
  {
    if r.chunks == r.maxChunks || r.pending == [] then Ended(EndOfInput(r, r.pending, BareEof))
    else
      var code, rest := r.pending[0], r.pending[1..];
      if code == CODE_SUCCESS && r.hasContext then
        if |rest| < CONTEXT_LEN then Ended(EndOfInput(r, rest, WrappedEof))
        else NextBody(c, r, Chunk(code, rest[..CONTEXT_LEN], []), rest[CONTEXT_LEN..])
      else NextBody(c, r, Chunk(code, [], []), rest)
  }

  function NextBody(c: Codec, r: Reader, head: Chunk, bytes: seq<Byte>): NextResult
  {
    match Varint.Decode(bytes, 0)
    case Short => Ended(if r.eof then WrappedEof else Other)
    case Overflow => Ended(Other)
    case Value(length, n) =>
      if length > r.maxPayload || length > r.maxTotal - r.total then Ended(Other)
      else NextPayload(c, head, r.(pending := bytes[n..], total := r.total + length, chunks := r.chunks + 1), length)
  }

  /** The payload, once its announced length has been accepted and counted. */
  function NextPayload(c: Codec, head: Chunk, r: Reader, length: nat): NextResult
  {
    if length == 0 then Got(head, r)
    else
      match InflateLimited(c, r.pending, r.eof, 32 + length + length / 6, length)
      case Inflated(data, used) => Got(head.(payload := data), r.(pending := r.pending[used..]))
      case InflateEof => Ended(WrappedEof)
      case InflateFailed => Ended(Other)
  }

  /** Every chunk consumes input and keeps the bounds. */
  lemma {:induction false} NextKeepsBounds(c: Codec, r: Reader)
    requires r.Valid() && Next(c, r).Got?
    ensures var n := Next(c, r);
      && n.reader.Valid() && |n.reader.pending| < |r.pending|
      && n.reader == r.(pending := n.reader.pending, total := r.total + |n.chunk.payload|, chunks := r.chunks + 1)
      && |n.chunk.payload| <= r.maxPayload
  {
    var code, rest := r.pending[0], r.pending[1..];
    if code == CODE_SUCCESS && r.hasContext {
      BodyKeepsBounds(c, r, Chunk(code, rest[..CONTEXT_LEN], []), rest[CONTEXT_LEN..]);
    } else {
      BodyKeepsBounds(c, r, Chunk(code, [], []), rest);
    }
  }

  lemma {:induction false} BodyKeepsBounds(c: Codec, r: Reader, head: Chunk, bytes: seq<Byte>)
    requires r.Valid() && r.chunks < r.maxChunks && head.payload == [] && NextBody(c, r, head, bytes).Got?
    ensures var n := NextBody(c, r, head, bytes);
      && n.reader.Valid() && |n.reader.pending| <= |bytes|
      && n.reader == r.(pending := n.reader.pending, total := r.total + |n.chunk.payload|, chunks := r.chunks + 1)
      && |n.chunk.payload| <= r.maxPayload
  {
    var v := Varint.Decode(bytes, 0);
    PayloadSize(c, head, r.(pending := bytes[v.n..], total := r.total + v.v, chunks := r.chunks + 1), v.v);
  }

  /** A payload has the announced size, and reading it only moves the reader on. */
  lemma {:induction false} PayloadSize(c: Codec, head: Chunk, r: Reader, length: nat)
    requires head.payload == [] && NextPayload(c, head, r, length).Got?
    ensures var n := NextPayload(c, head, r, length);
      && |n.chunk.payload| == length && |n.reader.pending| <= |r.pending|
      && n.reader == r.(pending := n.reader.pending)
  {
    if length > 0 { InflatedLength(c, r.pending, r.eof, 32 + length + length / 6, length); }
  }

  lemma {:induction false} InflatedLength(c: Codec, bytes: seq<Byte>, eof: bool, limit: nat, need: nat)
    requires need > 0
    ensures var r := InflateLimited(c, bytes, eof, limit, need); r.Inflated? ==> |r.data| == need
  {
    var avail, e := if |bytes| >= limit then bytes[..limit] else bytes, if |bytes| >= limit then true else eof;
    if STREAM_ID <= avail { BlocksLength(c, avail[|STREAM_ID|..], e, need, false); }
  }

  lemma {:induction false} BlocksLength(c: Codec, avail: seq<Byte>, eof: bool, need: nat, started: bool)
    ensures var r := Blocks(c, avail, eof, need, started); r.Inflated? ==> |r.data| == need
    decreases |avail|
  {
    if need > 0 && avail != [] {
      match c.unpack(avail)
      case Corrupt =>
      case Block(d, used) =>
        if 0 < used <= |avail| && |d| < need {
          BlocksLength(c, avail[used..], eof, need - |d|, started || d != []);
        }
    }
  }

  /** A bare EOF is returned exactly at the end of the input on a chunk boundary. */
  lemma {:induction false} BareEofIff(c: Codec, r: Reader)
    ensures Next(c, r) == Ended(BareEof) <==> r.pending == [] && r.eof
  {
  }

  // The round trip.

  /**
   * The chunk can be written, announces its context the way the reader expects, and fits what is left of the bounds.
   */
  ghost predicate Fits(r: Reader, chunk: Chunk)
  {
    && |chunk.context| == ContextSize(r, chunk.code)
    && |chunk.payload| <= r.maxPayload && |chunk.payload| <= r.maxTotal - r.total
    && r.chunks < r.maxChunks
  }

  lemma {:induction false} PackedLength(c: Codec, p: seq<Byte>)
    requires Sound(c) && p != []
    ensures 0 < |PackBlocks(c, p)| <= |p| + 8 * ((|p| + BLOCK - 1) / BLOCK)
  {
    if |p| <= BLOCK {
      assert IsBlock(p);
    } else {
      assert IsBlock(p[..BLOCK]);
      PackedLength(c, p[BLOCK..]);
      assert (|p| - BLOCK + BLOCK - 1) / BLOCK == (|p| + BLOCK - 1) / BLOCK - 1;
    }
  }

  /** The limit reader never cuts an honest body short. */
  lemma {:induction false} LimitIsGenerous(c: Codec, p: seq<Byte>)
    requires Sound(c) && p != []
    ensures |Compress(c, p)| <= 32 + |p| + |p| / 6
  {
    PackedLength(c, p);
    assert 8 * ((|p| + BLOCK - 1) / BLOCK) <= 22 + |p| / 6 by {
      var q := (|p| + BLOCK - 1) / BLOCK;
      assert q * BLOCK <= |p| + BLOCK - 1;
    }
  }

  lemma {:induction false} BlocksRoundTrip(c: Codec, p: seq<Byte>, rest: seq<Byte>, eof: bool, started: bool)
    requires Sound(c) && p != []
    ensures Blocks(c, PackBlocks(c, p) + rest, eof, |p|, started) == Inflated(p, |PackBlocks(c, p)|)
    decreases |p|
  {
    var x := if |p| <= BLOCK then p else p[..BLOCK];
    assert IsBlock(x);
    if |p| <= BLOCK {
      assert c.unpack(c.pack(x) + rest) == Block(x, |c.pack(x)|);
      assert x[..|p|] == p;
    } else {
      var tail := p[BLOCK..];
      var avail := PackBlocks(c, p) + rest;
      assert avail == c.pack(x) + (PackBlocks(c, tail) + rest);
      assert c.unpack(c.pack(x) + (PackBlocks(c, tail) + rest)) == Block(x, |c.pack(x)|);
      assert avail[|c.pack(x)|..] == PackBlocks(c, tail) + rest;
      BlocksRoundTrip(c, tail, rest, eof, true);
      assert x + tail == p;
    }
  }

  lemma {:induction false} InflateRoundTrip(c: Codec, p: seq<Byte>, rest: seq<Byte>, eof: bool)
    requires Sound(c) && p != []
    ensures InflateLimited(c, Compress(c, p) + rest, eof, 32 + |p| + |p| / 6, |p|) == Inflated(p, |Compress(c, p)|)
  {
    var limit := 32 + |p| + |p| / 6;
    var bytes := Compress(c, p) + rest;
    LimitIsGenerous(c, p);
    var cut := if |bytes| >= limit then rest[..limit - |Compress(c, p)|] else rest;
    var avail := if |bytes| >= limit then bytes[..limit] else bytes;
    assert avail == STREAM_ID + (PackBlocks(c, p) + cut);
    assert avail[|STREAM_ID|..] == PackBlocks(c, p) + cut;
    BlocksRoundTrip(c, p, cut, true, false);
    BlocksRoundTrip(c, p, cut, eof, false);
  }

  /** The body once its length prefix is known to be acceptable. */
  lemma {:induction false} NextBodySized(
      c: Codec, r: Reader, head: Chunk, prefix: seq<Byte>, length: nat, rest: seq<Byte>)
    requires Varint.Decode(prefix + rest, 0) == Varint.Value(length, |prefix|)
    requires length <= r.maxPayload && length <= r.maxTotal - r.total
    ensures NextBody(c, r, head, prefix + rest)
      == NextPayload(c, head, r.(pending := rest, total := r.total + length, chunks := r.chunks + 1), length)
  {
    assert (prefix + rest)[|prefix|..] == rest;
  }

  lemma {:induction false} BodyRoundTrip(c: Codec, r: Reader, head: Chunk, p: seq<Byte>, rest: seq<Byte>)
    requires Sound(c) && r.Valid() && head.payload == []
    requires |p| <= r.maxPayload && |p| <= r.maxTotal - r.total
    ensures NextBody(c, r, head, EncodeBody(c, p) + rest)
      == Got(head.(payload := p), r.(pending := rest, total := r.total + |p|, chunks := r.chunks + 1))
  {
    var v, after := Varint.Encode(|p|), Compress(c, p) + rest;
    assert EncodeBody(c, p) + rest == v + after;
    Varint.RoundTrip64(|p|, after);
    NextBodySized(c, r, head, v, |p|, after);
    if p == [] {
      assert after == rest;
    } else {
      InflateRoundTrip(c, p, rest, r.eof);
      assert after[|Compress(c, p)|..] == rest;
    }
  }

  /** What is left of three parts after a cut inside the last one. */
  lemma {:induction false} RegroupCut(a: seq<Byte>, b: seq<Byte>, c: seq<Byte>, k: nat)
    requires k <= |c|
    ensures (a + (b + c))[..|a| + |b| + k] == a + (b + c[..k])
  {
  }

  /** The bytes that the context takes in a chunk with this code. */
  function ContextSize(r: Reader, code: Byte): nat
  {
    if code == CODE_SUCCESS && r.hasContext then CONTEXT_LEN else 0
  }

  lemma {:induction false} NextHead(c: Codec, r: Reader, code: Byte, context: seq<Byte>, bytes: seq<Byte>)
    requires r.chunks != r.maxChunks && |context| == ContextSize(r, code)
    requires r.pending == [code] + (context + bytes)
    ensures Next(c, r) == NextBody(c, r, Chunk(code, context, []), bytes)
  {
    var rest := r.pending[1..];
    assert rest == context + bytes;
    assert rest[..|context|] == context && rest[|context|..] == bytes;
    assert context == [] ==> rest == bytes;
  }

  /** A chunk written by WriteResponseChunk is read back identical, and the reader stands at the next one. */
  lemma {:induction false} ChunkRoundTrip(c: Codec, r: Reader, chunk: Chunk, rest: seq<Byte>)
    requires Sound(c) && r.Valid() && Fits(r, chunk) && r.pending == EncodeChunk(c, chunk) + rest
    ensures Next(c, r) == Got(chunk, Advanced(r, [chunk], rest))
  {
    var head, body := Chunk(chunk.code, chunk.context, []), EncodeBody(c, chunk.payload) + rest;
    assert NextBody(c, r, head, body) == Got(chunk, Advanced(r, [chunk], rest)) by {
      AdvancedOne(r, chunk, rest);
      BodyRoundTrip(c, r, head, chunk.payload, rest);
    }
    assert Next(c, r) == NextBody(c, r, head, body) by {
      RegroupFour([chunk.code], chunk.context, EncodeBody(c, chunk.payload), rest);
      NextHead(c, r, chunk.code, chunk.context, body);
    }
  }

  lemma {:induction false} AdvancedOne(r: Reader, chunk: Chunk, rest: seq<Byte>)
    ensures Advanced(r, [chunk], rest)
      == r.(pending := rest, total := r.total + |chunk.payload|, chunks := r.chunks + 1)
  {
    assert TotalSize([chunk]) == |chunk.payload| + TotalSize([]);
  }

  // Whole streams, for any decoder step `next` and any chunk encoding `enc`.

  type NextFn = Reader -> NextResult
  type EncodeFn = Chunk -> seq<Byte>

  function Decoder(c: Codec): NextFn { (r: Reader) => Next(c, r) }

  function Encoder(c: Codec): EncodeFn { (chunk: Chunk) => EncodeChunk(c, chunk) }

  function EncodeChunks(enc: EncodeFn, chunks: seq<Chunk>): seq<Byte>
  {
    if chunks == [] then [] else enc(chunks[0]) + EncodeChunks(enc, chunks[1..])
  }

  function TotalSize(chunks: seq<Chunk>): nat
  {
    if chunks == [] then 0 else |chunks[0].payload| + TotalSize(chunks[1..])
  }

  /** The reader after it has returned `chunks`. */
  function Advanced(r: Reader, chunks: seq<Chunk>, rest: seq<Byte>): Reader
  {
    r.(pending := rest, total := r.total + TotalSize(chunks), chunks := r.chunks + |chunks|)
  }

  ghost predicate Progressive(next: NextFn)
  {
    forall r: Reader {:trigger next(r)} :: r.Valid() && next(r).Got? ==>
      var n := next(r);
      && n.reader.Valid() && |n.reader.pending| < |r.pending|
      && |n.chunk.payload| <= r.maxPayload
      && n.reader == r.(pending := n.reader.pending, total := r.total + |n.chunk.payload|, chunks := r.chunks + 1)
  }

  ghost predicate Inverts(next: NextFn, enc: EncodeFn)
  {
    forall r: Reader, chunk: Chunk, rest: seq<Byte> {:trigger next(r), enc(chunk) + rest} ::
      r.Valid() && Fits(r, chunk) && r.pending == enc(chunk) + rest ==>
        next(r) == Got(chunk, Advanced(r, [chunk], rest))
  }

  lemma {:induction false} DecoderWorks(c: Codec)
    ensures Progressive(Decoder(c))
    ensures Sound(c) ==> Inverts(Decoder(c), Encoder(c))
  {
    forall r: Reader | r.Valid() && Next(c, r).Got?
      ensures var n := Next(c, r);
        && n.reader.Valid() && |n.reader.pending| < |r.pending|
        && |n.chunk.payload| <= r.maxPayload
        && n.reader == r.(pending := n.reader.pending, total := r.total + |n.chunk.payload|, chunks := r.chunks + 1)
    {
      NextKeepsBounds(c, r);
    }
    if Sound(c) {
      forall r: Reader, chunk: Chunk, rest: seq<Byte> | r.Valid() && Fits(r, chunk)
        && r.pending == EncodeChunk(c, chunk) + rest
        ensures Next(c, r) == Got(chunk, Advanced(r, [chunk], rest))
      {
        ChunkRoundTrip(c, r, chunk, rest);
      }
    }
  }

  datatype Everything = Everything(chunks: seq<Chunk>, fault: Fault) {
    function Preceded(before: seq<Chunk>): Everything { Everything(before + chunks, fault) }
  }

  lemma {:induction false} PrecededTwice(all: Everything, a: seq<Chunk>, b: seq<Chunk>)
    ensures all.Preceded(b).Preceded(a) == all.Preceded(a + b)
  {
    assert a + (b + all.chunks) == (a + b) + all.chunks;
  }

  /** Reading until Next fails. */
  ghost function ReadAll(next: NextFn, r: Reader): Everything
    requires Progressive(next) && r.Valid()
    decreases |r.pending|
  {
    match next(r)
    case Ended(f) => Everything([], f)
    case Got(chunk, r') => ReadAll(next, r').Preceded([chunk])
  }

  /** A list that respects the reader's per-chunk, aggregate and count ceilings. */
  ghost predicate Honest(r: Reader, chunks: seq<Chunk>)
  {
    && r.chunks + |chunks| <= r.maxChunks && r.total + TotalSize(chunks) <= r.maxTotal
    && forall i :: 0 <= i < |chunks| ==>
         |chunks[i].payload| <= r.maxPayload && |chunks[i].context| == ContextSize(r, chunks[i].code)
  }

  lemma {:induction false} EncodeChunksAppend(enc: EncodeFn, a: seq<Chunk>, b: seq<Chunk>)
    ensures EncodeChunks(enc, a + b) == EncodeChunks(enc, a) + EncodeChunks(enc, b)
  {
    if a == [] {
      assert a + b == b;
    } else {
      assert (a + b)[1..] == a[1..] + b;
      EncodeChunksAppend(enc, a[1..], b);
      Regroup(enc(a[0]), EncodeChunks(enc, a[1..]), EncodeChunks(enc, b));
    }
  }

  lemma {:induction false} EncodeOne(enc: EncodeFn, chunk: Chunk)
    ensures EncodeChunks(enc, [chunk]) == enc(chunk)
  {
    assert [chunk][1..] == [];
    assert enc(chunk) + [] == enc(chunk);
  }

  lemma {:induction false} HonestStep(r: Reader, chunks: seq<Chunk>, rest: seq<Byte>, after: seq<Byte>)
    requires r.Valid() && chunks != [] && Honest(r, chunks)
    ensures Fits(r, chunks[0])
    ensures var r' := Advanced(r, [chunks[0]], after);
      r'.Valid() && Honest(r', chunks[1..]) && Advanced(r', chunks[1..], rest) == Advanced(r, chunks, rest)
  {
    AdvancedOne(r, chunks[0], after);
  }

  /** Any honest list of chunks comes back identical, followed by whatever follows it on the wire. */
  lemma {:induction false} StreamRoundTrip(next: NextFn, enc: EncodeFn, r: Reader, chunks: seq<Chunk>, rest: seq<Byte>)
    requires Progressive(next) && Inverts(next, enc)
    requires r.Valid() && Honest(r, chunks) && r.pending == EncodeChunks(enc, chunks) + rest
    ensures Advanced(r, chunks, rest).Valid()
    ensures ReadAll(next, r) == ReadAll(next, Advanced(r, chunks, rest)).Preceded(chunks)
    decreases |chunks|
  {
    if chunks == [] {
      assert r.pending == rest;
      assert Advanced(r, chunks, rest) == r;
      assert [] + ReadAll(next, r).chunks == ReadAll(next, r).chunks;
    } else {
      var after := EncodeChunks(enc, chunks[1..]) + rest;
      Regroup(enc(chunks[0]), EncodeChunks(enc, chunks[1..]), rest);
      HonestStep(r, chunks, rest, after);
      var r' := Advanced(r, [chunks[0]], after);
      assert next(r) == Got(chunks[0], r');
      StreamRoundTrip(next, enc, r', chunks[1..], rest);
      PrecededTwice(ReadAll(next, Advanced(r, chunks, rest)), [chunks[0]], chunks[1..]);
      assert [chunks[0]] + chunks[1..] == chunks;
    }
  }

  /** The whole stream, and then a bare EOF. */
  lemma {:induction false} WholeStreamRoundTrip(c: Codec, r: Reader, chunks: seq<Chunk>)
    requires Sound(c) && r.Valid() && Honest(r, chunks) && r.pending == EncodeChunks(Encoder(c), chunks) && r.eof
    ensures Progressive(Decoder(c)) && ReadAll(Decoder(c), r) == Everything(chunks, BareEof)
  {
    DecoderWorks(c);
    assert r.pending == EncodeChunks(Encoder(c), chunks) + [];
    StreamRoundTrip(Decoder(c), Encoder(c), r, chunks, []);
    var end := Advanced(r, chunks, []);
    BareEofIff(c, end);
    assert Decoder(c)(end) == Ended(BareEof);
    assert chunks + [] == chunks;
  }

  /** On any input at all, what is read respects the three ceilings. */
  lemma {:induction false} CeilingsHold(next: NextFn, r: Reader)
    requires Progressive(next) && r.Valid()
    ensures var all := ReadAll(next, r).chunks;
      && r.chunks + |all| <= r.maxChunks && r.total + TotalSize(all) <= r.maxTotal
      && forall i :: 0 <= i < |all| ==> |all[i].payload| <= r.maxPayload
    decreases |r.pending|
  {
    if next(r).Got? {
      CeilingsHold(next, next(r).reader);
      var tail := ReadAll(next, next(r).reader).chunks;
      assert ([next(r).chunk] + tail)[1..] == tail;
    }
  }

  // Truncated streams.

  lemma {:induction false} CutBlocks(c: Codec, p: seq<Byte>, k: nat, started: bool)
    requires Sound(c) && p != [] && k < |PackBlocks(c, p)|
    ensures Blocks(c, PackBlocks(c, p)[..k], true, |p|, started)
      == if k == 0 && !started then InflateEof else InflateFailed
    decreases |p|
  {
    if k > 0 {
      var x := if |p| <= BLOCK then p else p[..BLOCK];
      assert IsBlock(x);
      var frame, avail := c.pack(x), PackBlocks(c, p)[..k];
      if k < |frame| {
        assert avail == frame[..k];
        assert c.unpack(c.pack(x)[..k]) == Corrupt;
      } else {
        var tail := p[BLOCK..];
        assert avail == frame + PackBlocks(c, tail)[..k - |frame|];
        assert c.unpack(c.pack(x) + PackBlocks(c, tail)[..k - |frame|]) == Block(x, |frame|);
        assert avail[|frame|..] == PackBlocks(c, tail)[..k - |frame|];
        CutBlocks(c, tail, k - |frame|, true);
      }
    }
  }

  lemma {:induction false} CutInflate(c: Codec, p: seq<Byte>, k: nat)
    requires Sound(c) && p != [] && k < |Compress(c, p)|
    ensures InflateLimited(c, Compress(c, p)[..k], true, 32 + |p| + |p| / 6, |p|)
      == if k == 0 || k == |STREAM_ID| then InflateEof else InflateFailed
  {
    LimitIsGenerous(c, p);
    var avail := Compress(c, p)[..k];
    if k >= |STREAM_ID| {
      assert avail == STREAM_ID + PackBlocks(c, p)[..k - |STREAM_ID|];
      assert avail[|STREAM_ID|..] == PackBlocks(c, p)[..k - |STREAM_ID|];
      CutBlocks(c, p, k - |STREAM_ID|, false);
    }
  }

  /** Offsets in a chunk at which a cut looks like a clean end to a caller that tests errors.Is(err, io.EOF). */
  predicate SilentCut(c: Codec, chunk: Chunk, k: nat)
  {
    var start := 1 + |EncodeContext(chunk)|;
    var size := |Varint.Encode(|chunk.payload|)|;
    k == 1 || start <= k <= start + size || k == start + size + |STREAM_ID|
  }

  lemma {:induction false} CutBody(c: Codec, r: Reader, head: Chunk, p: seq<Byte>, k: nat)
    requires Sound(c) && r.Valid() && r.eof && head.payload == []
    requires |p| <= r.maxPayload && |p| <= r.maxTotal - r.total
    requires k < |EncodeBody(c, p)|
    ensures var size := |Varint.Encode(|p|)|;
      NextBody(c, r, head, EncodeBody(c, p)[..k])
      == Ended(if k <= size || k == size + |STREAM_ID| then WrappedEof else Other)
  {
    var v := Varint.Encode(|p|);
    var bytes := EncodeBody(c, p)[..k];
    if k < |v| {
      assert bytes == v[..k];
      Varint.CutIsShort64(|p|, k);
    } else {
      var cut := Compress(c, p)[..k - |v|];
      assert bytes == v + cut;
      Varint.RoundTrip64(|p|, cut);
      NextBodySized(c, r, head, v, |p|, cut);
      CutInflate(c, p, k - |v|);
    }
  }

  lemma {:induction false} CutContext(c: Codec, r: Reader, chunk: Chunk, k: nat)
    requires r.Valid() && r.eof && Fits(r, chunk)
    requires 0 < k <= |chunk.context| && r.pending == ([chunk.code] + chunk.context)[..k]
    ensures Next(c, r) == Ended(if k == 1 then WrappedEof else Other)
  {
  }

  lemma {:induction false} CutAfterContext(c: Codec, r: Reader, chunk: Chunk, k: nat)
    requires Sound(c) && r.Valid() && r.eof && Fits(r, chunk)
    requires k < |EncodeBody(c, chunk.payload)|
    requires r.pending == [chunk.code] + (chunk.context + EncodeBody(c, chunk.payload)[..k])
    ensures var size := |Varint.Encode(|chunk.payload|)|;
      Next(c, r) == Ended(if k <= size || k == size + |STREAM_ID| then WrappedEof else Other)
  {
    NextHead(c, r, chunk.code, chunk.context, EncodeBody(c, chunk.payload)[..k]);
    CutBody(c, r, Chunk(chunk.code, chunk.context, []), chunk.payload, k);
  }

  /** The exact classification: a chunk cut after `k` of its bytes is silently dropped or reported. */
  lemma {:induction false} CutClassification(c: Codec, r: Reader, chunk: Chunk, k: nat)
    requires Sound(c) && r.Valid() && r.eof && Fits(r, chunk)
    requires 0 < k < |EncodeChunk(c, chunk)| && r.pending == EncodeChunk(c, chunk)[..k]
    ensures Next(c, r) == Ended(if SilentCut(c, chunk, k) then WrappedEof else Other)
  {
    var context, body := chunk.context, EncodeBody(c, chunk.payload);
    assert EncodeContext(chunk) == context;
    var start := 1 + |context|;
    if k < start {
      assert r.pending == ([chunk.code] + context)[..k];
      CutContext(c, r, chunk, k);
    } else {
      RegroupCut([chunk.code], context, body, k - start);
      CutAfterContext(c, r, chunk, k - start);
    }
  }

  /** A stream cut inside one chunk: the chunks before it arrive, then the cut is silent or not. */
  lemma {:induction false} CutStream(c: Codec, r: Reader, before: seq<Chunk>, chunk: Chunk, k: nat)
    requires Sound(c) && r.Valid() && r.eof && Honest(r, before + [chunk])
    requires 0 < k < |EncodeChunk(c, chunk)|
    requires r.pending == EncodeChunks(Encoder(c), before) + EncodeChunk(c, chunk)[..k]
    ensures Progressive(Decoder(c))
    ensures ReadAll(Decoder(c), r) == Everything(before, if SilentCut(c, chunk, k) then WrappedEof else Other)
  {
    var cut := EncodeChunk(c, chunk)[..k];
    TotalSizeSnoc(before, chunk);
    assert forall i :: 0 <= i < |before| ==> before[i] == (before + [chunk])[i];
    assert (before + [chunk])[|before|] == chunk;
    DecoderWorks(c);
    StreamRoundTrip(Decoder(c), Encoder(c), r, before, cut);
    var end := Advanced(r, before, cut);
    CutClassification(c, end, chunk, k);
    assert Decoder(c)(end) == Next(c, end);
    assert before + [] == before;
  }

  lemma {:induction false} TotalSizeSnoc(chunks: seq<Chunk>, chunk: Chunk)
    ensures TotalSize(chunks + [chunk]) == TotalSize(chunks) + |chunk.payload|
  {
    if chunks == [] {
      assert [chunk][1..] == [];
    } else {
      assert (chunks + [chunk])[1..] == chunks[1..] + [chunk];
      TotalSizeSnoc(chunks[1..], chunk);
    }
  }
}
