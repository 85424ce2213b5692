/** The mplex transport: a capped sender and an incremental frame parser. */
module Mplex {
  import opened Base
  import opened WriteLog
  import Varint

  const MAX_SEND: nat := 0x400_0000
  const MAX_FRAME: nat := 0x10_0000
  const FLAG_RESET_INIT: nat := 6
  const MAX_STREAM_ID: nat := 0x1000_0000_0000_0000

  datatype Frame = Frame(stream: nat, flag: nat, payload: seq<Byte>)

  /** The frames that `send` accepts. */
  predicate Sendable(f: Frame)
  {
    f.stream <= MAX_STREAM_ID && f.flag <= FLAG_RESET_INIT && |f.payload| <= MAX_FRAME
  }

  function EncodeFrame(f: Frame): seq<Byte>
  {
    Varint.Encode(f.stream * 8 + f.flag) + Varint.Encode(|f.payload|) + f.payload
  }

  function EncodeFrames(fs: seq<Frame>): seq<Byte>
  {
    if fs == [] then [] else EncodeFrame(fs[0]) + EncodeFrames(fs[1..])
  }

  datatype ParseResult = Incomplete | Parsed(frame: Frame, used: nat)

  /** `parse`: one frame from the front of the buffer; a malformed front is never consumed. */
  function Parse(b: seq<Byte>): (r: ParseResult)
    ensures r.Parsed? ==> 2 <= r.used <= |b|
    ensures r.Parsed? ==> |r.frame.payload| <= 1048576 && r.frame.flag <= 7
    ensures r.Parsed? ==> |r.frame.payload| <= r.used && r.frame.payload == b[r.used - |r.frame.payload|..r.used]
  {
    match Varint.Decode(b, 0)
    case Value(header, n1) => ParseBody(b, header, n1, Varint.Decode(b[n1..], 0))
    case _ => Incomplete
  }

  /** The frame behind a header of `n1` bytes, with what has been read as its size. */
  function ParseBody(b: seq<Byte>, header: nat, n1: nat, size: Varint.Result): (r: ParseResult)
    requires 1 <= n1 <= |b| && (size.Value? ==> 1 <= size.n <= |b| - n1)
    ensures r.Parsed? ==> 2 <= r.used <= |b|
    ensures r.Parsed? ==> |r.frame.payload| <= 1048576 && r.frame.flag <= 7
    ensures r.Parsed? ==> |r.frame.payload| <= r.used && r.frame.payload == b[r.used - |r.frame.payload|..r.used]
  {
    match size
    case Value(v, n2) =>
      var start := n1 + n2;
      if v > MAX_FRAME || |b| - start < v then Incomplete
      else Parsed(Frame(header / 8, header % 8, b[start..start + v]), start + v)
    case _ => Incomplete
  }

  datatype Batch = Batch(frames: seq<Frame>, used: nat, rest: seq<Byte>) {
    function Preceded(fs: seq<Frame>, n: nat): Batch { Batch(fs + frames, n + used, rest) }
  }

  lemma {:induction false} PrecededTwice(b: Batch, fs: seq<Frame>, n: nat, gs: seq<Frame>, m: nat)
    ensures b.Preceded(gs, m).Preceded(fs, n) == b.Preceded(fs + gs, n + m)
  {
    assert fs + (gs + b.frames) == (fs + gs) + b.frames;
  }

  lemma {:induction false} PrecededByNothing(b: Batch)
    ensures b.Preceded([], 0) == b
  {
    assert [] + b.frames == b.frames;
  }

  /** A header, a size and that many bytes parse as a frame. */
  lemma {:induction false} ParseIs(b: seq<Byte>, header: nat, n1: nat, size: nat, n2: nat)
    requires Varint.Decode(b, 0) == Varint.Value(header, n1)
    requires n1 <= |b| && Varint.Decode(b[n1..], 0) == Varint.Value(size, n2)
    requires size <= MAX_FRAME && n1 + n2 + size <= |b|
    ensures Parse(b) == Parsed(Frame(header / 8, header % 8, b[n1 + n2..n1 + n2 + size]), n1 + n2 + size)
  {
    assert Parse(b) == ParseBody(b, header, n1, Varint.Value(size, n2));
  }

  /** A frame is taken as soon as its payload is there, if the payload is at most 1 MiB. */
  lemma {:induction false} ParsedIff(b: seq<Byte>)
    ensures Parse(b).Parsed? <==>
      && Varint.Decode(b, 0).Value?
      && var header := Varint.Decode(b, 0); var size := Varint.Decode(b[header.n..], 0);
         size.Value? && size.v <= 1048576 && header.n + size.n + size.v <= |b|
  {
  }

  /** An announced payload above 1 MiB, or a varint beyond 64 bits, blocks the stream for good. */
  lemma {:induction false} OversizeBlocks(b: seq<Byte>, more: seq<Byte>)
    requires Varint.Decode(b, 0).Value?
    requires var header := Varint.Decode(b, 0); var size := Varint.Decode(b[header.n..], 0);
      size.Overflow? || (size.Value? && size.v > 1048576)
    ensures Parse(b + more).Incomplete?
  {
    var header := Varint.Decode(b, 0);
    Varint.DecodeStable(b, more, 0);
    Varint.DecodeStable(b[header.n..], more, 0);
    TailOfConcat(b, more, header.n);
  }

  lemma {:induction false} TailOfConcat(b: seq<Byte>, c: seq<Byte>, i: nat)
    requires i <= |b|
    ensures (b + c)[i..] == b[i..] + c
  {
  }

  /** Bytes behind a complete frame do not change it. */
  lemma {:induction false} ParseStable(b: seq<Byte>, c: seq<Byte>)
    requires Parse(b).Parsed?
    ensures Parse(b + c) == Parse(b)
  {
    var header := Varint.Decode(b, 0);
    var size := Varint.Decode(b[header.n..], 0);
    Varint.DecodeStable(b, c, 0);
    Varint.DecodeStable(b[header.n..], c, 0);
    TailOfConcat(b, c, header.n);
    ParseIs(b + c, header.v, header.n, size.v, size.n);
    var start := header.n + size.n;
    assert (b + c)[start..start + size.v] == b[start..start + size.v];
  }

  type Parser = seq<Byte> -> ParseResult

  /** A parser consumes something when it delivers a frame, and later bytes do not change its mind. */
  ghost predicate Incremental(parse: Parser)
  {
    && (forall b {:trigger parse(b)} :: parse(b).Parsed? ==> 0 < parse(b).used <= |b|)
    && (forall b, c {:trigger parse(b + c)} :: parse(b).Parsed? ==> parse(b + c) == parse(b))
  }

  /** All frames at the front of a buffer, how many bytes they take, and what is left. */
  ghost function ParseAll(parse: Parser, b: seq<Byte>): Batch
    requires Incremental(parse)
    decreases |b|
  {
    match parse(b)
    case Incomplete => Batch([], 0, b)
    case Parsed(f, used) => ParseAll(parse, b[used..]).Preceded([f], used)
  }

  lemma {:induction false} ParseAllAccounts(parse: Parser, b: seq<Byte>)
    requires Incremental(parse)
    ensures var r := ParseAll(parse, b); r.used + |r.rest| == |b| && r.rest == b[r.used..]
    ensures parse(ParseAll(parse, b).rest).Incomplete?
    decreases |b|
  {
    if parse(b).Parsed? {
      ParseAllAccounts(parse, b[parse(b).used..]);
    }
  }

  /** Later bytes only add frames: parsing resumes from the leftover buffer as if there had been no break. */
  lemma {:induction false} ParseAllSplit(parse: Parser, b: seq<Byte>, c: seq<Byte>)
    requires Incremental(parse)
    ensures var first := ParseAll(parse, b);
      ParseAll(parse, b + c) == ParseAll(parse, first.rest + c).Preceded(first.frames, first.used)
    decreases |b|
  {
    if parse(b).Parsed? {
      var used, f := parse(b).used, parse(b).frame;
      assert parse(b + c) == parse(b);
      assert (b + c)[used..] == b[used..] + c;
      ParseAllSplit(parse, b[used..], c);
      var tail := ParseAll(parse, b[used..]);
      PrecededTwice(ParseAll(parse, tail.rest + c), [f], used, tail.frames, tail.used);
    } else {
      PrecededByNothing(ParseAll(parse, b + c));
    }
  }

  /** Feeding the stream in pieces, draining the buffer after each. */
  ghost function Feed(parse: Parser, buf: seq<Byte>, chunks: seq<seq<Byte>>): Batch
    requires Incremental(parse)
    decreases |chunks|
  {
    if chunks == [] then Batch([], 0, buf)
    else
      var first := ParseAll(parse, buf + chunks[0]);
      Feed(parse, first.rest, chunks[1..]).Preceded(first.frames, first.used)
  }

  /** Chunking independence: however a stream is cut, the frames and the leftover are those of the whole stream. */
  lemma {:induction false} ChunkingIndependence(parse: Parser, buf: seq<Byte>, chunks: seq<seq<Byte>>)
    requires Incremental(parse) && parse(buf).Incomplete?
    ensures Feed(parse, buf, chunks) == ParseAll(parse, buf + Concat(chunks))
    decreases |chunks|
  {
    if chunks == [] {
      assert buf + Concat(chunks) == buf;
    } else {
      var b := buf + chunks[0];
      ParseAllAccounts(parse, b);
      ChunkingIndependence(parse, ParseAll(parse, b).rest, chunks[1..]);
      ParseAllSplit(parse, b, Concat(chunks[1..]));
      Regroup(buf, chunks[0], Concat(chunks[1..]));
    }
  }

  lemma {:induction false} ParseIsIncremental()
    ensures Incremental(Parse)
  {
    forall b: seq<Byte>, c: seq<Byte> | Parse(b).Parsed? ensures Parse(b + c) == Parse(b) {
      ParseStable(b, c);
    }
  }

  /** One turn of the inner loop of Drain. */
  lemma {:induction false} ParseAllStep(parse: Parser, b: seq<Byte>, before: seq<Frame>, n: nat)
    requires Incremental(parse)
    ensures parse(b).Incomplete? ==> ParseAll(parse, b) == Batch([], 0, b)
    ensures parse(b).Parsed? ==>
      ParseAll(parse, b).Preceded(before, n)
      == ParseAll(parse, b[parse(b).used..]).Preceded(before + [parse(b).frame], n + parse(b).used)
  {
    if parse(b).Parsed? {
      PrecededTwice(ParseAll(parse, b[parse(b).used..]), before, n, [parse(b).frame], parse(b).used);
    }
  }

  /** One turn of its outer loop. */
  lemma {:induction false} ParseAllRead(parse: Parser, stream: seq<Byte>, chunk: seq<Byte>)
    requires Incremental(parse)
    ensures var first := ParseAll(parse, stream); var all := ParseAll(parse, stream + chunk);
      && all == ParseAll(parse, first.rest + chunk).Preceded(first.frames, first.used)
      && all.used + |all.rest| == |stream + chunk|
  {
    ParseAllSplit(parse, stream, chunk);
    ParseAllAccounts(parse, stream + chunk);
  }

  lemma {:induction false} FrameRoundTrip(f: Frame, rest: seq<Byte>)
    requires Sendable(f)
    ensures f.stream * 8 + f.flag < TWO64
    ensures Parse(EncodeFrame(f) + rest) == Parsed(f, |EncodeFrame(f)|)
  {
    HeaderParts(f.stream, f.flag);
    var header, size := f.stream * 8 + f.flag, |f.payload|;
    var h, s := Varint.Encode(header), Varint.Encode(size);
    FrameParts(h, s, f.payload, rest);
    Varint.RoundTrip64(header, s + (f.payload + rest));
    Varint.RoundTrip64(size, f.payload + rest);
    ParseIs(EncodeFrame(f) + rest, header, |h|, size, |s|);
  }

  lemma {:induction false} HeaderParts(stream: nat, flag: nat)
    requires flag < 8
    ensures (stream * 8 + flag) / 8 == stream && (stream * 8 + flag) % 8 == flag
  {
  }

  lemma {:induction false} FrameParts(h: seq<Byte>, s: seq<Byte>, p: seq<Byte>, rest: seq<Byte>)
    ensures var b := h + s + p + rest;
      && b == h + (s + (p + rest)) && b[|h|..] == s + (p + rest)
      && b[|h| + |s|..|h| + |s| + |p|] == p
  {
  }

  /** The peer's parser inverts any run of complete sends. */
  lemma {:induction false} SendsRoundTrip(parse: Parser, fs: seq<Frame>, rest: seq<Byte>)
    requires Incremental(parse) && parse == Parse
    requires forall i :: 0 <= i < |fs| ==> Sendable(fs[i])
    ensures ParseAll(parse, EncodeFrames(fs) + rest) == ParseAll(parse, rest).Preceded(fs, |EncodeFrames(fs)|)
  {
    if fs == [] {
      assert EncodeFrames(fs) + rest == rest;
      PrecededByNothing(ParseAll(parse, rest));
    } else {
      var e := EncodeFrame(fs[0]);
      var after := EncodeFrames(fs[1..]) + rest;
      assert EncodeFrames(fs) + rest == e + after;
      FrameRoundTrip(fs[0], after);
      assert parse(e + after) == Parsed(fs[0], |e|);
      assert (e + after)[|e|..] == after;
      SendsRoundTrip(parse, fs[1..], rest);
      PrecededTwice(ParseAll(parse, rest), [fs[0]], |e|, fs[1..], |EncodeFrames(fs[1..])|);
      assert [fs[0]] + fs[1..] == fs;
    }
  }

  /** No strict prefix of a frame parses. */
  lemma {:induction false} TornFrameIncomplete(f: Frame, k: nat)
    requires Sendable(f) && k < |EncodeFrame(f)|
    ensures Parse(EncodeFrame(f)[..k]).Incomplete?
  {
    var header, size := f.stream * 8 + f.flag, |f.payload|;
    var h, s := Varint.Encode(header), Varint.Encode(size);
    var b := EncodeFrame(f)[..k];
    assert EncodeFrame(f) == h + (s + f.payload);
    if k < |h| {
      assert b == h[..k];
      Varint.CutIsShort64(header, k);
    } else {
      var cut := (s + f.payload)[..k - |h|];
      assert b == h + cut by { CutConcat(h, s + f.payload, k - |h|); }
      TornBody(f, k - |h|);
      Varint.RoundTrip64(header, cut);
      assert b[|h|..] == cut;
    }
  }

  /** Past the header varint: either the size is cut off, or fewer bytes than the size follow. */
  lemma {:induction false} TornBody(f: Frame, k: nat)
    requires Sendable(f)
    requires k < |Varint.Encode(|f.payload|)| + |f.payload|
    ensures var size := Varint.Encode(|f.payload|); var r := Varint.Decode((size + f.payload)[..k], 0);
      r == Varint.Short || (r == Varint.Value(|f.payload|, |size|) && k - |size| < |f.payload|)
  {
    var n := |f.payload|;
    var s := Varint.Encode(n);
    if k < |s| {
      assert (s + f.payload)[..k] == s[..k];
      Varint.CutIsShort64(n, k);
    } else {
      CutConcat(s, f.payload, k - |s|);
      Varint.RoundTrip64(n, f.payload[..k - |s|]);
    }
  }

  lemma {:induction false} EncodeFramesSnoc(fs: seq<Frame>, f: Frame)
    ensures EncodeFrames(fs + [f]) == EncodeFrames(fs) + EncodeFrame(f)
  {
    if fs == [] {
      assert fs + [f] == [f];
      assert EncodeFrames([f]) == EncodeFrame(f) + EncodeFrames([f][1..]);
    } else {
      EncodeFramesSnoc(fs[1..], f);
      assert (fs + [f])[1..] == fs[1..] + [f];
    }
  }

  // Runs of sends.

  /** What each accepted send put on the wire. */
  type SendLog = seq<Attempt<Frame>>

  ghost predicate FrameLog(log: SendLog)
  {
    forall i :: 0 <= i < |log| ==> log[i].Fits() && Sendable(log[i].item) && log[i].bytes == EncodeFrame(log[i].item)
  }

  ghost predicate AllSendable(fs: seq<Frame>)
  {
    forall i :: 0 <= i < |fs| ==> Sendable(fs[i])
  }

  lemma {:induction false} WholeFrames(log: SendLog)
    requires FrameLog(log)
    ensures AllSendable(WholeItems(log)) && WholeBytes(log) == EncodeFrames(WholeItems(log))
  {
    if log != [] {
      var n := |log| - 1;
      WholeFrames(log[..n]);
      EncodeFramesSnoc(WholeItems(log[..n]), log[n].item);
    }
  }

  /** What an orderly run leaves on the wire. */
  lemma {:induction false} OrderlyWire(log: SendLog)
    requires FrameLog(log) && Orderly(log)
    ensures AllSendable(WholeItems(log)) && Out(log) == EncodeFrames(WholeItems(log)) + Tail(log)
    ensures Parse(Tail(log)).Incomplete?
  {
    OrderlyOut(log);
    WholeFrames(log);
    if Tail(log) == [] {
      assert Varint.Decode([], 0).Short?;
    } else {
      var i := TailIsTorn(log);
      TornFrameIncomplete(log[i].item, log[i].taken);
    }
  }

  /**
   * A run of sends, end to end, for every split of the wire into reads: unless bytes were sent behind a torn frame, the
   * peer receives exactly the complete frames, in order, and keeps the torn one in its buffer.
   */
  lemma {:induction false} PeerReceivesCompleteSends(log: SendLog, chunks: seq<seq<Byte>>)
    requires FrameLog(log) && Orderly(log) && Concat(chunks) == Out(log)
    ensures Incremental(Parse)
    ensures Feed(Parse, [], chunks) == Batch(WholeItems(log), |EncodeFrames(WholeItems(log))|, Tail(log))
  {
    ParseIsIncremental();
    LogParses(Parse, log);
    ChunkingIndependence(Parse, [], chunks);
    assert [] + Concat(chunks) == Concat(chunks);
  }

  lemma {:induction false} LogParses(parse: Parser, log: SendLog)
    requires FrameLog(log) && Orderly(log) && Incremental(parse) && parse == Parse
    ensures ParseAll(parse, Out(log)) == Batch(WholeItems(log), |EncodeFrames(WholeItems(log))|, Tail(log))
  {
    OrderlyWire(log);
    SendsRoundTrip(parse, WholeItems(log), Tail(log));
    assert WholeItems(log) + [] == WholeItems(log);
  }

  lemma {:induction false} LowBits(a: nat, b: nat)
    requires a % 128 == b % 128
    ensures a % 8 == b % 8
  {
    LowThree(a);
    LowThree(b);
  }

  lemma {:induction false} LowThree(a: nat)
    ensures a % 8 == a % 128 % 8
  {
    assert a == 8 * (16 * (a / 128)) + a % 128;
  }

  /** The flag is in the first byte. */
  lemma {:induction false} ParsedFlag(b: seq<Byte>)
    requires Parse(b).Parsed?
    ensures Parse(b).frame.flag == b[0] % 8
  {
    Varint.FirstByte(b, 0);
    LowBits(Varint.Decode(b, 0).v, b[0]);
  }

  lemma {:induction false} EncodedFlag(f: Frame)
    requires Sendable(f)
    ensures EncodeFrame(f)[0] % 8 == f.flag
  {
    var header := f.stream * 8 + f.flag;
    assert EncodeFrame(f)[0] == Varint.Encode(header)[0];
    LowBits(Varint.Encode(header)[0], header);
  }

  /** Whatever follows a torn frame, a frame parsed there has the torn frame's flag. */
  lemma {:induction false} TornFlag(f: Frame, k: nat, rest: seq<Byte>)
    requires Sendable(f) && 0 < k < |EncodeFrame(f)|
    ensures var r := Parse(EncodeFrame(f)[..k] + rest); r.Parsed? ==> r.frame.flag == f.flag
  {
    var e := EncodeFrame(f);
    var b := e[..k] + rest;
    assert b[0] == e[0];
    EncodedFlag(f);
    if Parse(b).Parsed? { ParsedFlag(b); }
  }

  /** What a peer gets from a run that goes on with complete sends. */
  ghost function Received(log: SendLog, later: seq<Frame>): seq<Frame>
    requires FrameLog(log) && Incremental(Parse)
  {
    ParseAll(Parse, Out(log) + EncodeFrames(later)).frames
  }

  lemma {:induction false} ReceivedSplits(parse: Parser, log: SendLog, later: seq<Frame>)
    requires FrameLog(log) && Orderly(log) && AllSendable(later)
    requires Incremental(parse) && parse == Parse
    ensures ParseAll(parse, Out(log) + EncodeFrames(later)).frames
      == WholeItems(log) + ParseAll(parse, Tail(log) + EncodeFrames(later)).frames
  {
    OrderlyWire(log);
    ParsedAfter(parse, WholeItems(log), Tail(log), EncodeFrames(later));
  }

  lemma {:induction false} ParsedAfter(parse: Parser, fs: seq<Frame>, torn: seq<Byte>, rest: seq<Byte>)
    requires AllSendable(fs) && Incremental(parse) && parse == Parse
    ensures ParseAll(parse, (EncodeFrames(fs) + torn) + rest).frames == fs + ParseAll(parse, torn + rest).frames
  {
    assert (EncodeFrames(fs) + torn) + rest == EncodeFrames(fs) + (torn + rest);
    SendsRoundTrip(parse, fs, torn + rest);
  }

  /**
   * The exact condition for what is sent later: after an orderly run, every further run of complete sends is received
   * whole if and only if the last write was not torn. A frame that follows a torn one can be lost.
   */
  lemma {:induction false} LaterSendsArriveIff(log: SendLog)
    requires FrameLog(log) && Orderly(log)
    ensures Incremental(Parse)
    ensures Tail(log) == [] <==>
      forall later {:induction false} :: AllSendable(later) ==> Received(log, later) == WholeItems(log) + later
  {
    ParseIsIncremental();
    if Tail(log) == [] {
      forall later | AllSendable(later) ensures Received(log, later) == WholeItems(log) + later {
        ReceivedSplits(Parse, log, later);
        SendsAlone(Parse, later);
        assert [] + EncodeFrames(later) == EncodeFrames(later);
      }
    } else {
      var i := TailIsTorn(log);
      var lost := FrameLostBehind(Parse, log[i].item, log[i].taken);
      assert AllSendable([lost]);
      assert Received(log, [lost]) != WholeItems(log) + [lost] by {
        ReceivedSplits(Parse, log, [lost]);
        AppendCancels(WholeItems(log), ParseAll(Parse, Tail(log) + EncodeFrames([lost])).frames, [lost]);
      }
    }
  }

  lemma {:induction false} AppendCancels(a: seq<Frame>, b: seq<Frame>, c: seq<Frame>)
    requires b != c
    ensures a + b != a + c
  {
    assert (a + b)[|a|..] == b && (a + c)[|a|..] == c;
  }

  lemma {:induction false} SendsAlone(parse: Parser, fs: seq<Frame>)
    requires AllSendable(fs) && Incremental(parse) && parse == Parse
    ensures ParseAll(parse, EncodeFrames(fs)).frames == fs
  {
    SendsRoundTrip(parse, fs, []);
    assert EncodeFrames(fs) + [] == EncodeFrames(fs);
    assert Varint.Decode([], 0).Short?;
    assert fs + [] == fs;
  }

  /** A frame with another flag is not received behind a torn one. */
  lemma {:induction false} FrameLostBehind(parse: Parser, torn: Frame, k: nat) returns (lost: Frame)
    requires Sendable(torn) && 0 < k < |EncodeFrame(torn)|
    requires Incremental(parse) && parse == Parse
    ensures Sendable(lost)
    ensures ParseAll(parse, EncodeFrame(torn)[..k] + EncodeFrames([lost])).frames != [lost]
  {
    lost := Frame(0, if torn.flag == 0 then 1 else 0, []);
    var b := EncodeFrame(torn)[..k] + EncodeFrames([lost]);
    assert parse(b).Parsed? ==> parse(b).frame.flag == torn.flag by { TornFlag(torn, k, EncodeFrames([lost])); }
    if parse(b).Parsed? {
      var r := ParseAll(parse, b[parse(b).used..]);
      assert ParseAll(parse, b).frames[0] == parse(b).frame;
    }
  }

  // Two instances of a complete send behind a torn one.

  function TwoSends(torn: Frame, k: nat, complete: Frame): SendLog
  {
    [Attempt(torn, EncodeFrame(torn), k), Attempt(complete, EncodeFrame(complete), |EncodeFrame(complete)|)]
  }

  lemma {:induction false} TwoSendsOut(torn: Frame, k: nat, complete: Frame)
    requires Sendable(torn) && Sendable(complete) && 0 < k < |EncodeFrame(torn)|
    ensures FrameLog(TwoSends(torn, k, complete)) && !Orderly(TwoSends(torn, k, complete))
    ensures WholeItems(TwoSends(torn, k, complete)) == [complete]
    ensures Out(TwoSends(torn, k, complete)) == EncodeFrame(torn)[..k] + EncodeFrame(complete)
  {
    var log := TwoSends(torn, k, complete);
    assert FrameLog(log);
    TornThenWhole(log[0], log[1]);
  }

  /** It can be lost: the peer waits for more of the torn frame. */
  lemma {:induction false} CompleteSendLost()
    ensures var log := TwoSends(Frame(1, 2, [7, 7, 7]), 1, Frame(2, 2, [9]));
      && FrameLog(log) && WholeItems(log) == [Frame(2, 2, [9])]
      && Out(log) == [10, 18, 1, 9] && Parse(Out(log)).Incomplete?
  {
    var torn, complete := Frame(1, 2, [7, 7, 7]), Frame(2, 2, [9]);
    assert EncodeFrame(torn) == [10] + [3] + [7, 7, 7] && EncodeFrame(complete) == [18] + [1] + [9];
    TwoSendsOut(torn, 1, complete);
    var b := [10, 18, 1, 9];
    assert EncodeFrame(torn)[..1] + EncodeFrame(complete) == b;
    assert Varint.Decode(b, 0) == Varint.Value(10, 1) && Varint.Decode(b[1..], 0) == Varint.Value(18, 1);
  }

  /** And it can be received by chance: the torn header may read as a longer form of the complete one. */
  lemma {:induction false} CompleteSendByChance()
    ensures var log := TwoSends(Frame(16, 0, []), 1, Frame(0, 0, []));
      && FrameLog(log) && WholeItems(log) == [Frame(0, 0, [])]
      && Out(log) == [128, 0, 0] && Parse(Out(log)) == Parsed(Frame(0, 0, []), 3)
  {
    var torn, complete := Frame(16, 0, []), Frame(0, 0, []);
    LongZero([128, 0, 0]);
    assert EncodeFrame(torn)[..1] == [128] by { assert Varint.Encode(128) == [128] + Varint.Encode(1); }
    assert EncodeFrame(complete) == [0] + [0] + [];
    TwoSendsOut(torn, 1, complete);
    assert [128] + [0, 0] == [128, 0, 0];
  }

  lemma {:induction false} LongZero(b: seq<Byte>)
    requires b == [128, 0, 0]
    ensures Parse(b) == Parsed(Frame(0, 0, []), 3)
  {
    assert b[1..] == [0, 0] && b[2..] == [0];
    assert Varint.Decode(b[1..], 1) == Varint.Value(0, 1);
    assert Varint.Decode(b, 0) == Varint.Value(0, 2) && Varint.Decode(b[2..], 0) == Varint.Value(0, 1);
  }

  datatype SendResult = Sent | UndefinedFlag | PayloadTooLarge | IdOutOfRange | CapReached | WriteFailed

  /**
   * How one call extends the log: not at all when it is refused, and otherwise by the frame and as many of its bytes as
   * the socket accepts; the call succeeds when these are all and the socket reports no error.
   */
  ghost predicate Logs(before: SendLog, after: SendLog, f: Frame, accepted: nat, failed: bool, r: SendResult)
  {
    if !Sendable(f) || r == CapReached then after == before
    else
      && |after| == |before| + 1 && after[..|before|] == before
      && var a := after[|before|];
         && a.item == f && a.bytes == EncodeFrame(f) && a.taken == Min(accepted, |a.bytes|)
         && r == if a.taken == |a.bytes| && !failed then Sent else WriteFailed
  }

  lemma {:induction false} ReadNext(stream: seq<Byte>, pieces: seq<seq<Byte>>, i: nat)
    requires i < |pieces|
    ensures stream + Concat(pieces[i..]) == stream + pieces[i] + Concat(pieces[i + 1..])
  {
    assert pieces[i..][1..] == pieces[i + 1..];
    Regroup(stream, pieces[i], Concat(pieces[i + 1..]));
  }

  class Conn {
    var sent: nat
    var received: nat
    const limit: nat
    var buf: seq<Byte>
    const parse: Parser

    /** The sends that were not refused, everything read, and the frames returned by Drain so far. */
    ghost var log: SendLog
    ghost var stream: seq<Byte>
    ghost var delivered: seq<Frame>

    ghost predicate Sending()
      reads this`sent, this`log
    {
      FrameLog(log) && |Out(log)| == sent <= limit <= MAX_SEND
    }

    ghost predicate Receiving()
      reads this`received, this`buf, this`stream, this`delivered
    {
      && |buf| <= received == |stream|
      && Incremental(parse)
      && ParseAll(parse, stream) == Batch(delivered, received - |buf|, buf)
    }

    ghost predicate Valid()
      reads this
    {
      Sending() && Receiving() && parse == Parse
    }

    constructor (maxSend: nat)
      ensures Valid() && log == [] && stream == [] && delivered == []
      ensures limit == if maxSend == 0 || maxSend > 67108864 then 67108864 else maxSend
    {
      limit := if maxSend == 0 || maxSend > MAX_SEND then MAX_SEND else maxSend;
      parse := Parse;
      sent, received, buf := 0, 0, [];
      log, stream, delivered := [], [], [];
      ParseIsIncremental();
    }

    /**
     * `accepted` and `failed` are the socket's answer: how many bytes it takes and whether it reports an error, which a
     * short write always does.
     */
    method Send(id: Uint64, flag: nat, payload: seq<Byte>, accepted: nat, failed: bool) returns (r: SendResult)
      requires Valid() && flag <= FLAG_RESET_INIT
      modifies this`sent, this`log
      ensures Valid()
      ensures r == PayloadTooLarge <==> |payload| > 1048576
      ensures r == IdOutOfRange <==> |payload| <= 1048576 && id > 1152921504606846976
      ensures r == CapReached <==>
        var f := Frame(id, flag, payload); Sendable(f) && old(sent) + |EncodeFrame(f)| > limit
      ensures Logs(old(log), log, Frame(id, flag, payload), accepted, failed, r)
      ensures r != UndefinedFlag
    {
      if |payload| > MAX_FRAME { return PayloadTooLarge; }
      if id > MAX_STREAM_ID { return IdOutOfRange; }
      var header := id * 8 + flag;
      var frame := Varint.Encode(header);
      frame := frame + Varint.Encode(|payload|);
      frame := frame + payload;
      if sent + |frame| > limit { return CapReached; }
      var n := Min(accepted, |frame|);
      sent := sent + n;
      Snoc(log, Attempt(Frame(id, flag, payload), frame, n));
      log := log + [Attempt(Frame(id, flag, payload), frame, n)];
      r := if failed || n < |frame| then WriteFailed else Sent;
    }

    /** Conn.Frame: a frame with a caller-chosen flag. */
    method WriteFrame(id: Uint64, flag: Uint64, payload: seq<Byte>, accepted: nat, failed: bool) returns (r: SendResult)
      requires Valid()
      modifies this`sent, this`log
      ensures Valid()
      ensures r == UndefinedFlag <==> flag > 6
      ensures r == PayloadTooLarge <==> flag <= 6 && |payload| > 1048576
      ensures r == IdOutOfRange <==> flag <= 6 && |payload| <= 1048576 && id > 1152921504606846976
      ensures r == CapReached <==>
        var f := Frame(id, flag, payload); Sendable(f) && old(sent) + |EncodeFrame(f)| > limit
      ensures Logs(old(log), log, Frame(id, flag, payload), accepted, failed, r)
    {
      if flag > FLAG_RESET_INIT { return UndefinedFlag; }
      r := Send(id, flag, payload, accepted, failed);
    }

    /**
     * The reads of one Drain call: the last one comes with the error that ends the call, which is either the read
     * deadline or a failure.
     */
    method Drain(pieces: seq<seq<Byte>>, deadline: bool) returns (frames: seq<Frame>, failed: bool)
      requires Valid() && pieces != []
      modifies this`received, this`buf, this`stream, this`delivered
      ensures Valid()
      ensures stream == old(stream) + Concat(pieces)
      ensures delivered == old(delivered) + frames
      ensures failed == !deadline
    {
      frames := ReadAll(pieces);
      failed := !deadline;
    }

    /** The loop of Drain. */
    method ReadAll(pieces: seq<seq<Byte>>) returns (frames: seq<Frame>)
      requires Receiving()
      modifies this`received, this`buf, this`stream, this`delivered
      ensures Receiving()
      ensures stream == old(stream) + Concat(pieces)
      ensures delivered == old(delivered) + frames
    {
      ghost var all := stream + Concat(pieces);
      assert pieces[0..] == pieces;
      frames := [];
      for i := 0 to |pieces|
        invariant Receiving()
        invariant stream + Concat(pieces[i..]) == all
        invariant delivered == old(delivered) + frames
      {
        ReadNext(stream, pieces, i);
        var got := Absorb(pieces[i]);
        frames := frames + got;
      }
    }

    /** What one Read does to the connection. */
    method Absorb(chunk: seq<Byte>) returns (frames: seq<Frame>)
      requires Receiving()
      modifies this`received, this`buf, this`stream, this`delivered
      ensures Receiving()
      ensures stream == old(stream) + chunk && delivered == old(delivered) + frames
      ensures frames == ParseAll(parse, old(buf) + chunk).frames
      ensures buf == ParseAll(parse, old(buf) + chunk).rest
    {
      ParseAllRead(parse, stream, chunk);
      received := received + |chunk|;
      frames := ParseBuffer(chunk);
      stream, delivered := stream + chunk, delivered + frames;
    }

    /** The inner loop: append what was read, then take frames off the front while there are any. */
    method ParseBuffer(chunk: seq<Byte>) returns (frames: seq<Frame>)
      requires Incremental(parse)
      modifies this`buf
      ensures frames == ParseAll(parse, old(buf) + chunk).frames
      ensures buf == ParseAll(parse, old(buf) + chunk).rest
    {
      ghost var whole := ParseAll(parse, buf + chunk);
      ghost var consumed: nat := 0;
      buf := buf + chunk;
      frames := [];
      while true
        invariant ParseAll(parse, buf).Preceded(frames, consumed) == whole
        decreases |buf|
      {
        ParseAllStep(parse, buf, frames, consumed);
        var r := parse(buf);
        if r.Incomplete? { break; }
        frames := frames + [r.frame];
        consumed := consumed + r.used;
        buf := buf[r.used..];
      }
    }
  }

  /**
   * Two connections, end to end, after any calls on both: a receiver that has read all that the sender wrote has
   * delivered exactly the completely sent frames, unless bytes were sent behind a torn frame.
   */
  lemma {:induction false} ReceiverGetsSends(sender: Conn, receiver: Conn)
    requires sender.Valid() && receiver.Valid()
    requires Orderly(sender.log) && receiver.stream == Out(sender.log)
    ensures receiver.delivered == WholeItems(sender.log) && receiver.buf == Tail(sender.log)
  {
    LogParses(receiver.parse, sender.log);
  }
}
