# Verified models of the protocol cores

The SDK speaks several Ethereum wire protocols. This project models, in Dafny, the parts of it that carry real
invariants, and proves what those parts promise: fork identifiers, the chain-parameter cache, mplex framing, the
DNS discovery tree walk, the req/resp chunk stream and its retry loop, devp2p capability negotiation, the RLPx frame
writer, the RLP and SSZ encoders, and the ETH background reader.

`dafny verify dfyconfig.toml` verifies everything.

| file | models |
|---|---|
| `Base.dfy`, `Ordering.dfy`, `Varint.dfy`, `Sockets.dfy`, `WriteLog.dfy` | bytes and integers, sorting, LEB128 integers, streams with short writes, runs of writes |
| `ForkId.dfy`, `ForkRules.dfy` | `rpc/chainparams.go`: fork identifiers (EIP-2124 and EIP-6122), and their rules in plain heads and bytes |
| `ParamsCache.dfy` | `rpc/chainparams.go`: the bounded cache |
| `Mplex.dfy` | `mplex/mplex.go` |
| `DnsWalk.dfy` | `discovery/dnsdisc.go`: branch records and the walk (EIP-1459) |
| `DnsDepth.dfy` | the depth bound of the walk |
| `RespStream.dfy`, `RespReader.dfy`, `RespFaults.dfy`, `Inbound.dfy` | `reqresp/framing.go`, `reqresp/inbound.go`, the response part of `reqresp/request.go` |
| `Retry.dfy` | `reqresp/request.go`: the retry loops |
| `Caps.dfy` | `eth/caps.go` and the offset shortcuts of `eth/wait.go`, `eth/conn.go`, `wit/conn.go` |
| `Rlpx.dfy`, `RlpxBytes.dfy` | `rlpx/conn.go`: the frame writer, and a frame byte by byte |
| `Rlp.dfy` | `wire.go` |
| `Ssz.dfy`, `SszBytes.dfy` | `reqresp/datacolumnsidecarsbyroot.go`, `reqresp/execution_proofs.go`, and the requests byte by byte |
| `EthReader.dfy` | `eth/conn.go`: the reader goroutine and its consumers |

Imperative code of the source is a method or a class here, proved against a specification function; the properties are
lemmas about those functions. What the environment decides is a parameter: the answers of a socket (`Sockets.Answer`),
the pieces that reads return, the outcome of each connection attempt (`Retry.Attempt`), the interleaving of reader and
consumers (`EthReader.Event`), the clock, and the order in which a Go map is visited, which is left open.

Foreign algorithms are abstract. CRC-32 is any pair of functions (`ForkId.Crc`); where a statement needs it, the prefix
checksums of the schedule are assumed to be pairwise distinct (`DistinctSums`). AES-CTR is a byte stream by position;
Keccak and the MAC block cipher are any functions of the right output size. Base32 decoding of a DNS child name is a
predicate. Framed snappy is a 10-byte stream identifier and a codec for blocks of at most 65536 bytes (`Sound`);
`StoredIsSound` shows that the uncompressed frames of the format meet every assumption.

## Where the code does less than one might expect

These are exact statements about the code, each with its condition and an input on which the code falls short.

- Two nodes of one chain can reject each other, and a node its own identifier, when the next fork is a block fork whose
  number is above the timestamp threshold 1438269973 and the head time has reached that number (`SelfAcceptance`,
  `SameChain`, with the instance `LargeBlockForkRejectsItself`); and a node whose last clock is at 2^64-1 after its
  whole schedule rejects everybody (`DecisionTable`, with the instance `LastBlockJudgesNobody`).
- `evictOldestLocked` uses the empty string as "nothing chosen yet". It finds the oldest entry in every map order
  exactly when that entry's key is not the empty string or is the only key (`EvictionIsDeterministic`, with the instance
  `EmptyKeySurvives`). `FetchChainParams` stores a key only after HTTP calls to it have succeeded, so it never stores
  the empty one; other users of the store could.
- The visited memo of the DNS walk is not tied to a depth, so a path longer than the bound may be accepted or refused
  depending on the order of children. The walk accepts exactly the well-formed trees in which the first path to every
  branch with children, first in the order of the children along it, is shorter than the bound (`WalkExact`). An
  instance for every order is `MemoHidesLongPath`; with a bound no smaller than the number of records only
  well-formedness counts (`WalkDecides`).
- `mplex.Conn` and `rlpx.Conn` go on writing after a write that failed halfway. Whatever is sent later still arrives,
  for every continuation, exactly when the last write was not torn (`LaterSendsArriveIff`, with the instance
  `CompleteSendLost`; `LaterFramesArriveIff`). For one particular continuation it may arrive by chance
  (`CompleteSendByChance`). An RLPx write of which no byte went out has still advanced the keystream and the MAC, so it
  counts as incomplete; that a later frame is then not read takes a frame whose header MACs in the two states differ.
  A response stream is reset after a failed write, so its runs always end there (`ReaderGetsResponses`); without the
  reset the condition is the same (`LaterChunksArriveIff`).
- A response cut inside a chunk is sometimes taken for a clean end, because the wrapped `io.EOF` still matches
  `errors.Is`. `CutClassification` gives the offsets exactly, and `TruncatedResponse` their effect on a request, down to
  an empty response for a cut in the first chunk; an inbound request body has no such offsets (`CutRequestRefused`). The
  comment on `Next` only mentions `io.EOF` after a clean stream end.
- A stream that breaks without an EOF is taken for one that ended, exactly when frames without data fill the limit of a
  body, since the limit reader then ends with an EOF of its own (`BrokenIff`, with the instance
  `FilledLimitLooksClean`, whose frames exist by `StoredEmptyFrame`). An honest response never does that (`BrokenChunk`).
- A consumer can be told of a failure while messages are queued. No continuation of a run does that exactly when the
  queue was empty at the moment `dead` was closed (`DrainBeforeFailureIff`, with the instance
  `FailureCanOvertakeMessages`).
- The WIT offset shortcut is right exactly when SNAP is not negotiated (`WitShortcutIff`); the list that package `wit`
  offers guarantees that (`WitDialShortcut`).

## Model

| member | source | states |
|---|---|---|
| ForkId.ComputeForkID | rpc/chainparams.go:303-318 | the identifier is the checksum of all forks before the first one not passed, with that fork (or zero) as next |
| ForkId.ValidateForkID | rpc/chainparams.go:205-249 | the independent scan with sentinel stops at the same fork and gives the verdict of the rules tried there |
| ForkId.DecisionTable | rpc/chainparams.go:205-249 | with distinct checksums, accepted if and only if one of the three EIP-2124 rules holds; each refusal that names no fork, and the invalid-state error, with its exact condition |
| ForkId.StaleSubsetIff | rpc/chainparams.go:233-240 | the refusal that names a fork occurs exactly for a peer behind that passed fork which does not announce it |
| ForkId.SelfAcceptance | rpc/chainparams.go:227-232 | without any assumption on checksums, a node accepts its own identifier if and only if it is in neither corner case |
| ForkId.SameChain | rpc/chainparams.go:205-249 | for any two heads of one chain, exactly when one node's validation accepts the other's identifier |
| ForkId.SameChainMutual | rpc/chainparams.go:205-249 | with block forks at most the threshold and heads below 2^64-1 both nodes accept each other |
| ForkId.LargeBlockForkRejectsItself | rpc/chainparams.go:228-230 | an input on which a node rejects itself |
| ForkId.LastBlockJudgesNobody | rpc/chainparams.go:216-249 | an input on which a node rejects every identifier |
| ForkId.UnknownFork | rpc/chainparams.go:227-246 | a node that lacks a fork: refused by both sides once the fork is passed; just before it accepted, and accepting until its head reaches the announced fork; further back both accept |
| ForkId.ParseForkSchedule | rpc/chainparams.go:343-370 | fails exactly on an unreadable relevant entry; otherwise both lists are strictly increasing and hold exactly the listed non-zero block and post-genesis time forks |
| ForkId.ScheduleUnique | rpc/chainparams.go:345-368 | a config describes one schedule, so map order cannot matter |
| ForkId.StalePeerRejected | rpc/chainparams.go:233-240 | with a parsed schedule, a peer that announces no next fork behind a passed fork is never accepted |
| ForkRules.PositionMeans | rpc/chainparams.go:219-226 | the position is the first fork not passed: block forks against the head number, timestamp forks against the head time |
| ForkRules.ExhaustedMeans | rpc/chainparams.go:213-248 | the invalid state: every fork passed and the last clock at 2^64-1 |
| ForkRules.AnnouncedForkIff | rpc/chainparams.go:227-232 | rule 1a in heads and literals: when a peer with the local checksum is refused for the fork it announces |
| ForkRules.PassedWithoutSplitting | rpc/chainparams.go:227-232 | a peer that announces a block fork which the local chain passed without splitting is refused, and the three neighbouring cases are accepted |
| ForkRules.ChecksumBytes | rpc/chainparams.go:392-402 | a checksum is four bytes and a fork enters it as eight, most significant first |
| ForkRules.FirstSums | rpc/chainparams.go:303-311 | the checksum of the genesis, and of the genesis and the first fork |
| ForkRules.KindBySpelling | rpc/chainparams.go:380-390 | a name followed by Block, Transition, Time or TransitionTimestamp is a fork entry of that kind |
| ForkRules.KindOnlyBySpelling | rpc/chainparams.go:380-390 | and no entry of another spelling is one, whatever the case |
| ForkRules.SampleSchedule | rpc/chainparams.go:343-370 | a config with every kind of entry describes one schedule, spelled out |
| ParamsCache.CacheStore.constructor | rpc/chainparams.go:57-62 | starts empty with a positive limit |
| ParamsCache.CacheStore.PruneExpired | rpc/chainparams.go:95-101 | keeps exactly the unexpired entries |
| ParamsCache.CacheStore.EvictOldest | rpc/chainparams.go:103-113 | removes the key that the scan finds in some visiting order |
| ParamsCache.EvictionIsDeterministic | rpc/chainparams.go:103-113 | one entry is the oldest, and every visiting order finds it if and only if its key is not empty or is the only one |
| ParamsCache.EmptyKeySurvives | rpc/chainparams.go:103-113 | an input and an order on which another entry is evicted |
| ParamsCache.CacheStore.Load | rpc/chainparams.go:64-70 | prunes, then returns what is stored |
| ParamsCache.CacheStore.Store | rpc/chainparams.go:72-80 | prunes, evicts one entry only for a new key in a full cache, then stores |
| ParamsCache.CacheStore.Clear | rpc/chainparams.go:82-86 | empties the cache |
| ParamsCache.CacheStore.Len | rpc/chainparams.go:88-93 | counts after pruning |
| ParamsCache.StoreMeans | rpc/chainparams.go:72-80 | after a store the entry is there, the others are old and unexpired, and one unexpired entry is missing only for a new key in a full cache |
| ParamsCache.RunKeepsBound | rpc/chainparams.go:72-80 | no reachable state holds more than the limit |
| ParamsCache.LoadIsLatestAndLive | rpc/chainparams.go:64-86 | over every run, Load returns only the latest entry stored under the key since Clear, unexpired |
| ParamsCache.LookupContents | rpc/chainparams.go:64-113 | with growing expiries and non-empty keys the contents at a lookup are exactly the unexpired ones among the most recently stored distinct keys, up to the limit |
| Varint.DecodeFits | reqresp/framing.go:190-208 | a decoded varint fits the 64 bits that are left |
| Varint.RoundTrip | mplex/mplex.go:173-174 | an encoded integer followed by anything is read back with its length |
| Varint.EncodeShape | mplex/mplex.go:173-174 | groups of seven bits, least significant first, with the top bit on all bytes but the last |
| Varint.CutIsShort | mplex/mplex.go:217-221 | every strict prefix of an encoding is recognised as incomplete |
| Varint.ShortIff | reqresp/framing.go:190-208 | incomplete means exactly fewer than ten continuation bytes and nothing else |
| Mplex.Parse | mplex/mplex.go:216-227 | a frame, when there is one, uses at least two bytes, so the inner loop makes progress, and carries at most 1 MiB, the last of the used bytes |
| Mplex.ParsedIff | mplex/mplex.go:216-227 | there is a frame exactly when both varints and an announced payload of at most 1 MiB are there |
| Mplex.OversizeBlocks | mplex/mplex.go:221-224 | a larger announcement blocks the stream, whatever follows |
| Mplex.ParseStable | mplex/mplex.go:216-227 | bytes after a complete frame do not change it |
| Mplex.ParseAllAccounts | mplex/mplex.go:189-214 | bytes used by frames and leftover bytes make up the stream, and the leftover holds no frame |
| Mplex.ChunkingIndependence | mplex/mplex.go:189-227 | for every stream and every cut into reads, the frames and the leftover are those of the whole stream |
| Mplex.FrameRoundTrip | mplex/mplex.go:166-175 | the shifted header fits 64 bits and parse inverts send |
| Mplex.TornFrameIncomplete | mplex/mplex.go:216-224 | no strict prefix of a frame parses |
| Mplex.PeerReceivesCompleteSends | mplex/mplex.go:166-227 | for any run of sends without bytes behind a torn frame and any chunking, a peer gets exactly the completely sent frames, in order, and keeps the torn one buffered |
| Mplex.ReceiverGetsSends | mplex/mplex.go:159-214 | the same for two connections after any calls of send, Frame and Drain on them |
| Mplex.LaterSendsArriveIff | mplex/mplex.go:166-227 | after such a run every further run of complete sends is received whole if and only if the last write was not torn |
| Mplex.CompleteSendLost | mplex/mplex.go:180-184 | a complete send behind a torn one that is not received |
| Mplex.CompleteSendByChance | mplex/mplex.go:216-227 | a complete send behind a torn one that is received, because the torn header reads as a longer form of it |
| Mplex.Conn.constructor | mplex/mplex.go:85-87 | the cap is the requested one or the maximum |
| Mplex.Conn.Send | mplex/mplex.go:166-184 | exact conditions of the three refusals, which log nothing; any other call logs the frame and how many of its bytes went out, all of them on success; sent is the number of bytes on the wire and never exceeds the cap |
| Mplex.Conn.WriteFrame | mplex/mplex.go:159-164 | refuses exactly the undefined flags, and otherwise all that is promised of send |
| Mplex.Conn.Drain | mplex/mplex.go:189-214 | all frames delivered since the start, the buffer and the received count are those of the whole received stream |
| Mplex.Conn.Absorb | mplex/mplex.go:195-205 | one read delivers the frames completed by it |
| Mplex.Conn.ParseBuffer | mplex/mplex.go:197-205 | takes every frame off the front of the buffer |
| DnsWalk.ValidateBranch | discovery/dnsdisc.go:91-113 | accepts exactly the bare prefix, and the prefix with one to thirteen usable names between commas |
| DnsWalk.BranchIff | discovery/dnsdisc.go:97-113 | and the children are none, or those names |
| DnsWalk.RootVerdicts | discovery/dnsdisc.go:148-170 | the verdict on a root that has no children, for every bound |
| DnsWalk.ChildVerdicts | discovery/dnsdisc.go:148-175 | the verdict on an only child: depth before a cycle, a cycle before the record |
| DnsWalk.TwoRecords | discovery/dnsdisc.go:143-180 | two records as published, a root and an empty branch, are accepted |
| DnsWalk.BranchChildren | discovery/dnsdisc.go:167-171 | the children the walk visits are those that were validated |
| DnsWalk.JoinSplit | discovery/dnsdisc.go:100-104 | the fields of a record contain no comma and join back to it |
| DnsWalk.BranchRoundTrip | discovery/dnsdisc.go:91-113 | one to thirteen usable names survive being written as a record |
| DnsWalk.Walker.Guard | discovery/dnsdisc.go:148-170 | the checks before a branch is expanded, in order |
| DnsWalk.Walker.VisitChildren | discovery/dnsdisc.go:171-175 | visits the children until one fails |
| DnsWalk.Walker.Visit | discovery/dnsdisc.go:147-178 | verdict, memo and number of calls are those of the specification, and the current path is restored |
| DnsWalk.ValidateDNSBranchWalk | discovery/dnsdisc.go:143-180 | the verdict is that of the walk from the root over the graph of the records |
| DnsWalk.RefusalIsJustified | discovery/dnsdisc.go:148-163 | every error points at a real fault: a path longer than the bound, a cycle, a missing or a malformed record reachable from the root |
| DnsWalk.WalkSound | discovery/dnsdisc.go:143-180 | acceptance means every reachable name is present, valid, on no cycle and within the depth bound by some path |
| DnsWalk.WalkComplete | discovery/dnsdisc.go:143-180 | a well-formed tree without a longer path is accepted |
| DnsWalk.WalkCost | discovery/dnsdisc.go:143-180 | on every graph each name is expanded at most once and there are at most 1 + 13 calls per record |
| DnsDepth.WalkExact | discovery/dnsdisc.go:143-180 | for every graph, root and bound: accepted if and only if the tree is well-formed and the first path to every branch with children is shorter than the bound |
| DnsDepth.FirstPathExists | discovery/dnsdisc.go:171-175 | every name of a well-formed tree has a path that comes before all others to it |
| DnsDepth.FirstPathIs | discovery/dnsdisc.go:171-175 | and only one |
| DnsDepth.WalkSees | discovery/dnsdisc.go:154-177 | an accepting walk leaves in the memo exactly the branches on paths that turn off before, at or below the current one |
| DnsDepth.WalkDecides | discovery/dnsdisc.go:143-180 | with a bound no smaller than the number of records, accepted if and only if well-formed |
| DnsDepth.MemoHidesLongPath | discovery/dnsdisc.go:154-156 | a family of trees with a path longer than the bound, accepted exactly for certain orders of children |
| Sockets.WriteFull | reqresp/framing.go:37-52 | the whole payload is taken, exactly if every write makes progress without an error; otherwise the error of the last write, and a prefix |
| Sockets.WriteAll | rlpx/conn.go:266-276 | the same for the RLPx write loop over a socket that keeps its contract |
| RespStream.WriteSSZSnappy | reqresp/framing.go:20-35 | writes the length prefix and the framed blocks, or a prefix of them and an error |
| RespStream.CompressShape | reqresp/framing.go:26-33 | blocks of 65536 bytes but for the last, and nothing for an empty payload |
| RespStream.WriteResponseChunk | reqresp/inbound.go:196-215 | refuses a wrong context length without writing; otherwise writes exactly the chunk or a prefix and an error, and succeeds exactly if every write on the stream does |
| RespStream.NewReader | reqresp/framing.go:114-131 | a reader exactly for bounds from one to the hard ceilings |
| RespStream.LimitIsGenerous | reqresp/framing.go:210-219 | the compressed form of any payload fits the limit |
| RespStream.StoredIsSound | reqresp/framing.go:26-33 | the assumptions on the block codec can be met |
| RespStream.NextKeepsBounds | reqresp/framing.go:160-187 | every chunk consumes input, is counted, and leaves total within the ceiling |
| RespStream.ChunkRoundTrip | reqresp/framing.go:134-188 | a written chunk is read back identical and the reader stands at the next one |
| RespStream.WholeStreamRoundTrip | reqresp/framing.go:134-188 | any list within the ceilings comes back identical, then a bare io.EOF |
| RespStream.CeilingsHold | reqresp/framing.go:138-171 | on any input what is read respects the three ceilings |
| RespStream.CutClassification | reqresp/framing.go:146-187 | for every offset of a cut inside a chunk, whether the error still matches io.EOF |
| RespStream.CutStream | reqresp/framing.go:134-188 | a cut stream yields the chunks before the cut and then that error |
| Inbound.AcceptedIsBounded | reqresp/inbound.go:166-193 | an accepted body has the announced length, within the ceiling |
| Inbound.RequestRoundTrip | reqresp/inbound.go:166-193 | a written body is read back, whatever follows it, exactly within the reader's bounds |
| Inbound.CutRequestRefused | reqresp/inbound.go:166-193 | no strict prefix of a body is accepted |
| Inbound.InboundRequest.WriteResponse | reqresp/inbound.go:50-65 | a refused chunk logs nothing; any other logs how many of its bytes went out, all of them on success; a failure resets the stream, so that nothing follows |
| Inbound.ReaderGetsResponses | reqresp/inbound.go:50-65 | after any calls, a reader gets exactly the chunks that went out completely, and a clean end unless the last was torn |
| Inbound.ResponsesArrive | reqresp/inbound.go:196-215 | the same for any run without bytes behind a torn chunk, with the error behind a torn one |
| Inbound.LaterChunksArriveIff | reqresp/inbound.go:196-215 | after such a run every further run of complete chunks arrives if and only if the last write was not torn |
| RespReader.ResponseReader.ReadUvarint | reqresp/framing.go:190-208 | value and bytes consumed, or how it failed |
| RespReader.ResponseReader.Next | reqresp/framing.go:134-188 | outcome and new state are those of the specification; a clean end changes nothing, and the bounds survive every failure |
| RespReader.ResponseReader.NextPayload | reqresp/framing.go:160-171 | the length prefix is checked against both ceilings before it is counted |
| RespReader.ResponseReader.ReadPayload | reqresp/framing.go:172-187 | the payload is inflated under the limit, not reading past its last frame |
| RespReader.CollectResponse | reqresp/request.go:129-159 | the result of reading the response of one request |
| RespReader.CollectMeans | reqresp/request.go:134-159 | it is everything readable up to the first error chunk, empty only for no chunk, failed only for an error that does not match io.EOF |
| RespReader.ResultShape | reqresp/request.go:142-159 | a successful result is not empty and is successes followed by at most one error chunk |
| RespReader.HonestResponse | reqresp/request.go:129-159 | an honest response is returned whole |
| RespReader.TruncatedResponse | reqresp/request.go:129-159 | for a cut in any chunk and both kinds of request: the chunk asked for, the chunks up to an error chunk, or, exactly at the silent offsets, a short success or an empty response |
| RespFaults.SilentIff | reqresp/framing.go:134-188 | for every input, where exactly a failure still matches io.EOF |
| RespFaults.GotMeans | reqresp/framing.go:146-187 | code, context and size of a chunk are those on the wire |
| RespFaults.BrokenIff | reqresp/framing.go:134-188 | on a stream that breaks without an EOF the failure matches io.EOF exactly when a limit is filled without data |
| RespFaults.BrokenChunk | reqresp/framing.go:146-187 | an honest chunk that breaks off anywhere is never taken for a clean end |
| RespFaults.BrokenResponse | reqresp/request.go:129-159 | for every broken input, what a request returns |
| RespFaults.BrokenHonestResponse | reqresp/request.go:129-159 | an honest response that breaks fails, unless the one chunk asked for or an error chunk came before |
| RespFaults.BrokenBeforePayload | reqresp/framing.go:184-186 | a break behind the length is a failure, an EOF there a clean end |
| RespFaults.FilledLimitLooksClean | reqresp/framing.go:182-186 | a broken stream that is taken for one that ended |
| RespFaults.LongBlock | reqresp/framing.go:182-186 | a block longer than the announced payload is cut to it, unless the limit cuts the frame |
| RespFaults.ErrorEndsResponse | reqresp/request.go:142-159 | an error chunk is returned last, whatever follows it |
| Retry.Request | reqresp/request.go:163-208 | outcome and trace of the loop in every environment; each of the five outcomes exactly for what the last attempt met, and every attempt before it retryable and paused for |
| Retry.Try | reqresp/request.go:180-205 | one attempt, ending in a result or in another attempt with nothing sent |
| Retry.SentAtMostOnce | reqresp/request.go:163-208 | at most three attempts, at most one send, no attempt after a send, and the trailing return of lastErr is unreachable |
| Retry.RetriedIff | reqresp/request.go:227-255 | another attempt exactly after a retryable failure that sent nothing and an uninterrupted pause |
| Retry.OutcomeIff | reqresp/request.go:180-206 | the same from any attempt on |
| Retry.EventsOfAttempt | reqresp/request.go:180-205 | what one attempt does, in order |
| Retry.SentIff | reqresp/request.go:168-177 | the request is sent exactly when the last attempt got that far |
| Caps.NegotiatedCapabilities | eth/caps.go:105-136 | an error exactly for an unsupported local entry; otherwise names ascend and each entry is the highest common version of a common name, none missing |
| Caps.LocalVersions | eth/caps.go:106-117 | the index of local versions, or the refusal |
| Caps.HighestVersions | eth/caps.go:119-124 | the maximum common version per common name |
| Caps.KeysSorted | eth/caps.go:125-129 | the names in strictly increasing order |
| Caps.NegotiationAgrees | eth/caps.go:105-136 | the result does not depend on order, repetition or which side is local |
| Caps.CapabilityOffset | eth/caps.go:141-154 | the offset is the start of the capability's range; no error on supported lists |
| Caps.RangesTile | eth/caps.go:141-154 | the ranges start at 16, are contiguous and disjoint: every code below the end has exactly one owner and no other code has any |
| Caps.PeersRouteAlike | eth/caps.go:105-154 | both peers map every wire code to the same capability and relative code |
| Caps.EthStartsAt16 | eth/wait.go:29 | ETH starts at 16 in every negotiation that contains it |
| Caps.FullLayout | eth/caps.go:91-175 | the ranges of all three protocols in numbers, for every version |
| Caps.SupportedList | eth/caps.go:50-61 | the eight supported capabilities |
| Caps.HighestWins | eth/caps.go:119-124 | every common capability is matched by one of its name that both sides list, of at least its version |
| Caps.Defaults | eth/caps.go:63-76 | what a configuration without a list offers |
| Caps.ZeroOffsetIff | eth/conn.go:361-364 | a zero SNAP offset means exactly that SNAP was not negotiated |
| Caps.WitShortcutIff | wit/conn.go:65-74 | ETH offset plus ETH length is the WIT offset if and only if SNAP is not negotiated |
| Caps.WitDialShortcut | wit/conn.go:46-74 | so it is right for the list that the package offers, whenever the peer has wit/1 |
| Caps.EthCapabilities | eth/caps.go:78-86 | the versions from the maximum down to 68 |
| Caps.Capabilities | eth/caps.go:63-76 | the listed capabilities, or the ETH versions followed by the SNAP version if any; all supported, so negotiation does not refuse them |
| Rlpx.FrameMAC.HeaderTag | rlpx/conn.go:279-281 | sixteen bytes enter the hash, the encrypted head of the digest xored with the header, and the tag is the head of the new digest |
| Rlpx.HeaderCovered | rlpx/conn.go:289-296 | different headers leave different bytes in the hash |
| Rlpx.FrameMAC.FrameTag | rlpx/conn.go:283-287 | the frame enters the hash, then the encrypted head of the digest xored with the digest, and the tag is the head of the new digest |
| Rlpx.FrameMAC.Compute | rlpx/conn.go:289-296 | absorbs the block-encrypted digest xored in place with the seed and returns the head of the new digest |
| Base.XorBit | rlpx/conn.go:291-293 | exclusive or, bit by bit |
| RlpxBytes.HeaderOnWire | rlpx/conn.go:250-253 | every byte of the header: size, header data and zeros under the keystream |
| RlpxBytes.BodyOnWire | rlpx/conn.go:255-259 | every byte of the body: plaintext and zeros under the keystream sixteen bytes on |
| RlpxBytes.MacsOnWire | rlpx/conn.go:261-296 | both MACs and the hash that a frame leaves |
| Rlpx.FrameWriter.Write | rlpx/conn.go:243-277 | refused calls change neither state nor wire; accepted ones advance keystream and MAC and put the whole frame, or on a socket error a prefix, on the wire |
| Rlpx.HeaderDecrypts | rlpx/conn.go:250-253 | the decrypted header gives the size and the zero-padded header data |
| Rlpx.FrameRoundTrip | rlpx/conn.go:243-296 | a reader in the same state verifies both MACs, recovers the frame and ends in the writer's state |
| Rlpx.TornFrameUnread | rlpx/conn.go:266-276 | a frame cut short by a failed write is never delivered |
| Rlpx.RlpxRunRoundTrip | rlpx/conn.go:243-296 | the same over any run of accepted frames |
| Rlpx.Conn.WriteRawFrame | rlpx/conn.go:233-241 | a refused call logs nothing; any other logs its frame and how many of its bytes went out; wire and writer state are those of the log |
| Rlpx.PeerGetsWrites | rlpx/conn.go:234-277 | after any calls, none of them behind an incomplete one, a peer gets exactly the frames that went out completely and no further one |
| Rlpx.LaterFramesArriveIff | rlpx/conn.go:243-277 | after such a run every further run of frames arrives if and only if the last write went out completely |
| Rlpx.RlpxRuns | rlpx/conn.go:243-296 | both for the RLPx framing with any crypto, given for a write of which no byte went out a frame without a MAC collision |
| Rlp.MinimalBigEndian | wire.go:44-52 | the big-endian form without leading zeros |
| Rlp.NoLeadingZeroIsMinimal | wire.go:44-52 | any form without a leading zero is that one |
| Rlp.EncodeRLPBytes | wire.go:6-22 | the string encoding: a byte below 0x80 itself, 0x80 plus the size, or 0xb7 plus the width of the size without leading zeros |
| Rlp.EncodeRLPList | wire.go:25-42 | the list encoding of the concatenated items: 0xc0 plus the size, or 0xf7 plus its width |
| Rlp.RoundTrip | wire.go:6-42 | for every item tree, strict decoding of its encoding followed by anything gives the tree and the rest |
| Rlp.Canonical | wire.go:6-52 | whatever the strict decoder accepts is the encoding of what it returns |
| Rlp.UniqueDecodability | wire.go:6-42 | encodings are injective and prefix-free |
| Ssz.SSZDataColumnsByRootIdentifiers | reqresp/datacolumnsidecarsbyroot.go:26-54 | the offset table followed by the identifiers within the bounds, else the refusal; the overflow guard never fires |
| Ssz.FillColumns | reqresp/datacolumnsidecarsbyroot.go:43-52 | the second pass fills the buffer completely |
| Ssz.WriteColumns | reqresp/datacolumnsidecarsbyroot.go:46-50 | one identifier written in place, nothing else touched |
| Ssz.OffsetsTile | reqresp/datacolumnsidecarsbyroot.go:43-52 | offsets start after the table, advance by each part and end at the end of the buffer, with each part in its place |
| SszBytes.ColumnsOnWire | reqresp/datacolumnsidecarsbyroot.go:42-53 | each identifier byte by byte: its offset, root, the offset 36 and the columns, least significant byte first |
| SszBytes.ProofsOnWire | reqresp/execution_proofs.go:52-61 | the same for proof identifiers |
| Ssz.PartsRoundTrip | reqresp/datacolumnsidecarsbyroot.go:42-53 | the SSZ rules recover every part |
| Ssz.ColumnsRoundTrip | reqresp/datacolumnsidecarsbyroot.go:26-54 | within the bounds neither int nor uint32 overflows and every root and column list is recovered |
| Ssz.SSZExecutionProofsByRoot | reqresp/execution_proofs.go:42-63 | the encoding, or an error exactly outside the bounds |
| Ssz.FillProofs | reqresp/execution_proofs.go:54-61 | the second pass fills the buffer completely |
| Ssz.ProofsRoundTrip | reqresp/execution_proofs.go:42-63 | every identifier is recovered |
| EthReader.Conn.SetReadError | eth/conn.go:502-511 | the first error is kept |
| EthReader.Conn.SetDisconnectReason | eth/conn.go:477-486 | the first non-empty reason is kept |
| EthReader.Conn.QueueMessage | eth/conn.go:523-531 | queues below the capacity, otherwise records the full queue |
| EthReader.Conn.CloseDead | eth/conn.go:540-546 | closes once |
| EthReader.Conn.ReadOne | eth/conn.go:547-575 | one turn of the reader loop is the sequence of the reader's atomic steps; it stops exactly when `dead` is closed |
| EthReader.Conn.Receive | eth/conn.go:400-402 | takes the oldest queued message |
| EthReader.Conn.TakeUntil | eth/conn.go:417-422 | discards messages before the first with the wanted code and keeps those after it |
| EthReader.RunKeepsInv | eth/conn.go:523-575 | in every interleaving of the reader's atomic steps with consumers and closers of the socket, the invariant of queue, error, close and counters holds |
| EthReader.ReaderConserves | eth/conn.go:523-575 | messages handed out and queued are the data messages read, in order, minus the last one while the reader holds it or after the queue overflowed |
| EthReader.DataMeans | eth/conn.go:553-573 | data is every message with a code other than 1, 2 and 3 |
| EthReader.OverflowAtCapacity | eth/conn.go:523-531 | the queue overflows with exactly 256 messages in it |
| EthReader.PingsAnswered | eth/conn.go:558-563 | one pong per ping, but for one being handled and one whose write failed, which ends the loop |
| EthReader.OverIsFinal | eth/conn.go:539-575 | once the reader has left its loop nothing is read or queued, what consumers will be told is fixed before `dead` closes, and it closes at most once |
| EthReader.ReportsAreAccurate | eth/conn.go:513-521 | every report to a consumer: a Disconnect exactly if one was read, with the reason decoded from it, the full queue exactly if a message was lost, the failed pong exactly if a ping went unanswered |
| EthReader.DrainBeforeFailureIff | eth/conn.go:400-424 | however a run goes on, no failure is reported ahead of a queued message, if and only if the queue was empty when `dead` was closed |
| EthReader.FailureCanOvertakeMessages | eth/conn.go:400-404 | a run in which a consumer is told of the failure ahead of a queued message |

## Left out

- Dialing, sockets, deadlines, contexts, HTTP and JSON-RPC: their outcomes are parameters.
- ECIES, secp256k1, AES, Keccak, CRC-32, base32 and snappy compression: abstract, as described above; the handshake and key derivation are not part of this model.
- discv4 and discv5 sessions, gossipsub, message structs, `result/`, `session/`, `utils/`, `run.go`: no invariant beyond fixed layouts.
- singleflight in `FetchChainParams`: cache operations are atomic here.
- ForkId.ParseForkSchedule: parsing one JSON integer is an abstract function, and lower-casing a key covers ASCII letters only.
- Mplex.Conn.Drain: the received counter is not wrapped at 2^64 bytes.
- RespReader.ResponseReader.Next: after a failed call other than a clean end, how much of the input was consumed is left open, since callers then reset the stream.
- RespStream.WriteSSZSnappy: the snappy writer is modelled as one full write per frame; how it groups bytes into writes is not visible in the result.
- The wait for an inbound stream in `reqresp/inbound.go` around `ReadSSZSnappy`: a hand-over through two one-slot channels.
- `Session.Request`'s choice of one chunk out of the collected ones, and the loop of `wit.Conn.ReadRaw` around its range filter: one branch each.
- Retry.Request: the two retry loops in the source are the same apart from the result type and are modelled once; error texts are reduced to retryable or not.
- Rlpx: `Conn.Write`, which prefixes a message code and optionally compresses before calling the modelled writer.
- `SSZExecutionProofsByRange` and `SSZExecutionProofStatus`: fixed offsets only.
- EthReader: the timeout and cancellation arms of the selects, which change no shared state; the writing side shares only a mutex with the reader.
- Inbound.InboundRequest.WriteResponse: `WriteRaw` on the same stream is left out, since it may write anything.
