/** EIP-2124 fork identifiers: computing one, validating a peer's, and reading the schedule from a chain config. */
module ForkId {
  import opened Base
  import opened Ordering

  /** hash/crc32, kept abstract: the checksum of the genesis hash, and its extension by more bytes. */
  datatype Crc = Crc(start: seq<Byte> -> Uint32, update: (Uint32, seq<Byte>) -> Uint32)

  datatype Schedule = Schedule(blocks: seq<Uint64>, times: seq<Uint64>) {
    /** Block forks come before timestamp forks. */
    function Forks(): seq<Uint64> { blocks + times }
  }

  datatype ID = ID(hash: seq<Byte>, next: Uint64)

  /** One node's view: the genesis, its fork schedule and how far its chain has got. */
  datatype ChainParams = ChainParams(genesis: seq<Byte>, headNumber: Uint64, headTime: Uint64, schedule: Schedule)

  datatype Verdict =
    | Compatible
    | StaleOrIncompatible
    | StaleSubset(expected: Uint64)
    | Incompatible
    | InvalidState

  const FORK_TIMESTAMP_THRESHOLD := 1438269973

  function ChecksumUpdate(crc: Crc, hash: Uint32, fork: Uint64): Uint32
  {
    crc.update(hash, BigEndian(fork, 8))
  }

  function ChecksumToBytes(hash: Uint32): seq<Byte>
  {
    BigEndian(hash, 4)
  }

  /** The checksum of the genesis followed by the first `k` forks. */
  function Checksum(crc: Crc, genesis: seq<Byte>, forks: seq<Uint64>, k: nat): Uint32
    requires k <= |forks|
  {
    if k == 0 then crc.start(genesis)
    else ChecksumUpdate(crc, Checksum(crc, genesis, forks, k - 1), forks[k - 1])
  }

  function Sum(crc: Crc, p: ChainParams, k: nat): seq<Byte>
    requires k <= |p.schedule.Forks()|
  {
    ChecksumToBytes(Checksum(crc, p.genesis, p.schedule.Forks(), k))
  }

  ghost predicate DistinctSums(crc: Crc, p: ChainParams)
  {
    forall i, j :: 0 <= i < j <= |p.schedule.Forks()| ==> Sum(crc, p, i) != Sum(crc, p, j)
  }

  /** The clock that fork `i` is compared with; index |Forks()| is the end of the schedule. */
  function HeadFor(p: ChainParams, i: nat): Uint64
  {
    if i < |p.schedule.blocks| || |p.schedule.times| == 0 then p.headNumber else p.headTime
  }

  /** The first fork at or after `from` that the node has not passed. */
  function PositionFrom(p: ChainParams, from: nat): (r: nat)
    requires from <= |p.schedule.Forks()|
    ensures from <= r <= |p.schedule.Forks()|
    decreases |p.schedule.Forks()| - from
  {
    if from == |p.schedule.Forks()| || HeadFor(p, from) < p.schedule.Forks()[from] then from
    else PositionFrom(p, from + 1)
  }

  function Position(p: ChainParams): nat
  {
    PositionFrom(p, 0)
  }

  lemma {:induction false} PositionIs(p: ChainParams, from: nat, i: nat)
    requires from <= i <= |p.schedule.Forks()|
    requires forall j :: from <= j < i ==> HeadFor(p, j) >= p.schedule.Forks()[j]
    requires i < |p.schedule.Forks()| ==> HeadFor(p, i) < p.schedule.Forks()[i]
    ensures PositionFrom(p, from) == i
    decreases i - from
  {
    if from < i { PositionIs(p, from + 1, i); }
  }

  lemma {:induction false} PositionStops(p: ChainParams, from: nat)
    requires from <= |p.schedule.Forks()|
    ensures var i := PositionFrom(p, from);
      i < |p.schedule.Forks()| ==> HeadFor(p, i) < p.schedule.Forks()[i]
    decreases |p.schedule.Forks()| - from
  {
    if from < |p.schedule.Forks()| && HeadFor(p, from) >= p.schedule.Forks()[from] {
      PositionStops(p, from + 1);
    }
  }

  /** What a node whose first unpassed fork is `i` announces. */
  function Announcement(crc: Crc, p: ChainParams, i: nat): ID
    requires i <= |p.schedule.Forks()|
  {
    ID(Sum(crc, p, i), if i < |p.schedule.Forks()| then p.schedule.Forks()[i] else 0)
  }

  method ComputeForkID(crc: Crc, p: ChainParams) returns (id: ID)
    ensures id == Announcement(crc, p, Position(p))
  {
    var blocks, times := p.schedule.blocks, p.schedule.times;
    ghost var forks := p.schedule.Forks();
    var hash := crc.start(p.genesis);
    for i := 0 to |blocks|
      invariant hash == Checksum(crc, p.genesis, forks, i)
      invariant forall j :: 0 <= j < i ==> HeadFor(p, j) >= forks[j]
    {
      assert blocks[i] == forks[i] && HeadFor(p, i) == p.headNumber;
      if blocks[i] > p.headNumber {
        PositionIs(p, 0, i);
        return ID(ChecksumToBytes(hash), blocks[i]);
      }
      hash := ChecksumUpdate(crc, hash, blocks[i]);
    }
    for i := 0 to |times|
      invariant hash == Checksum(crc, p.genesis, forks, |blocks| + i)
      invariant forall j :: 0 <= j < |blocks| + i ==> HeadFor(p, j) >= forks[j]
    {
      assert times[i] == forks[|blocks| + i] && HeadFor(p, |blocks| + i) == p.headTime;
      if times[i] > p.headTime {
        PositionIs(p, 0, |blocks| + i);
        return ID(ChecksumToBytes(hash), times[i]);
      }
      hash := ChecksumUpdate(crc, hash, times[i]);
    }
    PositionIs(p, 0, |forks|);
    return ID(ChecksumToBytes(hash), 0);
  }

  /** The first index in [lo, hi) whose prefix checksum is `hash`. */
  function Find(crc: Crc, p: ChainParams, hash: seq<Byte>, lo: nat, hi: nat): (r: Option<nat>)
    requires lo <= hi <= |p.schedule.Forks()| + 1
    ensures r.Some? ==> lo <= r.value < hi && Sum(crc, p, r.value) == hash
    ensures r.None? ==> forall j :: lo <= j < hi ==> Sum(crc, p, j) != hash
    decreases hi - lo
  {
    if lo == hi then None
    else if Sum(crc, p, lo) == hash then Some(lo)
    else Find(crc, p, hash, lo + 1, hi)
  }

  lemma {:induction false} FindIs(crc: Crc, p: ChainParams, hash: seq<Byte>, lo: nat, j: nat, hi: nat)
    requires lo <= j < hi <= |p.schedule.Forks()| + 1
    requires Sum(crc, p, j) == hash
    requires forall k :: lo <= k < j ==> Sum(crc, p, k) != hash
    ensures Find(crc, p, hash, lo, hi) == Some(j)
    decreases j - lo
  {
    if lo < j { FindIs(crc, p, hash, lo + 1, j, hi); }
  }

  /** The node has passed its whole schedule and its clock cannot be below the sentinel fork. */
  predicate Exhausted(p: ChainParams)
  {
    var n := |p.schedule.Forks()|;
    Position(p) == n && HeadFor(p, n) == MAX_UINT64
  }

  /** EIP-2124 rule 1a: the announced next fork is one the local chain has already passed. */
  predicate AlreadyPassed(p: ChainParams, next: Uint64)
  {
    next > 0 && (HeadFor(p, Position(p)) >= next || (next > FORK_TIMESTAMP_THRESHOLD && p.headTime >= next))
  }

  /** The validation rules in the order in which they are tried. */
  function Validate(crc: Crc, p: ChainParams, remote: ID): Verdict
  {
    var i, n := Position(p), |p.schedule.Forks()|;
    if Exhausted(p) then InvalidState
    else if Sum(crc, p, i) == remote.hash then
      if AlreadyPassed(p, remote.next) then StaleOrIncompatible else Compatible
    else
      match Find(crc, p, remote.hash, 0, i)
      case Some(j) =>
        if p.schedule.Forks()[j] != remote.next then StaleSubset(p.schedule.Forks()[j]) else Compatible
      case None =>
        if Find(crc, p, remote.hash, i + 1, n + 1).Some? then Compatible else Incompatible
  }

  method ValidateForkID(crc: Crc, p: ChainParams, remote: ID) returns (v: Verdict)
    ensures v == Validate(crc, p, remote)
  {
    var forks := p.schedule.blocks + p.schedule.times;
    ghost var n := |forks|;
    var hash := crc.start(p.genesis);
    var sums := [ChecksumToBytes(hash)];
    for i := 0 to |forks|
      invariant hash == Checksum(crc, p.genesis, p.schedule.Forks(), i)
      invariant |sums| == i + 1
      invariant forall k :: 0 <= k <= i ==> sums[k] == Sum(crc, p, k)
    {
      hash := ChecksumUpdate(crc, hash, forks[i]);
      sums := sums + [ChecksumToBytes(hash)];
    }
    var blockForkCount := |p.schedule.blocks|;
    forks := forks + [MAX_UINT64];
    if |p.schedule.times| == 0 {
      blockForkCount := blockForkCount + 1;
    }
    for i := 0 to |forks|
      invariant forall j :: 0 <= j < i ==> HeadFor(p, j) >= forks[j]
    {
      var head := if i >= blockForkCount then p.headTime else p.headNumber;
      assert head == HeadFor(p, i);
      if head < forks[i] {
        PositionIs(p, 0, i);
        v := Classify(crc, p, remote, forks, sums, i, head);
        return;
      }
    }
    PositionIs(p, 0, n);
    return InvalidState;
  }

  /** The body of the scan once the local position `i` is known. */
  method Classify(crc: Crc, p: ChainParams, remote: ID, forks: seq<Uint64>, sums: seq<seq<Byte>>, i: nat, head: Uint64)
    returns (v: Verdict)
    requires forks == p.schedule.Forks() + [MAX_UINT64] && |sums| == |forks|
    requires forall k :: 0 <= k < |sums| ==> sums[k] == Sum(crc, p, k)
    requires i == Position(p) && head == HeadFor(p, i) < forks[i]
    ensures v == Validate(crc, p, remote)
  {
    if sums[i] == remote.hash {
      if remote.next > 0 &&
         (head >= remote.next || (remote.next > FORK_TIMESTAMP_THRESHOLD && p.headTime >= remote.next)) {
        return StaleOrIncompatible;
      }
      return Compatible;
    }
    for j := 0 to i
      invariant forall k :: 0 <= k < j ==> sums[k] != remote.hash
    {
      if sums[j] == remote.hash {
        FindIs(crc, p, remote.hash, 0, j, i);
        if forks[j] != remote.next { return StaleSubset(forks[j]); }
        return Compatible;
      }
    }
    for j := i + 1 to |sums|
      invariant forall k :: i < k < j ==> sums[k] != remote.hash
    {
      if sums[j] == remote.hash { return Compatible; }
    }
    return Incompatible;
  }

  /** Acceptance as EIP-2124 words it: same past, a subset of it, or an extension by known forks. */
  ghost predicate AcceptableByRules(crc: Crc, p: ChainParams, remote: ID)
  {
    var i, forks := Position(p), p.schedule.Forks();
    || (remote.hash == Sum(crc, p, i) && !AlreadyPassed(p, remote.next))
    || (exists j :: 0 <= j < i && remote.hash == Sum(crc, p, j) && remote.next == forks[j])
    || (exists j :: i < j <= |forks| && remote.hash == Sum(crc, p, j))
  }

  lemma {:induction false} AcceptedIff(crc: Crc, p: ChainParams, remote: ID)
    requires DistinctSums(crc, p)
    ensures Validate(crc, p, remote) == Compatible <==> !Exhausted(p) && AcceptableByRules(crc, p, remote)
  {
    if Sum(crc, p, Position(p)) != remote.hash && Find(crc, p, remote.hash, 0, Position(p)).Some? {
      var j := Find(crc, p, remote.hash, 0, Position(p)).value;
      assert Sum(crc, p, j) == remote.hash;
    }
  }

  lemma {:induction false} UnknownHashIff(crc: Crc, p: ChainParams, remote: ID)
    ensures Validate(crc, p, remote) == Incompatible
      <==> !Exhausted(p) && forall j :: 0 <= j <= |p.schedule.Forks()| ==> remote.hash != Sum(crc, p, j)
  {
    var i, n := Position(p), |p.schedule.Forks()|;
    var past, future := Find(crc, p, remote.hash, 0, i), Find(crc, p, remote.hash, i + 1, n + 1);
    if past.Some? { assert remote.hash == Sum(crc, p, past.value); }
    if future.Some? { assert remote.hash == Sum(crc, p, future.value); }
  }

  /** The exact decision table: acceptance, and the refusals that do not name a fork. */
  lemma {:induction false} DecisionTable(crc: Crc, p: ChainParams, remote: ID)
    requires DistinctSums(crc, p)
    ensures Validate(crc, p, remote) == InvalidState <==> Exhausted(p)
    ensures Validate(crc, p, remote) == Compatible <==> !Exhausted(p) && AcceptableByRules(crc, p, remote)
    ensures Validate(crc, p, remote) == StaleOrIncompatible
      <==> !Exhausted(p) && remote.hash == Sum(crc, p, Position(p)) && AlreadyPassed(p, remote.next)
    ensures Validate(crc, p, remote) == Incompatible
      <==> !Exhausted(p) && forall j :: 0 <= j <= |p.schedule.Forks()| ==> remote.hash != Sum(crc, p, j)
  {
    AcceptedIff(crc, p, remote);
    UnknownHashIff(crc, p, remote);
  }

  /** The remaining row: a peer behind a passed fork that does not announce it is told which fork it lacks. */
  lemma {:induction false} StaleSubsetIff(crc: Crc, p: ChainParams, remote: ID, fork: Uint64)
    requires DistinctSums(crc, p)
    ensures Validate(crc, p, remote) == StaleSubset(fork)
      <==> !Exhausted(p) && remote.next != fork
           && exists j :: 0 <= j < Position(p) && remote.hash == Sum(crc, p, j) && fork == p.schedule.Forks()[j]
  {
    var i := Position(p);
    if !Exhausted(p) && exists j :: 0 <= j < i && remote.hash == Sum(crc, p, j) {
      var j :| 0 <= j < i && remote.hash == Sum(crc, p, j);
      FindIs(crc, p, remote.hash, 0, j, i);
    }
  }

  /** The local node would take the announced block fork for a timestamp fork it has passed. */
  predicate BlockForkLooksPassed(p: ChainParams)
  {
    var i := Position(p);
    i < |p.schedule.blocks| && p.schedule.blocks[i] > FORK_TIMESTAMP_THRESHOLD && p.headTime >= p.schedule.blocks[i]
  }

  lemma {:induction false} OwnNextPassed(p: ChainParams)
    ensures Position(p) < |p.schedule.Forks()| ==>
      (AlreadyPassed(p, p.schedule.Forks()[Position(p)]) <==> BlockForkLooksPassed(p))
    ensures Position(p) == |p.schedule.Forks()| ==> !BlockForkLooksPassed(p)
  {
    PositionStops(p, 0);
  }

  /** A node accepts its own identifier, whatever the checksums, exactly outside two corner cases. */
  lemma {:induction false} SelfAcceptance(crc: Crc, p: ChainParams)
    ensures Validate(crc, p, Announcement(crc, p, Position(p))) == Compatible
      <==> !Exhausted(p) && !BlockForkLooksPassed(p)
  {
    OwnNextPassed(p);
  }

  /** What the rules say about the announcement of a node of the same chain that stands at fork `j`. */
  lemma {:induction false} SameChainRules(crc: Crc, p: ChainParams, j: nat)
    requires DistinctSums(crc, p) && j <= |p.schedule.Forks()|
    ensures var id := Announcement(crc, p, j);
      AcceptableByRules(crc, p, id) <==> !(j == Position(p) && AlreadyPassed(p, id.next))
  {
    var i, n := Position(p), |p.schedule.Forks()|;
    if j < i {
      assert Sum(crc, p, j) == Announcement(crc, p, j).hash;
    } else if j > i {
      assert Sum(crc, p, j) == Announcement(crc, p, j).hash;
    } else {
      assert forall k :: 0 <= k <= n && k != i ==> Sum(crc, p, k) != Sum(crc, p, i);
    }
  }

  lemma {:induction false} SameAnnouncement(crc: Crc, a: ChainParams, b: ChainParams, j: nat)
    requires a.genesis == b.genesis && a.schedule == b.schedule && j <= |a.schedule.Forks()|
    ensures Announcement(crc, a, j) == Announcement(crc, b, j)
  {
  }

  /** Two nodes of one chain at any two heads: each identifier is accepted except in the corner cases. */
  lemma {:induction false} SameChain(crc: Crc, local: ChainParams, remote: ChainParams)
    requires local.genesis == remote.genesis && local.schedule == remote.schedule
    requires DistinctSums(crc, local)
    ensures Validate(crc, local, Announcement(crc, remote, Position(remote))) == Compatible
      <==> !Exhausted(local) && !(Position(local) == Position(remote) && BlockForkLooksPassed(local))
  {
    var j := Position(remote);
    SameAnnouncement(crc, remote, local, j);
    SameChainRules(crc, local, j);
    DecisionTable(crc, local, Announcement(crc, local, j));
    OwnNextPassed(local);
  }

  /** On a chain whose block forks are plausible block numbers, peers at any heads accept each other. */
  lemma {:induction false} SameChainMutual(crc: Crc, a: ChainParams, b: ChainParams)
    requires a.genesis == b.genesis && a.schedule == b.schedule
    requires DistinctSums(crc, a)
    requires forall i :: 0 <= i < |a.schedule.blocks| ==> a.schedule.blocks[i] <= FORK_TIMESTAMP_THRESHOLD
    requires a.headNumber < MAX_UINT64 && a.headTime < MAX_UINT64
    requires b.headNumber < MAX_UINT64 && b.headTime < MAX_UINT64
    ensures Validate(crc, a, Announcement(crc, b, Position(b))) == Compatible
    ensures Validate(crc, b, Announcement(crc, a, Position(a))) == Compatible
  {
    assert DistinctSums(crc, b) by {
      forall i, j | 0 <= i < j <= |b.schedule.Forks()| ensures Sum(crc, b, i) != Sum(crc, b, j) {
        assert Sum(crc, a, i) == Sum(crc, b, i) && Sum(crc, a, j) == Sum(crc, b, j);
      }
    }
    SameChain(crc, a, b);
    SameChain(crc, b, a);
  }

  /** Without the bound on block forks a node can reject its own identifier. */
  lemma {:induction false} LargeBlockForkRejectsItself(crc: Crc, genesis: seq<Byte>)
    ensures var p := ChainParams(genesis, 0, 1438269974, Schedule([1438269974], []));
      Validate(crc, p, Announcement(crc, p, Position(p))) == StaleOrIncompatible
  {
    var p := ChainParams(genesis, 0, 1438269974, Schedule([1438269974], []));
    assert Position(p) == 0;
    assert p.schedule.Forks()[0] == 1438269974;
  }

  /** The same chain as known to software that only has the first `k` forks. */
  function Truncated(s: Schedule, k: nat): Schedule
    requires k <= |s.Forks()|
  {
    if k <= |s.blocks| then Schedule(s.blocks[..k], []) else Schedule(s.blocks, s.times[..k - |s.blocks|])
  }

  lemma {:induction false} ChecksumPrefix(crc: Crc, genesis: seq<Byte>, a: seq<Uint64>, b: seq<Uint64>, k: nat)
    requires k <= |a| && k <= |b| && a[..k] == b[..k]
    ensures Checksum(crc, genesis, a, k) == Checksum(crc, genesis, b, k)
  {
    if k > 0 {
      assert a[..k - 1] == a[..k][..k - 1] == b[..k][..k - 1] == b[..k - 1];
      assert a[k - 1] == a[..k][k - 1] == b[..k][k - 1];
      ChecksumPrefix(crc, genesis, a, b, k - 1);
    }
  }

  lemma {:induction false} TruncatedSums(crc: Crc, p: ChainParams, outdated: ChainParams, k: nat, j: nat)
    requires k <= |p.schedule.Forks()| && outdated.schedule == Truncated(p.schedule, k) && outdated.genesis == p.genesis
    requires j <= k
    ensures |outdated.schedule.Forks()| == k && outdated.schedule.Forks() == p.schedule.Forks()[..k]
    ensures Sum(crc, outdated, j) == Sum(crc, p, j)
  {
    assert outdated.schedule.Forks() == p.schedule.Forks()[..k];
    assert p.schedule.Forks()[..k][..j] == p.schedule.Forks()[..j];
    ChecksumPrefix(crc, p.genesis, outdated.schedule.Forks(), p.schedule.Forks(), j);
  }

  /**
   * A node `stale` that never learnt of fork `k` and has passed everything it knows, against a node `p` that knows it.
   * Once `p` has passed the fork both sides refuse. While `p` is just before it, `p` accepts the stale node, and the
   * stale node accepts `p` until its own chain reaches the announced fork. While `p` is further behind both accept.
   */
  lemma {:induction false} UnknownFork(crc: Crc, p: ChainParams, stale: ChainParams, k: nat)
    requires k < |p.schedule.Forks()| && p.schedule.Forks()[k] != 0
    requires stale.genesis == p.genesis && stale.schedule == Truncated(p.schedule, k)
    requires Position(stale) == |stale.schedule.Forks()| && !Exhausted(stale) && !Exhausted(p)
    requires DistinctSums(crc, p)
    ensures Position(p) > k ==>
      && Validate(crc, p, Announcement(crc, stale, Position(stale))) == StaleSubset(p.schedule.Forks()[k])
      && Validate(crc, stale, Announcement(crc, p, Position(p))) == Incompatible
    ensures Position(p) == k ==>
      && Validate(crc, p, Announcement(crc, stale, Position(stale))) == Compatible
      && (Validate(crc, stale, Announcement(crc, p, Position(p))) == Compatible
          <==> !AlreadyPassed(stale, p.schedule.Forks()[k]))
    ensures Position(p) < k ==>
      && Validate(crc, p, Announcement(crc, stale, Position(stale))) == Compatible
      && Validate(crc, stale, Announcement(crc, p, Position(p))) == Compatible
  {
    var forks, i := p.schedule.Forks(), Position(p);
    TruncatedSums(crc, p, stale, k, k);
    var fromStale := Announcement(crc, stale, k);
    assert fromStale == ID(Sum(crc, p, k), 0);
    if i > k {
      assert Sum(crc, p, i) != Sum(crc, p, k);
      FindIs(crc, p, fromStale.hash, 0, k, i);
      forall j | 0 <= j <= k ensures Sum(crc, stale, j) != Sum(crc, p, i) {
        TruncatedSums(crc, p, stale, k, j);
      }
    } else if i < k {
      AheadOfP(crc, p, stale, k);
    }
  }

  /** The stale node is ahead: `p` knows where it stands, and the stale node knows what `p` announces. */
  lemma {:induction false} AheadOfP(crc: Crc, p: ChainParams, stale: ChainParams, k: nat)
    requires Position(p) < k < |p.schedule.Forks()|
    requires stale.genesis == p.genesis && stale.schedule == Truncated(p.schedule, k)
    requires Position(stale) == |stale.schedule.Forks()| && !Exhausted(stale) && !Exhausted(p)
    requires DistinctSums(crc, p)
    ensures Validate(crc, p, Announcement(crc, stale, Position(stale))) == Compatible
    ensures Validate(crc, stale, Announcement(crc, p, Position(p))) == Compatible
  {
    var i, n := Position(p), |p.schedule.Forks()|;
    TruncatedSums(crc, p, stale, k, k);
    FindNone(crc, p, Sum(crc, p, k), 0, i);
    FindIs(crc, p, Sum(crc, p, k), i + 1, k, n + 1);
    TruncatedSums(crc, p, stale, k, i);
    forall j | 0 <= j <= k && j != i ensures Sum(crc, stale, j) != Sum(crc, p, i) {
      TruncatedSums(crc, p, stale, k, j);
    }
    FindIs(crc, stale, Sum(crc, p, i), 0, i, k);
    assert stale.schedule.Forks()[i] == p.schedule.Forks()[i];
  }

  lemma {:induction false} FindNone(crc: Crc, p: ChainParams, hash: seq<Byte>, lo: nat, hi: nat)
    requires lo <= hi <= |p.schedule.Forks()| + 1 && forall j :: lo <= j < hi ==> Sum(crc, p, j) != hash
    ensures Find(crc, p, hash, lo, hi) == None
  {
  }

  /** The other corner case: a node without forks whose chain has reached block 2^64-1 can judge nobody. */
  lemma {:induction false} LastBlockJudgesNobody(crc: Crc, genesis: seq<Byte>, headTime: Uint64, remote: ID)
    ensures Validate(crc, ChainParams(genesis, MAX_UINT64, headTime, Schedule([], [])), remote) == InvalidState
  {
    var p := ChainParams(genesis, MAX_UINT64, headTime, Schedule([], []));
    assert p.schedule.Forks() == [] && Position(p) == 0 && HeadFor(p, 0) == MAX_UINT64;
  }

  // Reading the schedule out of a chain config.

  datatype ForkKind = ForkNone | ForkBlock | ForkTime

  function ToLower(s: string): string
  {
    seq(|s|, i requires 0 <= i < |s| =>
      if 'A' <= s[i] <= 'Z' then s[i] - 'A' + 'a' else s[i])
  }

  predicate HasSuffix(s: string, suffix: string)
  {
    |suffix| <= |s| && s[|s| - |suffix|..] == suffix
  }

  function ClassifyFork(key: string): ForkKind
  {
    var k := ToLower(key);
    if HasSuffix(k, "transitiontimestamp") || HasSuffix(k, "time") then ForkTime
    else if HasSuffix(k, "block") || HasSuffix(k, "transition") then ForkBlock
    else ForkNone
  }

  /** parseUint on a raw JSON value, kept abstract. */
  type ParseUint = string -> Option<Uint64>

  predicate Relevant(key: string, raw: string)
  {
    ClassifyFork(key) != ForkNone && raw != "null"
  }

  /** Some entry among `keys` schedules fork `x` of the given kind. */
  ghost predicate Listed(
      config: map<string, string>, parse: ParseUint, keys: set<string>, kind: ForkKind, floor: nat, x: Uint64)
  {
    exists key :: key in keys && key in config && Relevant(key, config[key]) &&
      ClassifyFork(key) == kind && parse(config[key]) == Some(x) && x > floor
  }

  /** `s` is the schedule that `config` describes, in increasing order and without repetitions. */
  ghost predicate Describes(config: map<string, string>, genesisTime: Uint64, parse: ParseUint, s: Schedule)
  {
    && Ascending<int>(IntLess, s.blocks) && Ascending<int>(IntLess, s.times)
    && (forall x: Uint64 :: x in s.blocks <==> Listed(config, parse, config.Keys, ForkBlock, 0, x))
    && (forall x: Uint64 :: x in s.times <==> Listed(config, parse, config.Keys, ForkTime, genesisTime, x))
  }

  method ParseForkSchedule(config: map<string, string>, genesisTime: Uint64, parse: ParseUint)
    returns (r: Option<Schedule>)
    ensures r.None? <==> exists key :: key in config && Relevant(key, config[key]) && parse(config[key]).None?
    ensures r.Some? ==> Describes(config, genesisTime, parse, r.value)
  {
    var blocks: seq<Uint64>, times: seq<Uint64> := [], [];
    var rest := config.Keys;
    while rest != {}
      invariant rest <= config.Keys
      invariant forall key :: key in config.Keys - rest && Relevant(key, config[key]) ==> parse(config[key]).Some?
      invariant forall x: Uint64 :: x in blocks <==> Listed(config, parse, config.Keys - rest, ForkBlock, 0, x)
      invariant forall x: Uint64 :: x in times <==> Listed(config, parse, config.Keys - rest, ForkTime, genesisTime, x)
      decreases rest
    {
      var key :| key in rest;
      ghost var seen := config.Keys - rest;
      rest := rest - {key};
      assert config.Keys - rest == seen + {key};
      var raw := config[key];
      var kind := ClassifyFork(key);
      if Relevant(key, raw) {
        var fork := parse(raw);
        if fork.None? { return None; }
        if kind == ForkBlock && fork.value != 0 {
          blocks := blocks + [fork.value];
        } else if kind == ForkTime && fork.value > genesisTime {
          times := times + [fork.value];
        }
      }
      ListedStep(config, parse, seen, key, ForkBlock, 0);
      ListedStep(config, parse, seen, key, ForkTime, genesisTime);
    }
    assert config.Keys - rest == config.Keys;
    IntStrictTotal();
    SortCompact<int>(IntLess, blocks);
    SortCompact<int>(IntLess, times);
    var sortedBlocks: seq<int> := Compact(Sort<int>(IntLess, blocks));
    var sortedTimes: seq<int> := Compact(Sort<int>(IntLess, times));
    assert forall i :: 0 <= i < |sortedBlocks| ==> sortedBlocks[i] in blocks;
    assert forall i :: 0 <= i < |sortedTimes| ==> sortedTimes[i] in times;
    return Some(Schedule(sortedBlocks, sortedTimes));
  }

  lemma {:induction false} ListedStep(
      config: map<string, string>, parse: ParseUint, seen: set<string>, key: string, kind: ForkKind, floor: nat)
    requires key in config
    ensures forall x: Uint64 :: Listed(config, parse, seen + {key}, kind, floor, x) <==>
      Listed(config, parse, seen, kind, floor, x) ||
      (Relevant(key, config[key]) && ClassifyFork(key) == kind && parse(config[key]) == Some(x) && x > floor)
  {
    forall x: Uint64 | Relevant(key, config[key]) && ClassifyFork(key) == kind && parse(config[key]) == Some(x)
      && x > floor
      ensures Listed(config, parse, seen + {key}, kind, floor, x)
    {
      assert key in seen + {key};
    }
    forall x: Uint64 | Listed(config, parse, seen, kind, floor, x)
      ensures Listed(config, parse, seen + {key}, kind, floor, x)
    {
      var k :| k in seen && k in config && Relevant(k, config[k]) && ClassifyFork(k) == kind
        && parse(config[k]) == Some(x);
      assert k in seen + {key};
    }
  }

  /** The order in which the config's entries are visited cannot matter: it describes one schedule only. */
  lemma {:induction false} ScheduleUnique(
      config: map<string, string>, genesisTime: Uint64, parse: ParseUint, s: Schedule, t: Schedule)
    requires Describes(config, genesisTime, parse, s) && Describes(config, genesisTime, parse, t)
    ensures s == t
  {
    forall x: int ensures x in s.blocks <==> x in t.blocks {
      if x in s.blocks || x in t.blocks { var u: Uint64 := x; assert u in s.blocks <==> u in t.blocks; }
    }
    forall x: int ensures x in s.times <==> x in t.times {
      if x in s.times || x in t.times { var u: Uint64 := x; assert u in s.times <==> u in t.times; }
    }
    IntStrictTotal();
    AscendingUnique<int>(IntLess, s.blocks, t.blocks);
    AscendingUnique<int>(IntLess, s.times, t.times);
  }

  /**
   * With a schedule read from a config, a peer that announces no next fork although it is behind a fork that the local
   * chain has passed is always rejected.
   */
  lemma {:induction false} StalePeerRejected(
      crc: Crc, p: ChainParams, config: map<string, string>, genesisTime: Uint64, parse: ParseUint, k: nat)
    requires Describes(config, genesisTime, parse, p.schedule)
    requires DistinctSums(crc, p)
    requires k < Position(p)
    ensures Validate(crc, p, ID(Sum(crc, p, k), 0)) != Compatible
  {
    var fork := p.schedule.Forks()[k];
    assert fork in p.schedule.blocks || fork in p.schedule.times;
    assert fork != 0;
    DecisionTable(crc, p, ID(Sum(crc, p, k), 0));
    assert forall j :: 0 <= j <= |p.schedule.Forks()| && Sum(crc, p, j) == Sum(crc, p, k) ==> j == k;
  }
}
