/** The fork-identifier rules of EIP-2124 and EIP-6122 in terms of heads, forks and bytes alone. */
module ForkRules {
  import opened Base
  import opened Ordering
  import opened ForkId

  /**
   * The position is the first fork that the chain has not passed: block forks against the head number, timestamp forks
   * against the head time.
   */
  lemma {:induction false} PositionMeans(p: ChainParams, k: nat)
    requires k <= |p.schedule.blocks| + |p.schedule.times|
    ensures Position(p) == k <==>
      && (forall j :: 0 <= j < k && j < |p.schedule.blocks| ==> p.schedule.blocks[j] <= p.headNumber)
      && (forall j :: 0 <= j < |p.schedule.times| && |p.schedule.blocks| + j < k ==> p.schedule.times[j] <= p.headTime)
      && (k < |p.schedule.blocks| ==> p.headNumber < p.schedule.blocks[k])
      && (|p.schedule.blocks| <= k < |p.schedule.blocks| + |p.schedule.times| ==>
            p.headTime < p.schedule.times[k - |p.schedule.blocks|])
  {
    var blocks, times, forks := p.schedule.blocks, p.schedule.times, p.schedule.Forks();
    assert forall j :: 0 <= j < |times| ==> forks[|blocks| + j] == times[j];
    if Position(p) == k {
      PositionStops(p, 0);
      PassedBefore(p, 0, k);
      forall j | 0 <= j < k && j < |blocks| ensures blocks[j] <= p.headNumber {
        assert HeadFor(p, j) >= forks[j];
      }
      assert |blocks| <= k < |forks| ==> forks[k] == times[k - |blocks|];
      forall j | 0 <= j < |times| && |blocks| + j < k ensures times[j] <= p.headTime {
        assert HeadFor(p, |blocks| + j) >= forks[|blocks| + j];
      }
    } else if Position(p) < k {
      PositionStops(p, 0);
      assert HeadFor(p, Position(p)) < forks[Position(p)];
      if Position(p) >= |blocks| { assert forks[Position(p)] == times[Position(p) - |blocks|]; }
    } else {
      PassedBefore(p, 0, Position(p));
      assert HeadFor(p, k) >= forks[k];
    }
  }

  lemma {:induction false} PassedBefore(p: ChainParams, from: nat, i: nat)
    requires from <= i <= |p.schedule.Forks()| && PositionFrom(p, from) == i
    ensures forall j :: from <= j < i ==> HeadFor(p, j) >= p.schedule.Forks()[j]
    decreases i - from
  {
    if from < i { PassedBefore(p, from + 1, i); }
  }

  /** The invalid state: every fork passed and the last clock at its maximum. */
  lemma {:induction false} ExhaustedMeans(p: ChainParams)
    ensures Exhausted(p) <==>
      && (forall j :: 0 <= j < |p.schedule.blocks| ==> p.schedule.blocks[j] <= p.headNumber)
      && (forall j :: 0 <= j < |p.schedule.times| ==> p.schedule.times[j] <= p.headTime)
      && (if p.schedule.times == [] then p.headNumber else p.headTime) == 18446744073709551615
  {
    PositionMeans(p, |p.schedule.blocks| + |p.schedule.times|);
  }

  /**
   * Rule 1a. A peer with the local checksum is refused exactly when it announces a fork, not zero, that the local chain
   * has passed: judged by the head number while the position is among the block forks or there are no timestamp forks,
   * by the head time after the block forks, and by the head time in any case for an announcement above 1438269973.
   */
  lemma {:induction false} AnnouncedForkIff(crc: Crc, p: ChainParams, remote: ID)
    requires remote.hash == Sum(crc, p, Position(p)) && Validate(crc, p, remote) != InvalidState
    ensures Validate(crc, p, remote) == StaleOrIncompatible || Validate(crc, p, remote) == Compatible
    ensures Validate(crc, p, remote) == StaleOrIncompatible <==>
      && remote.next > 0
      && (|| ((Position(p) < |p.schedule.blocks| || p.schedule.times == []) && p.headNumber >= remote.next)
          || (Position(p) >= |p.schedule.blocks| && p.schedule.times != [] && p.headTime >= remote.next)
          || (remote.next > 1438269973 && p.headTime >= remote.next))
  {
  }

  /** The case that the rule is for: the peer announces a block fork at which the local chain did not split. */
  lemma {:induction false} PassedWithoutSplitting(crc: Crc, genesis: seq<Byte>, headTime: Uint64)
    requires headTime <= 1438269973
    ensures var p := ChainParams(genesis, 2000000, headTime, Schedule([1150000, 2500000], []));
      && Validate(crc, p, ID(Sum(crc, p, 1), 1920000)) == StaleOrIncompatible
      && Validate(crc, p.(headNumber := 1919999), ID(Sum(crc, p, 1), 1920000)) == Compatible
      && Validate(crc, p, ID(Sum(crc, p, 1), 2500000)) == Compatible
      && Validate(crc, p, ID(Sum(crc, p, 1), 0)) == Compatible
  {
    var p := ChainParams(genesis, 2000000, headTime, Schedule([1150000, 2500000], []));
    OneForkPassed(crc, p, 1920000);
    OneForkPassed(crc, p, 2500000);
    OneForkPassed(crc, p, 0);
    var q := p.(headNumber := 1919999);
    assert Sum(crc, q, 1) == Sum(crc, p, 1);
    OneForkPassed(crc, q, 1920000);
  }

  lemma {:induction false} OneForkPassed(crc: Crc, p: ChainParams, next: Uint64)
    requires p.schedule == Schedule([1150000, 2500000], []) && 1150000 <= p.headNumber < 2500000
    requires p.headTime <= 1438269973
    ensures Validate(crc, p, ID(Sum(crc, p, 1), next))
      == if 0 < next <= p.headNumber then StaleOrIncompatible else Compatible
  {
    PositionMeans(p, 1);
    ExhaustedMeans(p);
    AnnouncedForkIff(crc, p, ID(Sum(crc, p, 1), next));
  }

  // Bytes.

  /** A checksum is written as four bytes and a fork enters it as eight, most significant first. */
  lemma {:induction false} ChecksumBytes(crc: Crc, hash: Uint32, fork: Uint64)
    ensures var s := ChecksumToBytes(hash);
      |s| == 4 && FourBytes(s) == hash
    ensures exists b: seq<Byte> ::
      && |b| == 8 && FourBytes(b[..4]) * 4294967296 + FourBytes(b[4..]) == fork
      && ChecksumUpdate(crc, hash, fork) == crc.update(hash, b)
  {
    FourBytesBack(ChecksumToBytes(hash));
    Pow256Values();
    BigEndianRoundTrip(hash, 4);
    var b := BigEndian(fork, 8);
    BigEndianRoundTrip(fork, 8);
    EightBytesBack(b);
  }

  function FourBytes(s: seq<Byte>): nat
    requires |s| == 4
  {
    var a: int, b: int, c: int, d: int := s[0], s[1], s[2], s[3];
    a * 16777216 + (b * 65536 + (c * 256 + d))
  }

  lemma {:induction false} FourBytesBack(s: seq<Byte>)
    requires |s| == 4
    ensures FromBigEndian(s) == FourBytes(s)
  {
    assert s[..3][..2] == s[..2] && s[..2][..1] == s[..1] && s[..1][..0] == [];
    assert FromBigEndian(s[..1]) == s[0];
    assert FromBigEndian(s[..2]) == 256 * FromBigEndian(s[..1]) + s[1];
    assert FromBigEndian(s[..3]) == 256 * FromBigEndian(s[..2]) + s[2];
  }

  lemma {:induction false} EightBytesBack(b: seq<Byte>)
    requires |b| == 8
    ensures FromBigEndian(b) == FourBytes(b[..4]) * 4294967296 + FourBytes(b[4..])
  {
    FourBytesBack(b[..4]);
    var c := b[4..];
    assert b[..5][..4] == b[..4] && b[..6][..5] == b[..5] && b[..7][..6] == b[..6] && b[..8][..7] == b[..7];
    assert b[..8] == b;
    assert FromBigEndian(b[..5]) == 256 * FromBigEndian(b[..4]) + c[0];
    assert FromBigEndian(b[..6]) == 256 * FromBigEndian(b[..5]) + c[1];
    assert FromBigEndian(b[..7]) == 256 * FromBigEndian(b[..6]) + c[2];
    assert FromBigEndian(b) == 256 * FromBigEndian(b[..7]) + c[3];
  }

  /** The identifier of a chain without forks, and what one passed fork adds to it. */
  lemma {:induction false} FirstSums(crc: Crc, p: ChainParams)
    ensures Sum(crc, p, 0) == ChecksumToBytes(crc.start(p.genesis))
    ensures p.schedule.blocks != [] ==>
      Sum(crc, p, 1) == ChecksumToBytes(ChecksumUpdate(crc, crc.start(p.genesis), p.schedule.blocks[0]))
  {
  }

  // Reading the schedule.

  lemma {:induction false} LowerConcat(a: string, b: string)
    ensures ToLower(a + b) == ToLower(a) + ToLower(b)
  {
  }

  lemma {:induction false} LowerWords()
    ensures ToLower("Block") == "block" && ToLower("Transition") == "transition" && ToLower("Time") == "time"
    ensures ToLower("TransitionTimestamp") == "transitiontimestamp"
  {
  }

  /** The spellings of fork entries: any name followed by one of four words. */
  lemma {:induction false} KindBySpelling(name: string)
    ensures ClassifyFork(name + "Block") == ForkBlock && ClassifyFork(name + "Transition") == ForkBlock
    ensures ClassifyFork(name + "Time") == ForkTime && ClassifyFork(name + "TransitionTimestamp") == ForkTime
  {
    LowerWords();
    var n := ToLower(name);
    LowerConcat(name, "Block");
    LowerConcat(name, "Transition");
    LowerConcat(name, "Time");
    LowerConcat(name, "TransitionTimestamp");
    LastLetter(n + "block", "k");
    LastLetter(n + "transition", "n");
  }

  lemma {:induction false} LastLetter(s: string, last: string)
    requires s != "" && last == [s[|s| - 1]]
    ensures last != "p" ==> !HasSuffix(s, "transitiontimestamp")
    ensures last != "e" ==> !HasSuffix(s, "time")
    ensures last != "k" ==> !HasSuffix(s, "block")
    ensures last != "n" ==> !HasSuffix(s, "transition")
  {
    assert HasSuffix(s, "transitiontimestamp") ==> s[|s| - 1] == "transitiontimestamp"[18];
    assert HasSuffix(s, "time") ==> s[|s| - 1] == "time"[3];
    assert HasSuffix(s, "block") ==> s[|s| - 1] == "block"[4];
    assert HasSuffix(s, "transition") ==> s[|s| - 1] == "transition"[9];
  }

  /** Every other entry is ignored: a fork entry ends in one of the four words, whatever its case. */
  lemma {:induction false} KindOnlyBySpelling(key: string) returns (name: string, word: string)
    requires ClassifyFork(key) != ForkNone
    ensures key == name + word
    ensures ClassifyFork(key) == ForkTime ==> ToLower(word) == "time" || ToLower(word) == "transitiontimestamp"
    ensures ClassifyFork(key) == ForkBlock ==> ToLower(word) == "block" || ToLower(word) == "transition"
  {
    var low := ToLower(key);
    if HasSuffix(low, "transitiontimestamp") {
      name, word := SplitSuffix(key, "transitiontimestamp");
    } else if HasSuffix(low, "time") {
      name, word := SplitSuffix(key, "time");
    } else if HasSuffix(low, "block") {
      name, word := SplitSuffix(key, "block");
    } else {
      name, word := SplitSuffix(key, "transition");
    }
  }

  lemma {:induction false} SplitSuffix(key: string, suffix: string) returns (name: string, word: string)
    requires HasSuffix(ToLower(key), suffix)
    ensures key == name + word && ToLower(word) == suffix
  {
    var n := |key| - |suffix|;
    name, word := key[..n], key[n..];
    LowerConcat(name, word);
    assert key == name + word;
    assert ToLower(word) == ToLower(key)[n..];
  }

  /**
   * A config with every kind of entry: a block fork at zero, one above, a time fork at genesis, one after it, a null
   * and an entry of another kind.
   */
  ghost predicate IsSample(config: map<string, string>, zero: string, block: string, genesis: string, time: string,
      empty: string)
  {
    && ClassifyFork(zero) == ForkBlock && ClassifyFork(block) == ForkBlock && ClassifyFork(empty) == ForkBlock
    && ClassifyFork(genesis) == ForkTime && ClassifyFork(time) == ForkTime
    && zero in config && config[zero] == "0" && block in config && config[block] == "7"
    && genesis in config && config[genesis] == "100" && time in config && config[time] == "101"
    && empty in config && config[empty] == "null"
    && forall key :: key in config && key !in [zero, block, genesis, time, empty] ==> ClassifyFork(key) == ForkNone
  }

  lemma {:induction false} SampleBlocks(
      config: map<string, string>, zero: string, block: string, genesis: string, time: string, empty: string,
      parse: ParseUint, x: Uint64)
    requires IsSample(config, zero, block, genesis, time, empty)
    requires parse("0") == Some(0) && parse("7") == Some(7)
    ensures Listed(config, parse, config.Keys, ForkBlock, 0, x) <==> x == 7
  {
    if x == 7 { assert block in config.Keys; }
  }

  lemma {:induction false} SampleTimes(
      config: map<string, string>, zero: string, block: string, genesis: string, time: string, empty: string,
      parse: ParseUint, x: Uint64)
    requires IsSample(config, zero, block, genesis, time, empty)
    requires parse("100") == Some(100) && parse("101") == Some(101)
    ensures Listed(config, parse, config.Keys, ForkTime, 100, x) <==> x == 101
  {
    if x == 101 { assert time in config.Keys; }
  }

  /** With genesis at 100 it describes one block fork and one time fork, and no entry of it needs to be refused. */
  lemma {:induction false} SampleSchedule(
      config: map<string, string>, zero: string, block: string, genesis: string, time: string, empty: string,
      parse: ParseUint, s: Schedule)
    requires IsSample(config, zero, block, genesis, time, empty)
    requires parse("0") == Some(0) && parse("7") == Some(7) && parse("100") == Some(100) && parse("101") == Some(101)
    ensures Describes(config, 100, parse, s) <==> s == Schedule([7], [101])
    ensures !(exists key :: key in config && Relevant(key, config[key]) && parse(config[key]).None?)
  {
    forall x: Uint64 ensures Listed(config, parse, config.Keys, ForkBlock, 0, x) <==> x == 7 {
      SampleBlocks(config, zero, block, genesis, time, empty, parse, x);
    }
    forall x: Uint64 ensures Listed(config, parse, config.Keys, ForkTime, 100, x) <==> x == 101 {
      SampleTimes(config, zero, block, genesis, time, empty, parse, x);
    }
    OnlyElement(s.blocks, 7);
    OnlyElement(s.times, 101);
  }

  lemma {:induction false} OnlyElement(s: seq<Uint64>, x: Uint64)
    ensures Ascending<int>(IntLess, s) && (forall y: Uint64 :: y in s <==> y == x) <==> s == [x]
  {
    if Ascending<int>(IntLess, s) && forall y: Uint64 :: y in s <==> y == x {
      assert x in s;
      assert forall i :: 0 <= i < |s| ==> s[i] in s;
      assert |s| > 1 ==> IntLess(s[0], s[1]);
    }
  }
}
