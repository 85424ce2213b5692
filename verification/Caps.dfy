/** devp2p capability negotiation and the message space that the negotiated capabilities share. */
module Caps {
  import opened Base
  import opened Ordering

  datatype Cap = Cap(name: string, version: nat)

  const BASE_LENGTH: nat := 16

  predicate Supported(c: Cap)
  {
    match c.name
    case "eth" => 68 <= c.version <= 72
    case "snap" => c.version == 1 || c.version == 2
    case "wit" => c.version == 1
    case _ => false
  }

  predicate AllSupported(caps: seq<Cap>)
  {
    forall i :: 0 <= i < |caps| ==> Supported(caps[i])
  }

  // Negotiation.

  /** `v` is the highest version of `name` that both lists carry. */
  ghost predicate HighestCommon(local: seq<Cap>, remote: seq<Cap>, name: string, v: nat)
  {
    && Cap(name, v) in local && Cap(name, v) in remote
    && forall u: nat :: Cap(name, u) in local && Cap(name, u) in remote ==> u <= v
  }

  ghost predicate NamesAscend(caps: seq<Cap>)
  {
    forall i, j :: 0 <= i < j < |caps| ==> LexLess(caps[i].name, caps[j].name)
  }

  /** One highest common version for each common name, in the order of the names. */
  ghost predicate IsNegotiated(local: seq<Cap>, remote: seq<Cap>, caps: seq<Cap>)
  {
    && NamesAscend(caps)
    && forall c :: c in caps <==> HighestCommon(local, remote, c.name, c.version)
  }

  method NegotiatedCapabilities(local: seq<Cap>, remote: seq<Cap>) returns (r: Option<seq<Cap>>)
    ensures r.None? <==> !AllSupported(local)
    ensures r.Some? ==> IsNegotiated(local, remote, r.value)
  {
    var localVersions := LocalVersions(local);
    if localVersions.None? { return None; }
    var versions := HighestVersions(local, remote, localVersions.value);
    var names := KeysSorted(versions);
    var capabilities: seq<Cap> := [];
    for i := 0 to |names|
      invariant |capabilities| == i
      invariant forall k :: 0 <= k < i ==> capabilities[k] == Cap(names[k], versions[names[k]])
    {
      assert names[i] in names;
      capabilities := capabilities + [Cap(names[i], versions[names[i]])];
    }
    NegotiatedIs(local, remote, versions, names, capabilities);
    return Some(capabilities);
  }

  /** The versions offered under each name; None when some capability is not supported. */
  method LocalVersions(local: seq<Cap>) returns (r: Option<map<string, set<nat>>>)
    ensures r.None? <==> !AllSupported(local)
    ensures r.Some? ==> Indexes(r.value, local)
  {
    var localVersions: map<string, set<nat>> := map[];
    for i := 0 to |local|
      invariant AllSupported(local[..i]) && Indexes(localVersions, local[..i])
    {
      var c := local[i];
      if !Supported(c) { return None; }
      var versions := if c.name in localVersions then localVersions[c.name] else {};
      localVersions := localVersions[c.name := versions + {c.version}];
      assert local[..i + 1] == local[..i] + [c];
    }
    assert local[..|local|] == local;
    return Some(localVersions);
  }

  ghost predicate Indexes(m: map<string, set<nat>>, caps: seq<Cap>)
  {
    forall name, v :: (name in m && v in m[name]) <==> Cap(name, v) in caps
  }

  /** The highest common version under each common name. */
  method HighestVersions(
      local: seq<Cap>, remote: seq<Cap>, localVersions: map<string, set<nat>>) returns (versions: map<string, nat>)
    requires AllSupported(local) && Indexes(localVersions, local)
    ensures forall name :: name in versions ==> HighestCommon(local, remote, name, versions[name])
    ensures forall name, v :: Cap(name, v) in local && Cap(name, v) in remote ==> name in versions
  {
    versions := map[];
    for i := 0 to |remote|
      invariant forall name :: name in versions ==> HighestCommon(local, remote[..i], name, versions[name])
      invariant forall name, v :: Cap(name, v) in local && Cap(name, v) in remote[..i] ==> name in versions
    {
      var c := remote[i];
      var best := if c.name in versions then versions[c.name] else 0;
      assert remote[..i + 1] == remote[..i] + [c];
      if c.name in localVersions && c.version in localVersions[c.name] {
        assert Cap(c.name, c.version) in local;
        assert Supported(c) && c.version > 0;
        if c.version > best {
          versions := versions[c.name := c.version];
        }
      }
      HighestStep(local, remote[..i], c, versions);
    }
    assert remote[..|remote|] == remote;
  }

  lemma {:induction false} HighestStep(local: seq<Cap>, remote: seq<Cap>, c: Cap, versions: map<string, nat>)
    ensures forall name, v ::
      HighestCommon(local, remote, name, v) && (c.name != name || c !in local || c.version <= v) ==>
      HighestCommon(local, remote + [c], name, v)
  {
  }

  /** Collecting the names of a map in some order, then slices.Sort. */
  method KeysSorted(m: map<string, nat>) returns (names: seq<string>)
    ensures Ascending(LexLess, names)
    ensures forall k :: k in names <==> k in m
  {
    var rest := m.Keys;
    var found: seq<string> := [];
    while rest != {}
      invariant rest <= m.Keys
      invariant forall k :: k in found <==> k in m.Keys - rest
      invariant forall i, j :: 0 <= i < j < |found| ==> found[i] != found[j]
      decreases rest
    {
      var k :| k in rest;
      rest := rest - {k};
      found := found + [k];
    }
    LexStrictTotal();
    SortSorts(LexLess, found);
    names := Sort(LexLess, found);
    assert forall k :: k in names <==> k in multiset(names);
    assert forall k :: k in found <==> k in multiset(found);
    DistinctSorted(found, names);
  }

  lemma {:induction false} DistinctSorted(found: seq<string>, names: seq<string>)
    requires forall i, j :: 0 <= i < j < |found| ==> found[i] != found[j]
    requires multiset(names) == multiset(found) && Sorted(LexLess, names)
    ensures Ascending(LexLess, names)
  {
    forall i, j | 0 <= i < j < |names| ensures LexLess(names[i], names[j]) {
      LexTrichotomy(names[i], names[j]);
      if names[i] == names[j] {
        CountTwice(names, i, j);
        CountOnce(found, names[i]);
      }
    }
  }

  lemma {:induction false} CountTwice(s: seq<string>, i: nat, j: nat)
    requires i < j < |s| && s[i] == s[j]
    ensures multiset(s)[s[i]] >= 2
  {
    assert s == s[..i] + [s[i]] + s[i + 1..j] + [s[j]] + s[j + 1..];
  }

  lemma {:induction false} CountOnce(s: seq<string>, x: string)
    requires forall i, j :: 0 <= i < j < |s| ==> s[i] != s[j]
    ensures multiset(s)[x] <= 1
  {
    if s != [] {
      CountOnce(s[1..], x);
      assert s == [s[0]] + s[1..];
      assert s[0] !in s[1..];
    }
  }

  lemma {:induction false} NegotiatedIs(
      local: seq<Cap>, remote: seq<Cap>, versions: map<string, nat>, names: seq<string>, caps: seq<Cap>)
    requires Ascending(LexLess, names) && forall k :: k in names <==> k in versions
    requires |caps| == |names| && forall k :: 0 <= k < |names| ==> caps[k] == Cap(names[k], versions[names[k]])
    requires forall name :: name in versions ==> HighestCommon(local, remote, name, versions[name])
    requires forall name, v :: Cap(name, v) in local && Cap(name, v) in remote ==> name in versions
    ensures IsNegotiated(local, remote, caps)
  {
    forall c ensures c in caps <==> HighestCommon(local, remote, c.name, c.version) {
      if c in caps {
        var k :| 0 <= k < |caps| && caps[k] == c;
        assert names[k] in names;
      }
      if HighestCommon(local, remote, c.name, c.version) {
        assert c == Cap(c.name, c.version);
        var k :| 0 <= k < |names| && names[k] == c.name;
        assert caps[k] == c;
      }
    }
  }

  lemma {:induction false} AscendingCapsUnique(a: seq<Cap>, b: seq<Cap>)
    requires NamesAscend(a) && NamesAscend(b) && forall c :: c in a <==> c in b
    ensures a == b
  {
    if b != [] { assert b[0] in a; }
    if a != [] {
      assert a[0] in b;
      HeadsAgree(a, b);
      forall c ensures c in a[1..] <==> c in b[1..] {
        LexTrichotomy(a[0].name, a[0].name);
        assert c in a[1..] ==> c in a && c != a[0];
        assert c in b[1..] ==> c in b && c != b[0];
      }
      AscendingCapsUnique(a[1..], b[1..]);
    }
  }

  lemma {:induction false} HeadsAgree(a: seq<Cap>, b: seq<Cap>)
    requires NamesAscend(a) && NamesAscend(b) && a != [] && b != [] && a[0] in b && b[0] in a
    ensures a[0] == b[0]
  {
    var i :| 0 <= i < |b| && b[i] == a[0];
    var j :| 0 <= j < |a| && a[j] == b[0];
    assert i > 0 ==> LexLess(b[0].name, a[0].name);
    assert j > 0 ==> LexLess(a[0].name, b[0].name);
    if i > 0 { LexAsymmetric(b[0].name, a[0].name); }
  }

  /**
   * The result depends only on which capabilities each side lists, not on order or repetition, and not on which side
   * is called local.
   */
  lemma {:induction false} NegotiationAgrees(
      local: seq<Cap>, remote: seq<Cap>, local': seq<Cap>, remote': seq<Cap>, a: seq<Cap>, b: seq<Cap>)
    requires forall c :: c in local <==> c in local'
    requires forall c :: c in remote <==> c in remote'
    requires IsNegotiated(local, remote, a)
    requires IsNegotiated(remote', local', b) || IsNegotiated(local', remote', b)
    ensures a == b
  {
    forall c ensures c in a <==> c in b {
      HighestSame(local, remote, local', remote', c.name, c.version);
    }
    AscendingCapsUnique(a, b);
  }

  lemma {:induction false} HighestSame(
      local: seq<Cap>, remote: seq<Cap>, local': seq<Cap>, remote': seq<Cap>, name: string, v: nat)
    requires forall c :: c in local <==> c in local'
    requires forall c :: c in remote <==> c in remote'
    ensures HighestCommon(local, remote, name, v) <==> HighestCommon(local', remote', name, v)
    ensures HighestCommon(local, remote, name, v) <==> HighestCommon(remote', local', name, v)
  {
  }

  // The message space.

  /** ProtocolLength for ETH and the fixed lengths of the others; 0 stands for the error. */
  function Length(c: Cap): nat
  {
    match c.name
    case "eth" => EthLength(c.version)
    case "snap" => if c.version == 1 then 8 else if c.version == 2 then 10 else 0
    case "wit" => if c.version == 1 then 4 else 0
    case _ => 0
  }

  /** ProtocolLength. */
  function EthLength(version: nat): nat
  {
    match version
    case 68 => 17
    case 69 => 18
    case 70 => 18
    case 71 => 20
    case 72 => 22
    case _ => 0
  }

  lemma {:induction false} LengthKnownIff(c: Cap)
    ensures Length(c) > 0 <==> Supported(c)
  {
  }

  /** The first code after the capabilities listed. */
  function End(caps: seq<Cap>): nat
  {
    if caps == [] then BASE_LENGTH else End(caps[..|caps| - 1]) + Length(caps[|caps| - 1])
  }

  /** Where the capability at `i` starts. */
  function Start(caps: seq<Cap>, i: nat): nat
    requires i <= |caps|
  {
    End(caps[..i])
  }

  datatype Lookup = Found(offset: nat, version: nat) | NotNegotiated | UnknownLength

  function IndexOf(caps: seq<Cap>, name: string, i: nat): (r: nat)
    requires i <= |caps|
    ensures i <= r <= |caps|
    ensures r < |caps| ==> caps[r].name == name
    ensures forall j :: i <= j < r ==> caps[j].name != name
    decreases |caps| - i
  {
    if i == |caps| || caps[i].name == name then i else IndexOf(caps, name, i + 1)
  }

  /** The range start and version of `name`, in terms of the layout. */
  function Locate(caps: seq<Cap>, name: string): Lookup
  {
    var i := IndexOf(caps, name, 0);
    if i == |caps| then NotNegotiated else Found(Start(caps, i), caps[i].version)
  }

  method CapabilityOffset(negotiated: seq<Cap>, name: string) returns (r: Lookup)
    ensures AllSupported(negotiated) ==> r == Locate(negotiated, name)
    ensures r != UnknownLength ==> r == Locate(negotiated, name)
  {
    ghost var target := IndexOf(negotiated, name, 0);
    var offset := BASE_LENGTH;
    for i := 0 to |negotiated|
      invariant i <= target && offset == Start(negotiated, i)
    {
      if negotiated[i].name == name {
        return Found(offset, negotiated[i].version);
      }
      LengthKnownIff(negotiated[i]);
      if Length(negotiated[i]) == 0 { return UnknownLength; }
      offset := offset + Length(negotiated[i]);
      StartStep(negotiated, i);
    }
    return NotNegotiated;
  }

  /** Code `code` belongs to the capability at `i`. */
  ghost predicate Owns(caps: seq<Cap>, i: nat, code: nat)
    requires i < |caps|
  {
    Start(caps, i) <= code < Start(caps, i) + Length(caps[i])
  }

  lemma {:induction false} StartStep(caps: seq<Cap>, i: nat)
    requires i < |caps|
    ensures Start(caps, i + 1) == Start(caps, i) + Length(caps[i])
  {
    assert caps[..i + 1][..i] == caps[..i];
  }

  lemma {:induction false} StartsGrow(caps: seq<Cap>, i: nat, j: nat)
    requires i <= j <= |caps|
    ensures BASE_LENGTH <= Start(caps, i) <= Start(caps, j)
    decreases j
  {
    if i < j {
      StartsGrow(caps, i, j - 1);
      StartStep(caps, j - 1);
    } else if i > 0 {
      StartsGrow(caps, i - 1, i - 1);
      StartStep(caps, i - 1);
    }
  }

  /**
   * The ranges tile the codes from 16 on: every code below the end has exactly one owner, and no other code has any.
   */
  lemma {:induction false} RangesTile(caps: seq<Cap>, code: nat)
    ensures BASE_LENGTH <= code < End(caps) <==> exists i :: 0 <= i < |caps| && Owns(caps, i, code)
    ensures forall i, j :: 0 <= i < |caps| && 0 <= j < |caps| && Owns(caps, i, code) && Owns(caps, j, code) ==> i == j
  {
    forall i, j | 0 <= i < j < |caps| ensures !(Owns(caps, i, code) && Owns(caps, j, code)) {
      StartStep(caps, i);
      StartsGrow(caps, i + 1, j);
    }
    assert caps[..|caps|] == caps;
    OwnerExists(caps, code, |caps|);
    forall i | 0 <= i < |caps| && Owns(caps, i, code) ensures BASE_LENGTH <= code < End(caps) {
      StartStep(caps, i);
      StartsGrow(caps, i, i);
      StartsGrow(caps, i + 1, |caps|);
    }
  }

  lemma {:induction false} OwnerExists(caps: seq<Cap>, code: nat, n: nat)
    requires n <= |caps|
    ensures BASE_LENGTH <= code < Start(caps, n) ==> exists i :: 0 <= i < n && Owns(caps, i, code)
  {
    if n > 0 && BASE_LENGTH <= code < Start(caps, n) {
      StartStep(caps, n - 1);
      if code < Start(caps, n - 1) {
        OwnerExists(caps, code, n - 1);
      } else {
        assert Owns(caps, n - 1, code);
      }
    }
  }

  lemma {:induction false} NegotiatedIsSupported(local: seq<Cap>, remote: seq<Cap>, caps: seq<Cap>)
    requires AllSupported(local) && IsNegotiated(local, remote, caps)
    ensures AllSupported(caps)
  {
    forall i | 0 <= i < |caps| ensures Supported(caps[i]) {
      assert caps[i] in caps;
      var k :| 0 <= k < |local| && local[k] == Cap(caps[i].name, caps[i].version);
    }
  }

  /**
   * Two peers that each negotiate from their own list and the other's Hello assign every wire code to the same
   * capability at the same relative code.
   */
  lemma {:induction false} PeersRouteAlike(
      mine: seq<Cap>, theirs: seq<Cap>, a: seq<Cap>, b: seq<Cap>, code: nat, i: nat, j: nat)
    requires IsNegotiated(mine, theirs, a) && IsNegotiated(theirs, mine, b)
    requires i < |a| && j < |b| && Owns(a, i, code) && Owns(b, j, code)
    ensures a[i] == b[j] && code - Start(a, i) == code - Start(b, j)
  {
    NegotiationAgrees(mine, theirs, mine, theirs, a, b);
    RangesTile(a, code);
  }

  // The shortcuts.

  predicate Has(caps: seq<Cap>, name: string)
  {
    exists i :: 0 <= i < |caps| && caps[i].name == name
  }

  function Rank(name: string): nat
  {
    if name == "eth" then 0 else if name == "snap" then 1 else 2
  }

  /** The supported names sort as eth, snap, wit. */
  lemma {:induction false} NamesRank(a: Cap, b: Cap)
    requires Supported(a) && Supported(b) && LexLess(a.name, b.name)
    ensures Rank(a.name) < Rank(b.name)
  {
    assert LexLess("eth", "snap") && LexLess("snap", "wit") && LexLess("eth", "wit");
    LexAsymmetric(a.name, b.name);
  }

  lemma {:induction false} RanksAscend(caps: seq<Cap>)
    requires NamesAscend(caps) && AllSupported(caps)
    ensures forall i, j :: 0 <= i < j < |caps| ==> Rank(caps[i].name) < Rank(caps[j].name)
  {
    forall i, j | 0 <= i < j < |caps| ensures Rank(caps[i].name) < Rank(caps[j].name) {
      NamesRank(caps[i], caps[j]);
    }
  }

  lemma {:induction false} RankAtLeast(caps: seq<Cap>, i: nat)
    requires forall i, j :: 0 <= i < j < |caps| ==> Rank(caps[i].name) < Rank(caps[j].name)
    requires i < |caps|
    ensures Rank(caps[i].name) >= i
  {
    if i > 0 { RankAtLeast(caps, i - 1); }
  }

  lemma {:induction false} IndexWhere(caps: seq<Cap>, name: string, i: nat)
    requires NamesAscend(caps) && AllSupported(caps) && i < |caps| && caps[i].name == name
    ensures IndexOf(caps, name, 0) == i
  {
    RanksAscend(caps);
  }

  /** When eth is negotiated it starts the message space, as WaitStatus hard-codes. */
  lemma {:induction false} EthStartsAt16(caps: seq<Cap>)
    requires NamesAscend(caps) && AllSupported(caps) && Has(caps, "eth")
    ensures Locate(caps, "eth") == Found(16, caps[0].version) && caps[0].name == "eth"
  {
    RanksAscend(caps);
    var i :| 0 <= i < |caps| && caps[i].name == "eth";
    IndexWhere(caps, "eth", i);
    assert Start(caps, 0) == End(caps[..0]) == 16;
  }

  /** What Conn and PreStatusConn store: the offset, or zero. */
  function OffsetOrZero(caps: seq<Cap>, name: string): nat
  {
    var r := Locate(caps, name);
    if r.Found? then r.offset else 0
  }

  /** A stored SNAP offset of zero means that SNAP was not negotiated. */
  lemma {:induction false} ZeroOffsetIff(caps: seq<Cap>, name: string)
    ensures OffsetOrZero(caps, name) == 0 <==> !Has(caps, name)
  {
    var i := IndexOf(caps, name, 0);
    if i < |caps| { StartsGrow(caps, i, i); }
  }

  /**
   * The shortcut of package wit, ETH offset plus ETH length, is the real WIT offset exactly without SNAP in between.
   */
  lemma {:induction false} WitShortcutIff(caps: seq<Cap>)
    requires NamesAscend(caps) && AllSupported(caps) && Has(caps, "eth") && Has(caps, "wit")
    ensures OffsetOrZero(caps, "eth") + EthLength(caps[0].version) == OffsetOrZero(caps, "wit") <==> !Has(caps, "snap")
  {
    EthStartsAt16(caps);
    RanksAscend(caps);
    var w :| 0 <= w < |caps| && caps[w].name == "wit";
    IndexWhere(caps, "wit", w);
    StartStep(caps, 0);
    assert Start(caps, 0) == End(caps[..0]) == 16;
    if Has(caps, "snap") {
      var s :| 0 <= s < |caps| && caps[s].name == "snap";
      RankAtLeast(caps, s);
      RankAtLeast(caps, w);
      assert s == 1 && w == 2;
      StartStep(caps, 1);
      LengthKnownIff(caps[1]);
    } else {
      assert Supported(caps[1]) && caps[1].name != "snap";
      RankAtLeast(caps, w);
      assert w == 1;
    }
  }

  const WIT_CAPS := [Cap("eth", 69), Cap("eth", 68), Cap("wit", 1)]

  lemma {:induction false} WitCapsLackSnap(remote: seq<Cap>, caps: seq<Cap>)
    requires IsNegotiated(WIT_CAPS, remote, caps)
    ensures !Has(caps, "snap")
  {
    forall i | 0 <= i < |caps| ensures caps[i].name != "snap" {
      assert caps[i] in caps;
      assert Cap(caps[i].name, caps[i].version) in WIT_CAPS;
    }
  }

  /** The list that package wit offers leaves no room for SNAP, so its shortcut is right whenever the dial succeeds. */
  lemma {:induction false} WitDialShortcut(remote: seq<Cap>, caps: seq<Cap>)
    requires IsNegotiated(WIT_CAPS, remote, caps)
    requires Has(caps, "eth") && Cap("wit", 1) in remote
    ensures caps[0].name == "eth"
    ensures Locate(caps, "wit") == Found(OffsetOrZero(caps, "eth") + EthLength(caps[0].version), 1)
  {
    NegotiatedIsSupported(WIT_CAPS, remote, caps);
    assert WIT_CAPS[2] == Cap("wit", 1);
    assert HighestCommon(WIT_CAPS, remote, "wit", 1);
    assert Cap("wit", 1) in caps;
    WitCapsLackSnap(remote, caps);
    EthStartsAt16(caps);
    var w :| 0 <= w < |caps| && caps[w] == Cap("wit", 1);
    IndexWhere(caps, "wit", w);
    WitShortcutIff(caps);
  }

  /** The range that ReadRaw lets through, and the code it reports. */
  predicate WitAccepts(offset: nat, code: nat) { offset <= code < offset + 4 }

  /** It is exactly the range that the layout gives to WIT. */
  lemma {:induction false} WitFilterExact(caps: seq<Cap>, code: nat, w: nat)
    requires NamesAscend(caps) && AllSupported(caps) && w < |caps| && caps[w].name == "wit"
    ensures WitAccepts(OffsetOrZero(caps, "wit"), code) <==> Owns(caps, w, code)
  {
    IndexWhere(caps, "wit", w);
  }

  // Configuration.

  datatype Config = Config(maxVersion: nat, snapVersion: nat, capabilities: seq<Cap>)

  predicate ValidConfig(c: Config)
  {
    && !(c.capabilities != [] && (c.maxVersion != 0 || c.snapVersion != 0))
    && (c.maxVersion == 0 || 68 <= c.maxVersion <= 72)
    && (c.snapVersion == 0 || c.snapVersion == 1 || c.snapVersion == 2)
    && AllSupported(c.capabilities)
    && forall i, j :: 0 <= i < j < |c.capabilities| ==> c.capabilities[i] != c.capabilities[j]
  }

  /** The ETH versions from `maxVersion` down to 68. */
  function EthList(maxVersion: nat): (caps: seq<Cap>)
    requires 67 <= maxVersion
    ensures |caps| == maxVersion - 67
  {
    seq(maxVersion - 67, i requires 0 <= i < maxVersion - 67 => Cap("eth", maxVersion - i))
  }

  method EthCapabilities(maxVersion: nat) returns (caps: seq<Cap>)
    requires 68 <= maxVersion <= 72
    ensures caps == EthList(maxVersion)
  {
    caps := [];
    var version := maxVersion;
    while true
      invariant 68 <= version <= maxVersion && caps == EthList(maxVersion)[..maxVersion - version]
      decreases version
    {
      caps := caps + [Cap("eth", version)];
      if version == 68 { return; }
      version := version - 1;
    }
  }

  /** What a configuration offers when it does not list capabilities itself. */
  function DefaultCapabilities(c: Config): seq<Cap>
    requires c.maxVersion == 0 || 68 <= c.maxVersion
  {
    EthList(if c.maxVersion == 0 then 70 else c.maxVersion) +
    if c.snapVersion == 0 then [] else [Cap("snap", c.snapVersion)]
  }

  /** A validated configuration always offers supported capabilities, so negotiation cannot refuse the local list. */
  method Capabilities(c: Config) returns (caps: seq<Cap>)
    requires ValidConfig(c)
    ensures AllSupported(caps) && caps != []
    ensures caps == if c.capabilities != [] then c.capabilities else DefaultCapabilities(c)
  {
    if c.capabilities != [] { return c.capabilities; }
    var maxVersion := if c.maxVersion == 0 then 70 else c.maxVersion;
    caps := EthCapabilities(maxVersion);
    if c.snapVersion != 0 {
      caps := caps + [Cap("snap", c.snapVersion)];
    }
  }

  // The numbers.

  /** The eight supported capabilities. */
  lemma {:induction false} SupportedList(c: Cap)
    ensures Supported(c) <==>
      c in {Cap("eth", 68), Cap("eth", 69), Cap("eth", 70), Cap("eth", 71), Cap("eth", 72),
            Cap("snap", 1), Cap("snap", 2), Cap("wit", 1)}
  {
  }

  /** Where everything lies when all three protocols are negotiated, for every version of them. */
  lemma {:induction false} FullLayout(eth: nat, snap: nat, wit: nat)
    requires 68 <= eth <= 72 && 1 <= snap <= 2
    requires wit == 16 + [17, 18, 18, 20, 22][eth - 68] + [8, 10][snap - 1]
    ensures var caps := [Cap("eth", eth), Cap("snap", snap), Cap("wit", 1)];
      && Locate(caps, "eth") == Found(16, eth)
      && Locate(caps, "snap") == Found(16 + [17, 18, 18, 20, 22][eth - 68], snap)
      && Locate(caps, "wit") == Found(wit, 1)
      && End(caps) == wit + 4
  {
    var caps := [Cap("eth", eth), Cap("snap", snap), Cap("wit", 1)];
    assert caps[..0] == [] && caps[..3] == caps;
    StartStep(caps, 0);
    StartStep(caps, 1);
    StartStep(caps, 2);
    assert IndexOf(caps, "eth", 0) == 0 && IndexOf(caps, "snap", 0) == 1 && IndexOf(caps, "wit", 0) == 2;
  }

  /** Without a list of its own a configuration offers ETH 70, 69 and 68, and SNAP only when a version is set. */
  lemma {:induction false} Defaults(snap: nat)
    requires 1 <= snap <= 2
    ensures DefaultCapabilities(Config(0, 0, [])) == [Cap("eth", 70), Cap("eth", 69), Cap("eth", 68)]
    ensures DefaultCapabilities(Config(68, snap, [])) == [Cap("eth", 68), Cap("snap", snap)]
  {
  }

  /**
   * What a negotiation keeps: only capabilities that both sides list, of each common name one, and of it no common
   * version is higher.
   */
  lemma {:induction false} HighestWins(local: seq<Cap>, remote: seq<Cap>, caps: seq<Cap>, d: Cap) returns (i: nat)
    requires AllSupported(local) && IsNegotiated(local, remote, caps)
    requires d in local && d in remote
    ensures i < |caps| && caps[i].name == d.name && caps[i].version >= d.version
    ensures caps[i] in local && caps[i] in remote
  {
    var v := HighestExists(local, remote, d.name, d.version);
    assert Cap(d.name, v) in caps;
    i :| 0 <= i < |caps| && caps[i] == Cap(d.name, v);
  }

  lemma {:induction false} HighestExists(local: seq<Cap>, remote: seq<Cap>, name: string, v: nat) returns (h: nat)
    requires AllSupported(local) && Cap(name, v) in local && Cap(name, v) in remote
    ensures h >= v && HighestCommon(local, remote, name, h)
    decreases 72 - v
  {
    if u: nat :| u > v && Cap(name, u) in local && Cap(name, u) in remote {
      assert Supported(Cap(name, u));
      h := HighestExists(local, remote, name, u);
    } else {
      h := v;
    }
  }
}
