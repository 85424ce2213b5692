/** EIP-1459 branch records and the guarded, memoised walk over the graph they form. */
module DnsWalk {
  import opened Base

  const MAX_BRANCH_CHILDREN := 13
  const BRANCH_PREFIX := "enrtree-branch:"

  /** decodeDnsdiscHashField succeeds on a child name; base32 stays abstract. */
  type HashCheck = string -> bool

  // Branch records.

  predicate HasPrefix(s: string, prefix: string)
  {
    |prefix| <= |s| && s[..|prefix|] == prefix
  }

  /** strings.Split(s, ","): one field more than there are commas. */
  function Split(s: string): (r: seq<string>)
    ensures |r| >= 1
  {
    if s == "" then [""]
    else
      var tail := Split(s[1..]);
      if s[0] == ',' then [""] + tail else [[s[0]] + tail[0]] + tail[1..]
  }

  function Join(fields: seq<string>): string
    requires fields != []
  {
    if |fields| == 1 then fields[0] else fields[0] + "," + Join(fields[1..])
  }

  lemma {:induction false} JoinSplit(s: string)
    ensures Join(Split(s)) == s
    ensures forall f :: f in Split(s) ==> ',' !in f
  {
    if s != "" {
      JoinSplit(s[1..]);
      var tail := Split(s[1..]);
      if s[0] == ',' {
        assert Split(s)[1..] == tail;
        assert "" + "," + s[1..] == s;
      } else {
        assert Split(s)[1..] == tail[1..];
        assert ',' !in tail[0];
        if |tail| == 1 {
          assert [s[0]] + s[1..] == s;
        } else {
          assert [s[0]] + tail[0] + "," + Join(tail[1..]) == [s[0]] + Join(tail) == s;
        }
      }
    }
  }

  lemma {:induction false} SplitField(f: string, rest: string)
    requires ',' !in f
    ensures Split(f) == [f]
    ensures Split(f + "," + rest) == [f] + Split(rest)
  {
    if f == "" {
      assert f + "," + rest == "," + rest;
      assert ("," + rest)[1..] == rest;
    } else {
      assert (f + "," + rest)[1..] == f[1..] + "," + rest;
      SplitField(f[1..], rest);
      assert [f[0]] + f[1..] == f;
    }
  }

  lemma {:induction false} SplitJoin(fields: seq<string>)
    requires fields != [] && forall f :: f in fields ==> ',' !in f
    ensures Split(Join(fields)) == fields
  {
    if |fields| == 1 {
      SplitField(fields[0], "");
    } else {
      SplitJoin(fields[1..]);
      SplitField(fields[0], Join(fields[1..]));
    }
  }

  /** The children of a well-formed branch record; None for anything else. */
  function ParseBranch(entry: string, hashOk: HashCheck): Option<seq<string>>
  {
    if !HasPrefix(entry, BRANCH_PREFIX) then None
    else
      var body := entry[|BRANCH_PREFIX|..];
      if body == "" then Some([])
      else
        var children := Split(body);
        if |children| <= MAX_BRANCH_CHILDREN && forall c :: c in children ==> c != "" && hashOk(c)
        then Some(children) else None
  }

  /** A list of children that a record may hold. */
  ghost predicate Usable(children: seq<string>, hashOk: HashCheck)
  {
    1 <= |children| <= 13 && forall c :: c in children ==> c != "" && ',' !in c && hashOk(c)
  }

  /** A branch record: the bare prefix, or the prefix and one to thirteen usable names with commas between them. */
  ghost predicate IsBranchRecord(entry: string, hashOk: HashCheck)
  {
    entry == "enrtree-branch:" ||
    exists children :: Usable(children, hashOk) && entry == "enrtree-branch:" + Join(children)
  }

  method ValidateBranch(entry: string, hashOk: HashCheck) returns (ok: bool)
    ensures ok == ParseBranch(entry, hashOk).Some?
    ensures ok <==> IsBranchRecord(entry, hashOk)
  {
    BranchIff(entry, hashOk);
    if !HasPrefix(entry, BRANCH_PREFIX) { return false; }
    var body := entry[|BRANCH_PREFIX|..];
    if body == "" { return true; }
    var children := Split(body);
    if |children| > MAX_BRANCH_CHILDREN { return false; }
    for i := 0 to |children|
      invariant forall k :: 0 <= k < i ==> children[k] != "" && hashOk(children[k])
    {
      if children[i] == "" || !hashOk(children[i]) {
        assert children[i] in children;
        return false;
      }
    }
    return true;
  }

  /** The walk's own reading of a record that has been validated. */
  method BranchChildren(entry: string, hashOk: HashCheck) returns (children: seq<string>)
    requires ParseBranch(entry, hashOk).Some?
    ensures ParseBranch(entry, hashOk) == Some(children)
  {
    var body := entry[|BRANCH_PREFIX|..];
    if body == "" { return []; }
    return Split(body);
  }

  /** Any list of one to thirteen usable names survives being written as a branch record. */
  lemma {:induction false} BranchRoundTrip(children: seq<string>, hashOk: HashCheck)
    requires 1 <= |children| <= MAX_BRANCH_CHILDREN
    requires forall c :: c in children ==> c != "" && ',' !in c && hashOk(c)
    ensures ParseBranch(BRANCH_PREFIX + Join(children), hashOk) == Some(children)
  {
    SplitJoin(children);
    assert children[0] in children;
    assert Join(children) != "";
    assert (BRANCH_PREFIX + Join(children))[..|BRANCH_PREFIX|] == BRANCH_PREFIX;
    assert (BRANCH_PREFIX + Join(children))[|BRANCH_PREFIX|..] == Join(children);
  }

  /** Exactly the branch records are accepted, and their children are the names between the commas. */
  lemma {:induction false} BranchIff(entry: string, hashOk: HashCheck)
    ensures ParseBranch(entry, hashOk).Some? <==> IsBranchRecord(entry, hashOk)
    ensures entry == "enrtree-branch:" ==> ParseBranch(entry, hashOk) == Some([])
    ensures forall children :: Usable(children, hashOk) && entry == "enrtree-branch:" + Join(children) ==>
      ParseBranch(entry, hashOk) == Some(children)
  {
    forall children | Usable(children, hashOk) && entry == "enrtree-branch:" + Join(children)
      ensures ParseBranch(entry, hashOk) == Some(children)
    {
      BranchRoundTrip(children, hashOk);
    }
    if ParseBranch(entry, hashOk).Some? && entry != "enrtree-branch:" { BranchFields(entry, hashOk); }
  }

  lemma {:induction false} BranchFields(entry: string, hashOk: HashCheck)
    requires ParseBranch(entry, hashOk).Some? && entry != "enrtree-branch:"
    ensures IsBranchRecord(entry, hashOk)
  {
    var body := entry[|BRANCH_PREFIX|..];
    assert entry == BRANCH_PREFIX + body;
    JoinSplit(body);
    assert Usable(Split(body), hashOk);
  }

  /** Commas, and nothing else, separate the names. */
  lemma {:induction false} CommasSeparate(a: string, b: string)
    ensures Join([a, b]) == a + "," + b && Join([a]) == a
  {
    assert [a, b][1..] == [b];
  }

  // The graph and the walk.

  /** Every published name with its children, None where the record is malformed. */
  type Graph = map<string, Option<seq<string>>>

  function GraphOf(entries: map<string, string>, hashOk: HashCheck): (g: Graph)
    ensures g.Keys == entries.Keys && Bounded(g)
  {
    map name | name in entries :: ParseBranch(entries[name], hashOk)
  }

  ghost predicate Bounded(g: Graph)
  {
    forall n :: n in g && g[n].Some? ==> |g[n].value| <= MAX_BRANCH_CHILDREN
  }

  predicate IsNode(g: Graph, n: string) { n in g && g[n].Some? }

  predicate Leaf(g: Graph, n: string) { n in g && g[n] == Some([]) }

  function Children(g: Graph, n: string): seq<string>
  {
    if IsNode(g, n) then g[n].value else []
  }

  datatype Verdict = Accepted | TooDeep | Cycle(at: string) | Missing(at: string) | Malformed(at: string)

  /**
   * The outcome of a walk: the verdict, the memo (names whose subtree is finished, oldest first), the number of calls
   * made and the names whose children were visited.
   */
  datatype Outcome = Outcome(verdict: Verdict, done: seq<string>, calls: nat, expanded: seq<string>)

  /** The walk goes on to the children of `name`. */
  predicate Expands(g: Graph, maxDepth: int, name: string, depth: nat, visiting: set<string>, done: seq<string>)
  {
    depth <= maxDepth && name !in visiting && name !in done && IsNode(g, name) && Children(g, name) != []
  }

  /** The verdict on a name whose children are not visited. */
  function Stop(g: Graph, maxDepth: int, name: string, depth: nat, visiting: set<string>, done: seq<string>): Verdict
  {
    if depth > maxDepth then TooDeep
    else if name in visiting then Cycle(name)
    else if name in done then Accepted
    else if name !in g then Missing(name)
    else if g[name].None? then Malformed(name)
    else Accepted
  }

  function Walk(g: Graph, maxDepth: int, name: string, depth: nat, visiting: set<string>, done: seq<string>): Outcome
    requires visiting <= g.Keys
    decreases |g.Keys - visiting|, 0, 0
  {
    if !Expands(g, maxDepth, name, depth, visiting, done) then
      Outcome(Stop(g, maxDepth, name, depth, visiting, done), done, 1, [])
    else
      Shrinks(g.Keys, visiting, name);
      var r := WalkAll(g, maxDepth, Children(g, name), depth + 1, visiting + {name}, done);
      Outcome(r.verdict, if r.verdict == Accepted then r.done + [name] else r.done, r.calls + 1, [name] + r.expanded)
  }

  function WalkAll(
      g: Graph, maxDepth: int, names: seq<string>, depth: nat, visiting: set<string>, done: seq<string>): Outcome
    requires visiting <= g.Keys
    decreases |g.Keys - visiting|, 1, |names|
  {
    if names == [] then Outcome(Accepted, done, 0, [])
    else
      var first := Walk(g, maxDepth, names[0], depth, visiting, done);
      if first.verdict != Accepted then first
      else
        var rest := WalkAll(g, maxDepth, names[1..], depth, visiting, first.done);
        Outcome(rest.verdict, rest.done, first.calls + rest.calls, first.expanded + rest.expanded)
  }

  lemma {:induction false} Shrinks(keys: set<string>, visiting: set<string>, name: string)
    requires name in keys && name !in visiting
    ensures |keys - (visiting + {name})| < |keys - visiting|
  {
    assert keys - visiting == (keys - (visiting + {name})) + {name};
  }

  // Reachability.

  /** There is a path of exactly `n` branch links from `from` to `to`. */
  ghost predicate ReachIn(g: Graph, from: string, to: string, n: nat)
    decreases n
  {
    if n == 0 then from == to
    else exists mid :: ReachIn(g, from, mid, n - 1) && to in Children(g, mid)
  }

  ghost predicate Reachable(g: Graph, from: string, to: string)
  {
    exists n: nat :: ReachIn(g, from, to, n)
  }

  lemma {:induction false} Extend(g: Graph, from: string, mid: string, to: string, n: nat)
    requires ReachIn(g, from, mid, n) && to in Children(g, mid)
    ensures ReachIn(g, from, to, n + 1)
  {
  }

  /** The four reasons for which a tree is unacceptable. */
  ghost predicate Faulty(g: Graph, maxDepth: int, root: string, v: Verdict)
  {
    match v
    case Accepted => false
    case TooDeep => exists to, n: nat :: n > maxDepth && ReachIn(g, root, to, n)
    case Cycle(at) => Reachable(g, root, at) && exists k: nat :: k >= 1 && ReachIn(g, at, at, k)
    case Missing(at) => Reachable(g, root, at) && at !in g
    case Malformed(at) => Reachable(g, root, at) && at in g && g[at].None?
  }

  /** The names on the current path all lead to `name`, which is `depth` links below the root. */
  ghost predicate OnPath(g: Graph, root: string, name: string, depth: nat, visiting: set<string>)
  {
    && ReachIn(g, root, name, depth)
    && (forall u :: u in visiting ==> exists k: nat :: k >= 1 && ReachIn(g, u, name, k))
  }

  lemma {:induction false} ChildOnPath(
      g: Graph, root: string, name: string, child: string, depth: nat, visiting: set<string>)
    requires OnPath(g, root, name, depth, visiting) && child in Children(g, name)
    ensures OnPath(g, root, child, depth + 1, visiting + {name})
  {
    forall u | u in visiting + {name} ensures exists k: nat :: k >= 1 && ReachIn(g, u, child, k) {
      if u == name {
        assert ReachIn(g, name, name, 0);
        Extend(g, name, name, child, 0);
      } else {
        var k: nat :| k >= 1 && ReachIn(g, u, name, k);
        Extend(g, u, name, child, k);
      }
    }
  }

  lemma {:induction false} ChildrenOnPath(g: Graph, root: string, name: string, depth: nat, visiting: set<string>)
    requires OnPath(g, root, name, depth, visiting)
    ensures forall c :: c in Children(g, name) ==> OnPath(g, root, c, depth + 1, visiting + {name})
  {
    forall c | c in Children(g, name) ensures OnPath(g, root, c, depth + 1, visiting + {name}) {
      ChildOnPath(g, root, name, c, depth, visiting);
    }
  }

  lemma {:induction false} WalkExpands(
      g: Graph, maxDepth: int, name: string, depth: nat, visiting: set<string>, done: seq<string>)
    requires visiting <= g.Keys && Expands(g, maxDepth, name, depth, visiting, done)
    ensures |g.Keys - (visiting + {name})| < |g.Keys - visiting|
    ensures var r := WalkAll(g, maxDepth, Children(g, name), depth + 1, visiting + {name}, done);
      Walk(g, maxDepth, name, depth, visiting, done) ==
        Outcome(r.verdict, if r.verdict == Accepted then r.done + [name] else r.done, r.calls + 1, [name] + r.expanded)
  {
    Shrinks(g.Keys, visiting, name);
  }

  lemma {:induction false} WalkStops(
      g: Graph, maxDepth: int, name: string, depth: nat, visiting: set<string>, done: seq<string>)
    requires visiting <= g.Keys && !Expands(g, maxDepth, name, depth, visiting, done)
    ensures Walk(g, maxDepth, name, depth, visiting, done)
      == Outcome(Stop(g, maxDepth, name, depth, visiting, done), done, 1, [])
  {
  }

  lemma {:induction false} StopIsJustified(
      g: Graph, maxDepth: int, root: string, name: string, depth: nat, visiting: set<string>, done: seq<string>)
    requires visiting <= g.Keys && OnPath(g, root, name, depth, visiting)
    requires !Expands(g, maxDepth, name, depth, visiting, done)
    ensures var v := Walk(g, maxDepth, name, depth, visiting, done).verdict;
      v == Accepted || Faulty(g, maxDepth, root, v)
  {
    assert Reachable(g, root, name);
  }

  /** A refusal always points at a genuine fault of the tree. */
  lemma {:induction false} RefusalIsJustified(
      g: Graph, maxDepth: int, root: string, name: string, depth: nat, visiting: set<string>, done: seq<string>)
    requires visiting <= g.Keys && OnPath(g, root, name, depth, visiting)
    ensures var v := Walk(g, maxDepth, name, depth, visiting, done).verdict;
      v == Accepted || Faulty(g, maxDepth, root, v)
    decreases |g.Keys - visiting|, 0, 0
  {
    if Expands(g, maxDepth, name, depth, visiting, done) {
      WalkExpands(g, maxDepth, name, depth, visiting, done);
      ChildrenOnPath(g, root, name, depth, visiting);
      RefusalsAreJustified(g, maxDepth, root, Children(g, name), depth + 1, visiting + {name}, done);
    } else {
      StopIsJustified(g, maxDepth, root, name, depth, visiting, done);
    }
  }

  lemma {:induction false} RefusalsAreJustified(
      g: Graph, maxDepth: int, root: string, names: seq<string>, depth: nat, visiting: set<string>, done: seq<string>)
    requires visiting <= g.Keys && forall c :: c in names ==> OnPath(g, root, c, depth, visiting)
    ensures var v := WalkAll(g, maxDepth, names, depth, visiting, done).verdict;
      v == Accepted || Faulty(g, maxDepth, root, v)
    decreases |g.Keys - visiting|, 1, |names|
  {
    if names != [] {
      RefusalIsJustified(g, maxDepth, root, names[0], depth, visiting, done);
      var first := Walk(g, maxDepth, names[0], depth, visiting, done);
      RefusalsAreJustified(g, maxDepth, root, names[1..], depth, visiting, first.done);
    }
  }

  // What the memo means.

  /**
   * The memo lists distinct non-empty branches, each after all its children, within `maxDepth` links of the root and
   * not on the current path.
   */
  ghost predicate Settled(g: Graph, maxDepth: int, root: string, visiting: set<string>, done: seq<string>)
  {
    && (forall i :: 0 <= i < |done| ==> Finished(g, maxDepth, root, done[i], done[..i]) && done[i] !in visiting)
    && (forall i, j :: 0 <= i < j < |done| ==> done[i] != done[j])
  }

  ghost predicate Near(g: Graph, maxDepth: int, root: string, n: string)
  {
    exists k: nat :: k <= maxDepth && ReachIn(g, root, n, k)
  }

  ghost predicate Finished(g: Graph, maxDepth: int, root: string, n: string, earlier: seq<string>)
  {
    && IsNode(g, n) && Children(g, n) != [] && Near(g, maxDepth, root, n)
    && forall c :: c in Children(g, n) ==> Safe(g, maxDepth, root, c, earlier)
  }

  /** Accepted by the walk: an empty branch that is near enough, or a memoised one. */
  ghost predicate Safe(g: Graph, maxDepth: int, root: string, n: string, done: seq<string>)
  {
    n in done || (Leaf(g, n) && Near(g, maxDepth, root, n))
  }

  lemma {:induction false} SettledAppend(
      g: Graph, maxDepth: int, root: string, visiting: set<string>, done: seq<string>, n: string)
    requires Settled(g, maxDepth, root, visiting + {n}, done) && n !in visiting
    requires Finished(g, maxDepth, root, n, done)
    ensures Settled(g, maxDepth, root, visiting, done + [n])
  {
    var d := done + [n];
    forall i | 0 <= i < |d| ensures Finished(g, maxDepth, root, d[i], d[..i]) && d[i] !in visiting {
      assert d[..i] == done[..i];
      if i == |done| { assert done[..i] == done; }
    }
  }

  /** The walk extends the memo, keeps it settled, and when it accepts, the name is safe. */
  lemma {:induction false} WalkSettles(
      g: Graph, maxDepth: int, root: string, name: string, depth: nat, visiting: set<string>, done: seq<string>)
    requires visiting <= g.Keys && ReachIn(g, root, name, depth)
    requires Settled(g, maxDepth, root, visiting, done)
    ensures var r := Walk(g, maxDepth, name, depth, visiting, done);
      && done <= r.done
      && (r.verdict == Accepted ==>
        Settled(g, maxDepth, root, visiting, r.done) && Safe(g, maxDepth, root, name, r.done))
    decreases |g.Keys - visiting|, 0, 0
  {
    if depth <= maxDepth {
      assert Near(g, maxDepth, root, name);
      if name !in visiting && name !in done && IsNode(g, name) && g[name].value != [] {
        Shrinks(g.Keys, visiting, name);
        forall c | c in g[name].value ensures ReachIn(g, root, c, depth + 1) {
          Extend(g, root, name, c, depth);
        }
        assert Settled(g, maxDepth, root, visiting + {name}, done);
        WalkAllSettles(g, maxDepth, root, g[name].value, depth + 1, visiting + {name}, done);
        var r := WalkAll(g, maxDepth, g[name].value, depth + 1, visiting + {name}, done);
        if r.verdict == Accepted {
          SettledAppend(g, maxDepth, root, visiting, r.done, name);
          assert name in r.done + [name];
        }
      }
    }
  }

  lemma {:induction false} WalkAllSettles(
      g: Graph, maxDepth: int, root: string, names: seq<string>, depth: nat, visiting: set<string>, done: seq<string>)
    requires visiting <= g.Keys && forall c :: c in names ==> ReachIn(g, root, c, depth)
    requires Settled(g, maxDepth, root, visiting, done)
    ensures var r := WalkAll(g, maxDepth, names, depth, visiting, done);
      && done <= r.done
      && (r.verdict == Accepted ==>
            Settled(g, maxDepth, root, visiting, r.done) &&
            forall c :: c in names ==> Safe(g, maxDepth, root, c, r.done))
    decreases |g.Keys - visiting|, 1, |names|
  {
    if names != [] {
      WalkSettles(g, maxDepth, root, names[0], depth, visiting, done);
      var first := Walk(g, maxDepth, names[0], depth, visiting, done);
      if first.verdict == Accepted {
        WalkAllSettles(g, maxDepth, root, names[1..], depth, visiting, first.done);
        var r := WalkAll(g, maxDepth, names, depth, visiting, done);
        assert names == [names[0]] + names[1..];
        if r.verdict == Accepted && names[0] in first.done {
          assert names[0] in r.done;
        }
      }
    }
  }

  /** Everything below a safe name is safe. */
  lemma {:induction false} SafeIsClosed(
      g: Graph, maxDepth: int, root: string, done: seq<string>, from: string, to: string, n: nat)
    requires Settled(g, maxDepth, root, {}, done) && Safe(g, maxDepth, root, from, done) && ReachIn(g, from, to, n)
    ensures Safe(g, maxDepth, root, to, done)
    decreases n
  {
    if n > 0 {
      var mid :| ReachIn(g, from, mid, n - 1) && to in Children(g, mid);
      SafeIsClosed(g, maxDepth, root, done, from, mid, n - 1);
      var i :| 0 <= i < |done| && done[i] == mid;
      assert Finished(g, maxDepth, root, mid, done[..i]);
    }
  }

  /** Links lead strictly down the memo, so nothing in it lies on a cycle. */
  lemma {:induction false} LinksGoDown(
      g: Graph, maxDepth: int, root: string, done: seq<string>, i: nat, to: string, n: nat)
    requires Settled(g, maxDepth, root, {}, done) && i < |done| && n >= 1 && ReachIn(g, done[i], to, n)
    ensures to in done[..i] || Leaf(g, to)
    decreases n
  {
    var mid :| ReachIn(g, done[i], mid, n - 1) && to in Children(g, mid);
    if n == 1 {
      assert Finished(g, maxDepth, root, done[i], done[..i]);
    } else {
      LinksGoDown(g, maxDepth, root, done, i, mid, n - 1);
      var j :| 0 <= j < i && done[j] == mid;
      assert Finished(g, maxDepth, root, mid, done[..j]);
      assert done[..j] <= done[..i];
    }
  }

  lemma {:induction false} LeafHasNoLinks(g: Graph, leaf: string, to: string, n: nat)
    requires Leaf(g, leaf) && ReachIn(g, leaf, to, n)
    ensures n == 0
    decreases n
  {
    if n > 0 {
      var mid :| ReachIn(g, leaf, mid, n - 1) && to in Children(g, mid);
      LeafHasNoLinks(g, leaf, mid, n - 1);
    }
  }

  ghost predicate Acyclic(g: Graph, n: string)
  {
    forall k: nat :: k >= 1 ==> !ReachIn(g, n, n, k)
  }

  /** A usable tree: every name below the root is published, well-formed, and on no cycle. */
  ghost predicate WellFormed(g: Graph, root: string)
  {
    forall n :: Reachable(g, root, n) ==> IsNode(g, n) && Acyclic(g, n)
  }

  function WalkTree(g: Graph, root: string, maxDepth: int): Outcome
  {
    Walk(g, maxDepth, root, 0, {}, [])
  }

  /** Soundness: an accepted tree is well-formed and every name in it is within `maxDepth` links of the root. */
  lemma {:induction false} WalkSound(g: Graph, root: string, maxDepth: int)
    requires WalkTree(g, root, maxDepth).verdict == Accepted
    ensures WellFormed(g, root)
    ensures forall n :: Reachable(g, root, n) ==> Near(g, maxDepth, root, n)
  {
    assert ReachIn(g, root, root, 0);
    WalkSettles(g, maxDepth, root, root, 0, {}, []);
    var done := WalkTree(g, root, maxDepth).done;
    forall n | Reachable(g, root, n) ensures IsNode(g, n) && Acyclic(g, n) && Near(g, maxDepth, root, n) {
      var k: nat :| ReachIn(g, root, n, k);
      SafeIsClosed(g, maxDepth, root, done, root, n, k);
      SafeIsGood(g, maxDepth, root, done, n);
    }
  }

  lemma {:induction false} SafeIsGood(g: Graph, maxDepth: int, root: string, done: seq<string>, n: string)
    requires Settled(g, maxDepth, root, {}, done) && Safe(g, maxDepth, root, n, done)
    ensures IsNode(g, n) && Acyclic(g, n) && Near(g, maxDepth, root, n)
  {
    if n in done {
      var i :| 0 <= i < |done| && done[i] == n;
      assert Finished(g, maxDepth, root, n, done[..i]);
      forall k: nat | k >= 1 ensures !ReachIn(g, n, n, k) {
        if ReachIn(g, n, n, k) { LinksGoDown(g, maxDepth, root, done, i, n, k); }
      }
    } else {
      forall k: nat | k >= 1 ensures !ReachIn(g, n, n, k) {
        if ReachIn(g, n, n, k) { LeafHasNoLinks(g, n, n, k); }
      }
    }
  }

  /** Completeness: a well-formed tree without a path of more than `maxDepth` links is accepted. */
  lemma {:induction false} WalkComplete(g: Graph, root: string, maxDepth: int)
    requires WellFormed(g, root)
    requires forall n, k: nat :: ReachIn(g, root, n, k) ==> k <= maxDepth
    ensures WalkTree(g, root, maxDepth).verdict == Accepted
  {
    assert ReachIn(g, root, root, 0);
    RefusalIsJustified(g, maxDepth, root, root, 0, {}, []);
  }

  // Cost.

  ghost predicate Distinct(s: seq<string>)
  {
    forall i, j :: 0 <= i < j < |s| ==> s[i] != s[j]
  }

  lemma {:induction false} DistinctConcat(a: seq<string>, b: seq<string>)
    requires Distinct(a) && Distinct(b) && forall n :: n in b ==> n !in a
    ensures Distinct(a + b)
  {
    forall i, j | 0 <= i < j < |a + b| ensures (a + b)[i] != (a + b)[j] {
      if i < |a| <= j { assert b[j - |a|] in b; }
    }
  }

  /**
   * Names are expanded once each, none of them on the path or in the memo, and every call but the first has a parent.
   */
  ghost predicate Frugal(g: Graph, visiting: set<string>, done: seq<string>, r: Outcome, calls: nat)
  {
    && Distinct(r.expanded)
    && (forall n :: n in r.expanded ==> n in g && n !in visiting && n !in done)
    && (r.verdict == Accepted ==> forall n :: n in r.done <==> n in done || n in r.expanded)
    && r.calls <= calls + MAX_BRANCH_CHILDREN * |r.expanded|
  }

  lemma {:induction false} WalkIsFrugal(
      g: Graph, maxDepth: int, name: string, depth: nat, visiting: set<string>, done: seq<string>)
    requires visiting <= g.Keys && Bounded(g)
    ensures Frugal(g, visiting, done, Walk(g, maxDepth, name, depth, visiting, done), 1)
    decreases |g.Keys - visiting|, 0, 0
  {
    if Expands(g, maxDepth, name, depth, visiting, done) {
      WalkExpands(g, maxDepth, name, depth, visiting, done);
      WalkAllIsFrugal(g, maxDepth, Children(g, name), depth + 1, visiting + {name}, done);
      var r := WalkAll(g, maxDepth, Children(g, name), depth + 1, visiting + {name}, done);
      assert name !in r.expanded;
    }
  }

  lemma {:induction false} WalkAllIsFrugal(
      g: Graph, maxDepth: int, names: seq<string>, depth: nat, visiting: set<string>, done: seq<string>)
    requires visiting <= g.Keys && Bounded(g)
    ensures Frugal(g, visiting, done, WalkAll(g, maxDepth, names, depth, visiting, done), |names|)
    decreases |g.Keys - visiting|, 1, |names|
  {
    if names != [] {
      WalkIsFrugal(g, maxDepth, names[0], depth, visiting, done);
      var first := Walk(g, maxDepth, names[0], depth, visiting, done);
      if first.verdict == Accepted {
        WalkAllIsFrugal(g, maxDepth, names[1..], depth, visiting, first.done);
        DistinctConcat(first.expanded, WalkAll(g, maxDepth, names[1..], depth, visiting, first.done).expanded);
      }
    }
  }

  lemma {:induction false} DistinctSize(s: seq<string>, keys: set<string>)
    requires Distinct(s) && forall n :: n in s ==> n in keys
    ensures |s| <= |keys|
  {
    if s != [] {
      assert forall i :: 1 <= i < |s| ==> s[i] == s[1..][i - 1];
      DistinctSize(s[1..], keys - {s[0]});
    }
  }

  /** On every graph, cyclic or not, and for every depth bound: at most 1 + 13 calls per published name. */
  lemma {:induction false} WalkCost(g: Graph, root: string, maxDepth: int)
    requires Bounded(g)
    ensures Distinct(WalkTree(g, root, maxDepth).expanded)
    ensures WalkTree(g, root, maxDepth).calls <= 1 + 13 * |g|
  {
    WalkIsFrugal(g, maxDepth, root, 0, {}, []);
    DistinctSize(WalkTree(g, root, maxDepth).expanded, g.Keys);
  }

  // Small trees.

  /** What is decided at the root, in the order of the checks, whatever the rest of the tree. */
  lemma {:induction false} RootVerdicts(g: Graph, root: string, maxDepth: int)
    ensures maxDepth < 0 ==> WalkTree(g, root, maxDepth).verdict == TooDeep
    ensures maxDepth >= 0 && root !in g ==> WalkTree(g, root, maxDepth).verdict == Missing(root)
    ensures maxDepth >= 0 && root in g && g[root] == None ==> WalkTree(g, root, maxDepth).verdict == Malformed(root)
    ensures maxDepth >= 0 && root in g && g[root] == Some([]) ==> WalkTree(g, root, maxDepth).verdict == Accepted
  {
  }

  /** What is decided at an only child: its depth before a cycle, a cycle before its record. */
  lemma {:induction false} ChildVerdicts(g: Graph, root: string, child: string, maxDepth: int)
    requires root in g && g[root] == Some([child]) && maxDepth >= 0
    ensures maxDepth == 0 ==> WalkTree(g, root, maxDepth).verdict == TooDeep
    ensures maxDepth >= 1 && child == root ==> WalkTree(g, root, maxDepth).verdict == Cycle(root)
    ensures maxDepth >= 1 && child !in g ==> WalkTree(g, root, maxDepth).verdict == Missing(child)
    ensures maxDepth >= 1 && child in g && g[child] == None ==> WalkTree(g, root, maxDepth).verdict == Malformed(child)
    ensures maxDepth >= 1 && child in g && g[child] == Some([]) ==> WalkTree(g, root, maxDepth).verdict == Accepted
  {
    WalkExpands(g, maxDepth, root, 0, {}, []);
    assert {} + {root} == {root} && [child][1..] == [];
    if !Expands(g, maxDepth, child, 1, {root}, []) { WalkStops(g, maxDepth, child, 1, {root}, []); }
    var w := Walk(g, maxDepth, child, 1, {root}, []);
    assert WalkAll(g, maxDepth, [child], 1, {root}, []).verdict == w.verdict;
  }

  /** Two records as published: a root with one child and the child, a bare prefix. */
  lemma {:induction false} TwoRecords(
      entries: map<string, string>, hashOk: HashCheck, root: string, child: string, maxDepth: int)
    requires root in entries && entries[root] == "enrtree-branch:" + child
    requires child in entries && entries[child] == "enrtree-branch:"
    requires child != "" && ',' !in child && hashOk(child) && maxDepth >= 1
    ensures WalkTree(GraphOf(entries, hashOk), root, maxDepth).verdict == Accepted
    ensures WalkTree(GraphOf(entries, hashOk), child, maxDepth).verdict == Accepted
  {
    CommasSeparate(child, child);
    assert Usable([child], hashOk);
    BranchIff(entries[root], hashOk);
    BranchIff(entries[child], hashOk);
    ChildVerdicts(GraphOf(entries, hashOk), root, child, maxDepth);
    RootVerdicts(GraphOf(entries, hashOk), child, maxDepth);
  }

  // The recursive closure of the source, with its two captured maps.

  class Walker {
    const entries: map<string, string>
    const hashOk: HashCheck
    const maxDepth: int
    ghost const g: Graph
    var visiting: set<string>
    var visited: set<string>
    ghost var done: seq<string>
    ghost var calls: nat

    constructor (entries: map<string, string>, hashOk: HashCheck, maxDepth: int)
      ensures this.entries == entries && this.hashOk == hashOk && this.maxDepth == maxDepth
      ensures g == GraphOf(entries, hashOk) && Reads() && Valid()
      ensures visiting == {} && visited == {} && done == [] && calls == 0
    {
      this.entries, this.hashOk, this.maxDepth := entries, hashOk, maxDepth;
      visiting, visited, done, calls := {}, {}, [], 0;
      g := GraphOf(entries, hashOk);
    }

    /** The graph that the records describe; it never changes. */
    ghost predicate Reads()
    {
      g == GraphOf(entries, hashOk)
    }

    ghost predicate Valid()
      reads this
    {
      visiting <= g.Keys && forall n :: n in visited <==> n in done
    }

    method Visit(name: string, depth: nat) returns (v: Verdict)
      requires Reads() && Valid()
      modifies this
      ensures Valid() && visiting == old(visiting)
      ensures var w := Walk(g, maxDepth, name, depth, old(visiting), old(done));
        v == w.verdict && done == w.done && calls == old(calls) + w.calls
      decreases |g.Keys - visiting|, 0, 1
    {
      calls := calls + 1;
      var children: seq<string>;
      v, children := Guard(name, depth);
      if children == [] {
        WalkStops(g, maxDepth, name, depth, visiting, done);
      } else {
        WalkExpands(g, maxDepth, name, depth, visiting, done);
        v := Expand(name, depth, children);
      }
    }

    /** The part of the closure that runs with `name` on the current path. */
    method Expand(name: string, depth: nat, children: seq<string>) returns (v: Verdict)
      requires Reads() && Valid() && name in g && name !in visiting
      modifies this
      ensures Valid() && visiting == old(visiting)
      ensures var r := WalkAll(g, maxDepth, children, depth + 1, old(visiting) + {name}, old(done));
        v == r.verdict && calls == old(calls) + r.calls &&
        done == if r.verdict == Accepted then r.done + [name] else r.done
      decreases |g.Keys - visiting|, 0, 0
    {
      Shrinks(g.Keys, visiting, name);
      visiting := visiting + {name};
      v := VisitChildren(children, depth + 1);
      Leave(name, v == Accepted);
      assert visiting == old(visiting);
    }

    /** Takes `name` off the current path and, if it is finished, memoises it. */
    method Leave(name: string, finished: bool)
      requires Valid()
      modifies this`visiting, this`visited, this`done
      ensures Valid() && visiting == old(visiting) - {name}
      ensures done == if finished then old(done) + [name] else old(done)
    {
      visiting := visiting - {name};
      if finished {
        visited := visited + {name};
        done := done + [name];
      }
    }

    /** The checks that precede the visit of the children; without children there is nothing more to do. */
    method Guard(name: string, depth: nat) returns (v: Verdict, children: seq<string>)
      requires Reads() && Valid()
      ensures children != [] <==> Expands(g, maxDepth, name, depth, visiting, done)
      ensures children != [] ==> children == Children(g, name)
      ensures children == [] ==> v == Stop(g, maxDepth, name, depth, visiting, done)
    {
      children := [];
      if depth > maxDepth { return TooDeep, []; }
      if name in visiting { return Cycle(name), []; }
      if name in visited { return Accepted, []; }
      if name !in entries { return Missing(name), []; }
      var entry := entries[name];
      var ok := ValidateBranch(entry, hashOk);
      if !ok { return Malformed(name), []; }
      children := BranchChildren(entry, hashOk);
      v := Accepted;
    }

    /** The loop over the children of a branch. */
    method VisitChildren(children: seq<string>, depth: nat) returns (v: Verdict)
      requires Reads() && Valid()
      modifies this
      ensures Valid() && visiting == old(visiting)
      ensures var w := WalkAll(g, maxDepth, children, depth, old(visiting), old(done));
        v == w.verdict && done == w.done && calls == old(calls) + w.calls
      decreases |g.Keys - visiting|, 1, 0
    {
      ghost var all := WalkAll(g, maxDepth, children, depth, visiting, done);
      assert children[0..] == children;
      for i := 0 to |children|
        invariant Valid() && visiting == old(visiting)
        invariant var w := WalkAll(g, maxDepth, children[i..], depth, visiting, done);
          all.verdict == w.verdict && all.done == w.done && old(calls) + all.calls == calls + w.calls
      {
        WalkAllStep(g, maxDepth, children, i, depth, visiting, done);
        v := Visit(children[i], depth);
        if v != Accepted { return; }
      }
      v := Accepted;
    }
  }

  lemma {:induction false} WalkAllStep(
      g: Graph, maxDepth: int, names: seq<string>, i: nat, depth: nat, visiting: set<string>, done: seq<string>)
    requires visiting <= g.Keys && i < |names|
    ensures var first := Walk(g, maxDepth, names[i], depth, visiting, done);
      var all := WalkAll(g, maxDepth, names[i..], depth, visiting, done);
      if first.verdict != Accepted then all == first
      else
        var rest := WalkAll(g, maxDepth, names[i + 1..], depth, visiting, first.done);
        all.verdict == rest.verdict && all.done == rest.done && all.calls == first.calls + rest.calls
  {
    assert names[i..][0] == names[i] && names[i..][1..] == names[i + 1..];
  }

  method ValidateDNSBranchWalk(
      entries: map<string, string>, hashOk: HashCheck, root: string, maxDepth: int) returns (v: Verdict)
    ensures v == WalkTree(GraphOf(entries, hashOk), root, maxDepth).verdict
  {
    var w := new Walker(entries, hashOk, maxDepth);
    v := w.Visit(root, 0);
  }
}
