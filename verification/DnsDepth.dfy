/**
 * The depth bound of the memoised DNS walk. A branch is expanded once, along the path to it that comes first in the
 * order of children, so the walk accepts exactly the well-formed trees whose first paths are short enough.
 */
module DnsDepth {
  import opened Base
  import opened DnsWalk

  /** A path is the list of child positions followed from some start. */
  type Path = seq<nat>

  function Follow(g: Graph, from: string, p: Path): Option<string>
    decreases |p|
  {
    if p == [] then Some(from)
    else if p[0] < |Children(g, from)| then Follow(g, Children(g, from)[p[0]], p[1..])
    else None
  }

  lemma {:induction false} FollowConcat(g: Graph, from: string, p: Path, q: Path)
    requires Follow(g, from, p).Some?
    ensures Follow(g, from, p + q) == Follow(g, Follow(g, from, p).value, q)
    decreases |p|
  {
    if p == [] {
      assert p + q == q;
    } else {
      assert (p + q)[1..] == p[1..] + q;
      FollowConcat(g, Children(g, from)[p[0]], p[1..], q);
    }
  }

  lemma {:induction false} FollowPrefix(g: Graph, from: string, p: Path, q: Path)
    requires Follow(g, from, p + q).Some?
    ensures Follow(g, from, p).Some?
    decreases |p|
  {
    if p != [] {
      assert (p + q)[1..] == p[1..] + q;
      FollowPrefix(g, Children(g, from)[p[0]], p[1..], q);
    }
  }

  /** One more link. */
  lemma {:induction false} FollowChild(g: Graph, from: string, p: Path, i: nat)
    requires Follow(g, from, p).Some?
    ensures var c := Children(g, Follow(g, from, p).value);
      Follow(g, from, p + [i]) == if i < |c| then Some(c[i]) else None
  {
    FollowConcat(g, from, p, [i]);
    var mid := Follow(g, from, p).value;
    assert [i][1..] == [];
    if i < |Children(g, mid)| { assert Follow(g, Children(g, mid)[i], []) == Some(Children(g, mid)[i]); }
  }

  /** `q` turns off before `p`: after a common part it takes an earlier child. */
  ghost predicate Left(q: Path, p: Path)
  {
    exists i :: 0 <= i < |q| && i < |p| && q[..i] == p[..i] && q[i] < p[i]
  }

  /** The order in which a walk that visits a branch before its children meets the paths. */
  ghost predicate Before(q: Path, p: Path)
  {
    Left(q, p) || q < p
  }

  /** Among all paths to the same name, `p` is met first. */
  ghost predicate First(g: Graph, root: string, p: Path)
  {
    && Follow(g, root, p).Some?
    && forall q :: Before(q, p) ==> Follow(g, root, q) != Follow(g, root, p)
  }

  lemma {:induction false} LeftExtends(q: Path, r: Path, p: Path, s: Path)
    requires Left(q, p)
    ensures Left(q + r, p + s)
  {
    var i :| 0 <= i < |q| && i < |p| && q[..i] == p[..i] && q[i] < p[i];
    assert (q + r)[..i] == q[..i] && (p + s)[..i] == p[..i];
  }

  /** Turning off before child `k` of `p` is turning off before `p`, or passing through an earlier child. */
  ghost predicate Through(q: Path, p: Path, k: nat)
  {
    p < q && q[|p|] < k
  }

  lemma {:induction false} LeftOfChild(q: Path, p: Path, k: nat)
    ensures Left(q, p + [k]) <==> Left(q, p) || Through(q, p, k)
  {
    if Left(q, p + [k]) {
      var i :| 0 <= i < |q| && i < |p + [k]| && q[..i] == (p + [k])[..i] && q[i] < (p + [k])[i];
      assert (p + [k])[..i] == p[..i];
      if i == |p| { assert p[..i] == p && q[..i] == p; }
    }
    if Left(q, p) {
      LeftExtends(q, [], p, [k]);
      assert q + [] == q;
    }
    if Through(q, p, k) {
      assert q[..|p|] == p == (p + [k])[..|p|];
    }
  }

  lemma {:induction false} BelowChild(q: Path, p: Path, k: nat)
    ensures p + [k] <= q <==> p < q && q[|p|] == k
  {
    if p < q && q[|p|] == k { assert q[..|p| + 1] == p + [k]; }
  }

  // What the memo holds at each moment of an accepting walk.

  ghost predicate Branch(g: Graph, n: string) { Children(g, n) != [] }

  /** The memo holds the branches met on paths that turn off before `p`, or that pass through its first `k` children. */
  ghost predicate SeenUpTo(g: Graph, root: string, p: Path, k: nat, done: seq<string>)
  {
    forall n :: n in done <==>
      Branch(g, n) && exists q :: Follow(g, root, q) == Some(n) && (Left(q, p) || Through(q, p, k))
  }

  /** It also holds those met on `p` itself and below. */
  ghost predicate SeenThrough(g: Graph, root: string, p: Path, done: seq<string>)
  {
    forall n :: n in done <==> Branch(g, n) && exists q :: Follow(g, root, q) == Some(n) && (Left(q, p) || p <= q)
  }

  ghost predicate OnStack(g: Graph, root: string, p: Path, visiting: set<string>)
  {
    forall n :: n in visiting <==> exists q :: q < p && Follow(g, root, q) == Some(n)
  }

  lemma {:induction false} StackGrows(g: Graph, root: string, p: Path, k: nat, visiting: set<string>)
    requires OnStack(g, root, p, visiting) && Follow(g, root, p).Some?
    ensures OnStack(g, root, p + [k], visiting + {Follow(g, root, p).value})
  {
    forall q | Follow(g, root, q).Some? ensures q < p + [k] <==> q < p || q == p {
      if q < p + [k] { assert q == (p + [k])[..|q|] == p[..|q|]; }
    }
  }

  lemma {:induction false} SeenEntersChild(g: Graph, root: string, p: Path, k: nat, done: seq<string>)
    requires SeenUpTo(g, root, p, k, done)
    ensures SeenUpTo(g, root, p + [k], 0, done)
  {
    forall q ensures Left(q, p + [k]) || Through(q, p + [k], 0) <==> Left(q, p) || Through(q, p, k) {
      LeftOfChild(q, p, k);
    }
  }

  lemma {:induction false} SeenLeavesChild(g: Graph, root: string, p: Path, k: nat, done: seq<string>)
    requires SeenThrough(g, root, p + [k], done)
    ensures SeenUpTo(g, root, p, k + 1, done)
  {
    forall q ensures Left(q, p + [k]) || p + [k] <= q <==> Left(q, p) || Through(q, p, k + 1) {
      LeftOfChild(q, p, k);
      BelowChild(q, p, k);
    }
  }

  /** Below `p` there is only `p` itself and what lies behind its children. */
  lemma {:induction false} BelowBranch(g: Graph, root: string, p: Path, q: Path)
    requires Follow(g, root, p).Some? && Follow(g, root, q).Some?
    ensures p <= q <==> q == p || Through(q, p, |Children(g, Follow(g, root, p).value)|)
  {
    if p < q {
      assert q == (p + [q[|p|]]) + q[|p| + 1..];
      FollowPrefix(g, root, p + [q[|p|]], q[|p| + 1..]);
      FollowChild(g, root, p, q[|p|]);
    }
  }

  lemma {:induction false} SeenFinishes(g: Graph, root: string, p: Path, done: seq<string>)
    requires Follow(g, root, p).Some? && Branch(g, Follow(g, root, p).value)
    requires SeenUpTo(g, root, p, |Children(g, Follow(g, root, p).value)|, done)
    ensures SeenThrough(g, root, p, done + [Follow(g, root, p).value])
  {
    var name := Follow(g, root, p).value;
    var k := |Children(g, name)|;
    forall q | Follow(g, root, q).Some? ensures p <= q <==> q == p || Through(q, p, k) {
      BelowBranch(g, root, p, q);
    }
  }

  /** What lies at or below `p` when its name has been met before: everything there has been met too. */
  lemma {:induction false} MetBefore(g: Graph, root: string, p: Path, q0: Path, q: Path) returns (q': Path)
    requires Left(q0, p) && Follow(g, root, p).Some? && Follow(g, root, q0) == Follow(g, root, p)
    requires p <= q && Follow(g, root, q).Some?
    ensures Left(q', p) && Left(q', q) && Follow(g, root, q') == Follow(g, root, q)
  {
    var r := q[|p|..];
    assert q == p + r;
    q' := q0 + r;
    FollowConcat(g, root, p, r);
    FollowConcat(g, root, q0, r);
    LeftExtends(q0, r, p, []);
    LeftExtends(q0, r, p, r);
    assert p + [] == p;
  }

  lemma {:induction false} SeenAtMemo(g: Graph, root: string, p: Path, done: seq<string>)
    requires Follow(g, root, p).Some? && SeenUpTo(g, root, p, 0, done)
    requires Follow(g, root, p).value in done
    ensures SeenThrough(g, root, p, done)
  {
    var q0 :| Follow(g, root, q0) == Follow(g, root, p) && (Left(q0, p) || Through(q0, p, 0));
    forall q | Follow(g, root, q).Some? && p <= q
      ensures exists q' :: Follow(g, root, q') == Follow(g, root, q) && Left(q', p)
    {
      var q' := MetBefore(g, root, p, q0, q);
    }
  }

  lemma {:induction false} SeenAtLeaf(g: Graph, root: string, p: Path, done: seq<string>)
    requires Follow(g, root, p).Some? && SeenUpTo(g, root, p, 0, done)
    requires !Branch(g, Follow(g, root, p).value)
    ensures SeenThrough(g, root, p, done)
  {
    forall q | Follow(g, root, q).Some? && p <= q ensures q == p { BelowBranch(g, root, p, q); }
  }

  /** An accepting walk leaves exactly the branches met so far in the memo. */
  lemma {:induction false} WalkSees(
      g: Graph, maxDepth: int, root: string, p: Path, visiting: set<string>, done: seq<string>)
    requires visiting <= g.Keys && Follow(g, root, p).Some?
    requires OnStack(g, root, p, visiting) && SeenUpTo(g, root, p, 0, done)
    ensures var w := Walk(g, maxDepth, Follow(g, root, p).value, |p|, visiting, done);
      w.verdict == Accepted ==> SeenThrough(g, root, p, w.done)
    decreases |g.Keys - visiting|, 0, 0
  {
    var name := Follow(g, root, p).value;
    if Expands(g, maxDepth, name, |p|, visiting, done) {
      WalkExpands(g, maxDepth, name, |p|, visiting, done);
      forall i ensures OnStack(g, root, p + [i], visiting + {name}) { StackGrows(g, root, p, i, visiting); }
      assert Children(g, name)[0..] == Children(g, name);
      WalkAllSees(g, maxDepth, root, p, name, 0, visiting + {name}, done);
      var w := WalkAll(g, maxDepth, Children(g, name), |p| + 1, visiting + {name}, done);
      if w.verdict == Accepted { SeenFinishes(g, root, p, w.done); }
    } else {
      WalkStops(g, maxDepth, name, |p|, visiting, done);
      if name in done {
        SeenAtMemo(g, root, p, done);
      } else if !Branch(g, name) {
        SeenAtLeaf(g, root, p, done);
      }
    }
  }

  lemma {:induction false} WalkAllSees(
      g: Graph, maxDepth: int, root: string, p: Path, name: string, k: nat, path: set<string>, done: seq<string>)
    requires path <= g.Keys && Follow(g, root, p) == Some(name) && k <= |Children(g, name)|
    requires (forall i :: OnStack(g, root, p + [i], path)) && SeenUpTo(g, root, p, k, done)
    ensures var w := WalkAll(g, maxDepth, Children(g, name)[k..], |p| + 1, path, done);
      w.verdict == Accepted ==> SeenUpTo(g, root, p, |Children(g, name)|, w.done)
    decreases |g.Keys - path|, 1, |Children(g, name)| - k
  {
    var children := Children(g, name);
    if k < |children| {
      var first := Walk(g, maxDepth, children[k], |p| + 1, path, done);
      ChildSees(g, maxDepth, root, p, name, k, path, done);
      WalkAllStep(g, maxDepth, children, k, |p| + 1, path, done);
      if first.verdict == Accepted {
        WalkAllSees(g, maxDepth, root, p, name, k + 1, path, first.done);
      }
    }
  }

  /** The visit of child `k`: where it starts from, and what it leaves when it accepts. */
  lemma {:induction false} ChildSees(
      g: Graph, maxDepth: int, root: string, p: Path, name: string, k: nat, path: set<string>, done: seq<string>)
    requires path <= g.Keys && Follow(g, root, p) == Some(name) && k < |Children(g, name)|
    requires (forall i :: OnStack(g, root, p + [i], path)) && SeenUpTo(g, root, p, k, done)
    ensures Follow(g, root, p + [k]) == Some(Children(g, name)[k]) && SeenUpTo(g, root, p + [k], 0, done)
    ensures var w := Walk(g, maxDepth, Children(g, name)[k], |p| + 1, path, done);
      w.verdict == Accepted ==> SeenUpTo(g, root, p, k + 1, w.done)
    decreases |g.Keys - path|, 0, 1
  {
    FollowChild(g, root, p, k);
    SeenEntersChild(g, root, p, k, done);
    WalkSees(g, maxDepth, root, p + [k], path, done);
    var w := Walk(g, maxDepth, Children(g, name)[k], |p| + 1, path, done);
    if w.verdict == Accepted { SeenLeavesChild(g, root, p, k, w.done); }
  }

  /** The first path to every branch leaves room for its children. */
  ghost predicate Shallow(g: Graph, root: string, maxDepth: int)
  {
    forall q :: First(g, root, q) && Branch(g, Follow(g, root, q).value) ==> |q| < maxDepth
  }

  /** What a walk expands, it has met for the first time. */
  lemma {:induction false} ExpandedFirst(
      g: Graph, maxDepth: int, root: string, p: Path, visiting: set<string>, done: seq<string>)
    requires Follow(g, root, p).Some? && Expands(g, maxDepth, Follow(g, root, p).value, |p|, visiting, done)
    requires OnStack(g, root, p, visiting) && SeenUpTo(g, root, p, 0, done)
    ensures First(g, root, p)
  {
    forall q | Before(q, p) ensures Follow(g, root, q) != Follow(g, root, p) {
      assert Left(q, p) || q < p;
    }
  }

  lemma {:induction false} NeverTooDeep(
      g: Graph, maxDepth: int, root: string, p: Path, visiting: set<string>, done: seq<string>)
    requires visiting <= g.Keys && Follow(g, root, p).Some?
    requires OnStack(g, root, p, visiting) && SeenUpTo(g, root, p, 0, done)
    requires Shallow(g, root, maxDepth) && |p| <= maxDepth
    ensures Walk(g, maxDepth, Follow(g, root, p).value, |p|, visiting, done).verdict != TooDeep
    decreases |g.Keys - visiting|, 0, 0
  {
    var name := Follow(g, root, p).value;
    if Expands(g, maxDepth, name, |p|, visiting, done) {
      ExpandedFirst(g, maxDepth, root, p, visiting, done);
      WalkExpands(g, maxDepth, name, |p|, visiting, done);
      forall i ensures OnStack(g, root, p + [i], visiting + {name}) { StackGrows(g, root, p, i, visiting); }
      assert Children(g, name)[0..] == Children(g, name);
      ChildrenNeverTooDeep(g, maxDepth, root, p, name, 0, visiting + {name}, done);
    } else {
      WalkStops(g, maxDepth, name, |p|, visiting, done);
    }
  }

  lemma {:induction false} ChildrenNeverTooDeep(
      g: Graph, maxDepth: int, root: string, p: Path, name: string, k: nat, path: set<string>, done: seq<string>)
    requires path <= g.Keys && Follow(g, root, p) == Some(name) && k <= |Children(g, name)|
    requires (forall i :: OnStack(g, root, p + [i], path)) && SeenUpTo(g, root, p, k, done)
    requires Shallow(g, root, maxDepth) && |p| < maxDepth
    ensures WalkAll(g, maxDepth, Children(g, name)[k..], |p| + 1, path, done).verdict != TooDeep
    decreases |g.Keys - path|, 1, |Children(g, name)| - k
  {
    if k < |Children(g, name)| {
      ChildSees(g, maxDepth, root, p, name, k, path, done);
      NeverTooDeep(g, maxDepth, root, p + [k], path, done);
      var first := Walk(g, maxDepth, Children(g, name)[k], |p| + 1, path, done);
      WalkAllStep(g, maxDepth, Children(g, name), k, |p| + 1, path, done);
      if first.verdict == Accepted {
        ChildrenNeverTooDeep(g, maxDepth, root, p, name, k + 1, path, first.done);
      }
    }
  }

  /** Nothing at or below a path that turns off after a path to the same name is met first. */
  lemma {:induction false} NotFirstBelow(g: Graph, root: string, p: Path, done: seq<string>, q: Path)
    requires Follow(g, root, p).Some? && SeenUpTo(g, root, p, 0, done) && Follow(g, root, p).value in done
    requires p <= q && Follow(g, root, q).Some?
    ensures !First(g, root, q)
  {
    var q0 :| Follow(g, root, q0) == Follow(g, root, p) && (Left(q0, p) || Through(q0, p, 0));
    var q' := MetBefore(g, root, p, q0, q);
    assert Before(q', q);
  }

  /** An accepting walk over the children visits each of them, with the memo that the earlier ones leave. */
  lemma {:induction false} ChildVisited(
      g: Graph, maxDepth: int, root: string, p: Path, name: string, k: nat, i: nat, path: set<string>,
      done: seq<string>)
    returns (d: seq<string>)
    requires path <= g.Keys && Follow(g, root, p) == Some(name) && k <= i < |Children(g, name)|
    requires (forall j :: OnStack(g, root, p + [j], path)) && SeenUpTo(g, root, p, k, done)
    requires WalkAll(g, maxDepth, Children(g, name)[k..], |p| + 1, path, done).verdict == Accepted
    ensures SeenUpTo(g, root, p, i, d)
    ensures Walk(g, maxDepth, Children(g, name)[i], |p| + 1, path, d).verdict == Accepted
    decreases i - k
  {
    WalkAllStep(g, maxDepth, Children(g, name), k, |p| + 1, path, done);
    if k == i {
      d := done;
    } else {
      ChildSees(g, maxDepth, root, p, name, k, path, done);
      var first := Walk(g, maxDepth, Children(g, name)[k], |p| + 1, path, done);
      d := ChildVisited(g, maxDepth, root, p, name, k + 1, i, path, first.done);
    }
  }

  /** Where the walk stands when it enters child `i` of an accepted branch. */
  lemma {:induction false} EnterChild(
      g: Graph, maxDepth: int, root: string, p: Path, name: string, i: nat, visiting: set<string>, done: seq<string>)
    returns (d: seq<string>)
    requires visiting <= g.Keys && Follow(g, root, p) == Some(name) && i < |Children(g, name)|
    requires OnStack(g, root, p, visiting) && SeenUpTo(g, root, p, 0, done)
    requires Expands(g, maxDepth, name, |p|, visiting, done)
    requires Walk(g, maxDepth, name, |p|, visiting, done).verdict == Accepted
    ensures |g.Keys - (visiting + {name})| < |g.Keys - visiting|
    ensures Follow(g, root, p + [i]) == Some(Children(g, name)[i])
    ensures OnStack(g, root, p + [i], visiting + {name}) && SeenUpTo(g, root, p + [i], 0, d)
    ensures Walk(g, maxDepth, Children(g, name)[i], |p| + 1, visiting + {name}, d).verdict == Accepted
  {
    WalkExpands(g, maxDepth, name, |p|, visiting, done);
    forall j ensures OnStack(g, root, p + [j], visiting + {name}) { StackGrows(g, root, p, j, visiting); }
    assert Children(g, name)[0..] == Children(g, name);
    d := ChildVisited(g, maxDepth, root, p, name, 0, i, visiting + {name}, done);
    FollowChild(g, root, p, i);
    SeenEntersChild(g, root, p, i, d);
  }

  lemma {:induction false} AcceptedHasRoom(
      g: Graph, maxDepth: int, name: string, depth: nat, visiting: set<string>, done: seq<string>)
    requires visiting <= g.Keys && Walk(g, maxDepth, name, depth, visiting, done).verdict == Accepted
    ensures depth <= maxDepth
  {
  }

  /** When the walk accepts what lies at `p`, the first paths through `p` to a branch leave room for its children. */
  lemma {:induction false} AcceptedIsShallow(
      g: Graph, maxDepth: int, root: string, p: Path, name: string, visiting: set<string>, done: seq<string>, q: Path)
    requires visiting <= g.Keys && Follow(g, root, p) == Some(name)
    requires OnStack(g, root, p, visiting) && SeenUpTo(g, root, p, 0, done)
    requires Walk(g, maxDepth, name, |p|, visiting, done).verdict == Accepted
    requires p <= q && First(g, root, q) && Branch(g, Follow(g, root, q).value)
    ensures |q| < maxDepth
    decreases |g.Keys - visiting|, 1
  {
    if !Expands(g, maxDepth, name, |p|, visiting, done) {
      AcceptedUnexpanded(g, maxDepth, root, p, name, visiting, done, q);
    } else if q == p {
      var d := EnterChild(g, maxDepth, root, p, name, 0, visiting, done);
      AcceptedHasRoom(g, maxDepth, Children(g, name)[0], |p| + 1, visiting + {name}, d);
    } else {
      BelowBranch(g, root, p, q);
      AcceptedBelow(g, maxDepth, root, p, name, q[|p|], visiting, done, q);
    }
  }

  lemma {:induction false} AcceptedBelow(
      g: Graph, maxDepth: int, root: string, p: Path, name: string, i: nat, visiting: set<string>, done: seq<string>,
      q: Path)
    requires visiting <= g.Keys && Follow(g, root, p) == Some(name) && i < |Children(g, name)|
    requires OnStack(g, root, p, visiting) && SeenUpTo(g, root, p, 0, done)
    requires Expands(g, maxDepth, name, |p|, visiting, done)
    requires Walk(g, maxDepth, name, |p|, visiting, done).verdict == Accepted
    requires p < q && q[|p|] == i && First(g, root, q) && Branch(g, Follow(g, root, q).value)
    ensures |q| < maxDepth
    decreases |g.Keys - visiting|, 0
  {
    var d := EnterChild(g, maxDepth, root, p, name, i, visiting, done);
    BelowChild(q, p, i);
    AcceptedIsShallow(g, maxDepth, root, p + [i], Children(g, name)[i], visiting + {name}, d, q);
  }

  lemma {:induction false} AcceptedUnexpanded(
      g: Graph, maxDepth: int, root: string, p: Path, name: string, visiting: set<string>, done: seq<string>, q: Path)
    requires visiting <= g.Keys && Follow(g, root, p) == Some(name) && SeenUpTo(g, root, p, 0, done)
    requires !Expands(g, maxDepth, name, |p|, visiting, done)
    requires Walk(g, maxDepth, name, |p|, visiting, done).verdict == Accepted
    requires p <= q && Follow(g, root, q).Some? && Branch(g, Follow(g, root, q).value)
    ensures !First(g, root, q)
  {
    WalkStops(g, maxDepth, name, |p|, visiting, done);
    BelowBranch(g, root, p, q);
    if name in done { NotFirstBelow(g, root, p, done, q); }
  }

  // First paths.

  /** A path to a name is a chain of that many links. */
  lemma {:induction false} FollowReaches(g: Graph, root: string, p: Path)
    requires Follow(g, root, p).Some?
    ensures ReachIn(g, root, Follow(g, root, p).value, |p|)
    decreases |p|
  {
    if p == [] {
      assert ReachIn(g, root, root, 0);
    } else {
      var front, i := p[..|p| - 1], p[|p| - 1];
      assert p == front + [i];
      FollowPrefix(g, root, front, [i]);
      FollowChild(g, root, front, i);
      FollowReaches(g, root, front);
      Extend(g, root, Follow(g, root, front).value, Follow(g, root, p).value, |front|);
    }
  }

  lemma {:induction false} ReachedByPath(g: Graph, from: string, to: string, n: nat) returns (p: Path)
    requires ReachIn(g, from, to, n)
    ensures |p| == n && Follow(g, from, p) == Some(to)
    decreases n
  {
    if n == 0 {
      p := [];
    } else {
      var mid :| ReachIn(g, from, mid, n - 1) && to in Children(g, mid);
      var front := ReachedByPath(g, from, mid, n - 1);
      var i :| 0 <= i < |Children(g, mid)| && Children(g, mid)[i] == to;
      FollowChild(g, from, front, i);
      p := front + [i];
    }
  }

  /** The names along a path, from its start to its end. */
  function Names(g: Graph, from: string, p: Path): (r: seq<string>)
    requires Follow(g, from, p).Some?
    ensures |r| == |p| + 1
    decreases |p|
  {
    if p == [] then [from] else [from] + Names(g, Children(g, from)[p[0]], p[1..])
  }

  lemma {:induction false} NamesAlong(g: Graph, from: string, p: Path, i: nat)
    requires Follow(g, from, p).Some? && i <= |p|
    ensures Follow(g, from, p[..i]) == Some(Names(g, from, p)[i])
    decreases |p|
  {
    if i > 0 {
      assert p[..i][1..] == p[1..][..i - 1];
      NamesAlong(g, Children(g, from)[p[0]], p[1..], i - 1);
    }
  }

  /** In a well-formed tree a path meets no name twice, so it is shorter than the number of records. */
  lemma {:induction false} PathsAreShort(g: Graph, root: string, p: Path)
    requires WellFormed(g, root) && Follow(g, root, p).Some?
    ensures |p| < |g|
  {
    var names := Names(g, root, p);
    forall i | 0 <= i < |names| ensures names[i] in g.Keys {
      NamesAlong(g, root, p, i);
      FollowReaches(g, root, p[..i]);
      assert Reachable(g, root, names[i]);
    }
    forall i, j | 0 <= i < j < |names| ensures names[i] != names[j] {
      NamesAlong(g, root, p, i);
      NamesAlong(g, root, p, j);
      assert p[..j] == p[..i] + p[i..j];
      FollowConcat(g, root, p[..i], p[i..j]);
      FollowReaches(g, names[i], p[i..j]);
      FollowReaches(g, root, p[..i]);
      assert Reachable(g, root, names[i]);
    }
    DistinctSize(names, g.Keys);
  }

  /** Descend towards `n`, always through the earliest child that leads there. */
  lemma {:induction false} DescendFirst(g: Graph, root: string, n: string, p: Path) returns (q: Path)
    requires WellFormed(g, root) && Follow(g, root, p).Some? && Reachable(g, Follow(g, root, p).value, n)
    requires forall r :: Before(r, p) ==> Follow(g, root, r) != Some(n)
    ensures First(g, root, q) && Follow(g, root, q) == Some(n)
    decreases |g| - |p|
  {
    PathsAreShort(g, root, p);
    var m := Follow(g, root, p).value;
    if m == n {
      q := p;
    } else {
      var i := EarliestChild(g, m, n);
      FollowChild(g, root, p, i);
      forall r | Before(r, p + [i]) ensures Follow(g, root, r) != Some(n) {
        LeftOfChild(r, p, i);
        if Through(r, p, i) {
          PassesChild(g, root, p, r, n);
        } else if r < p + [i] {
          assert r == (p + [i])[..|r|] == p[..|r|];
          assert r == p || Before(r, p);
        }
      }
      PathsAreShort(g, root, p + [i]);
      q := DescendFirst(g, root, n, p + [i]);
    }
  }

  /** The earliest child of `m` that leads to `n`. */
  lemma {:induction false} EarliestChild(g: Graph, m: string, n: string) returns (i: nat)
    requires Reachable(g, m, n) && m != n
    ensures i < |Children(g, m)| && Reachable(g, Children(g, m)[i], n)
    ensures forall j :: 0 <= j < i ==> !Reachable(g, Children(g, m)[j], n)
  {
    var k: nat :| ReachIn(g, m, n, k);
    var p := ReachedByPath(g, m, n, k);
    FollowReaches(g, Children(g, m)[p[0]], p[1..]);
    assert Reachable(g, Children(g, m)[p[0]], n);
    i := 0;
    while !Reachable(g, Children(g, m)[i], n)
      invariant i <= p[0]
      invariant forall j :: 0 <= j < i ==> !Reachable(g, Children(g, m)[j], n)
      decreases p[0] - i
    {
      i := i + 1;
    }
  }

  lemma {:induction false} PassesChild(g: Graph, root: string, p: Path, r: Path, n: string)
    requires Follow(g, root, p).Some? && p < r
    requires r[|p|] < |Children(g, Follow(g, root, p).value)|
    requires !Reachable(g, Children(g, Follow(g, root, p).value)[r[|p|]], n)
    ensures Follow(g, root, r) != Some(n)
  {
    var head, tail := p + [r[|p|]], r[|p| + 1..];
    assert r == head + tail;
    FollowChild(g, root, p, r[|p|]);
    FollowConcat(g, root, head, tail);
    if Follow(g, root, r) == Some(n) {
      FollowReaches(g, Follow(g, root, head).value, tail);
      assert Reachable(g, Follow(g, root, head).value, n);
    }
  }

  /** Of two different paths, one comes before the other. */
  lemma {:induction false} PathsCompare(p: Path, q: Path)
    ensures p == q || Before(p, q) || Before(q, p)
    decreases |p|
  {
    if p != [] && q != [] {
      if p[0] == q[0] {
        PathsCompare(p[1..], q[1..]);
        assert p == [p[0]] + p[1..] && q == [q[0]] + q[1..];
        if Left(p[1..], q[1..]) { LeftUnder(p, q); }
        if Left(q[1..], p[1..]) { LeftUnder(q, p); }
      } else {
        assert p[..0] == q[..0];
      }
    }
  }

  lemma {:induction false} LeftUnder(p: Path, q: Path)
    requires p != [] && q != [] && p[0] == q[0] && Left(p[1..], q[1..])
    ensures Left(p, q)
  {
    var i :| 0 <= i < |p[1..]| && i < |q[1..]| && p[1..][..i] == q[1..][..i] && p[1..][i] < q[1..][i];
    assert p[..i + 1] == [p[0]] + p[1..][..i] && q[..i + 1] == [q[0]] + q[1..][..i];
  }

  /** The first path to a name of a well-formed tree. */
  ghost function FirstPath(g: Graph, root: string, n: string): (p: Path)
    requires WellFormed(g, root) && Reachable(g, root, n)
    ensures First(g, root, p) && Follow(g, root, p) == Some(n)
  {
    FirstPathExists(g, root, n);
    var p :| First(g, root, p) && Follow(g, root, p) == Some(n);
    p
  }

  lemma {:induction false} FirstPathExists(g: Graph, root: string, n: string)
    requires WellFormed(g, root) && Reachable(g, root, n)
    ensures exists p :: First(g, root, p) && Follow(g, root, p) == Some(n)
  {
    forall r ensures !Before(r, []) {
    }
    var p := DescendFirst(g, root, n, []);
  }

  lemma {:induction false} FirstPathIs(g: Graph, root: string, p: Path)
    requires WellFormed(g, root) && First(g, root, p)
    ensures Reachable(g, root, Follow(g, root, p).value) && FirstPath(g, root, Follow(g, root, p).value) == p
  {
    FollowReaches(g, root, p);
    assert Reachable(g, root, Follow(g, root, p).value);
    PathsCompare(p, FirstPath(g, root, Follow(g, root, p).value));
  }

  /**
   * The exact condition: the walk accepts a tree if and only if it is well-formed and the first path to every branch
   * that has children is shorter than the bound.
   */
  lemma {:induction false} WalkExact(g: Graph, root: string, maxDepth: int)
    ensures WalkTree(g, root, maxDepth).verdict == Accepted <==>
      && WellFormed(g, root) && maxDepth >= 0
      && forall n :: Reachable(g, root, n) && Children(g, n) != [] ==> |FirstPath(g, root, n)| < maxDepth
  {
    assert OnStack(g, root, [], {}) && SeenUpTo(g, root, [], 0, []);
    if WalkTree(g, root, maxDepth).verdict == Accepted {
      WalkSound(g, root, maxDepth);
      AcceptedHasRoom(g, maxDepth, root, 0, {}, []);
      forall n | Reachable(g, root, n) && Children(g, n) != [] ensures |FirstPath(g, root, n)| < maxDepth {
        AcceptedIsShallow(g, maxDepth, root, [], root, {}, [], FirstPath(g, root, n));
      }
    } else if WellFormed(g, root) && maxDepth >= 0
      && forall n :: Reachable(g, root, n) && Children(g, n) != [] ==> |FirstPath(g, root, n)| < maxDepth {
      forall q | First(g, root, q) && Branch(g, Follow(g, root, q).value) ensures |q| < maxDepth {
        FirstPathIs(g, root, q);
      }
      NeverTooDeep(g, maxDepth, root, [], {}, []);
      OnlyTooDeep(g, root, maxDepth);
    }
  }

  /** With a depth bound no smaller than the number of records, the walk decides well-formedness exactly. */
  lemma {:induction false} WalkDecides(g: Graph, root: string, maxDepth: int)
    requires maxDepth >= |g|
    ensures WalkTree(g, root, maxDepth).verdict == Accepted <==> WellFormed(g, root)
  {
    WalkExact(g, root, maxDepth);
    if WellFormed(g, root) {
      forall n | Reachable(g, root, n) ensures |FirstPath(g, root, n)| < maxDepth {
        PathsAreShort(g, root, FirstPath(g, root, n));
      }
    }
  }

  // The order of children matters.

  /** A root with the given children, and the chain a -> b -> c below it. */
  function LongPath(r: string, top: seq<string>, a: string, b: string, c: string): Graph
  {
    map[r := Some(top), a := Some([b]), b := Some([c]), c := Some([])]
  }

  ghost predicate IsLongPath(g: Graph, r: string, top: seq<string>, a: string, b: string, c: string)
  {
    && g == LongPath(r, top, a, b, c)
    && r != a && r != b && r != c && a != b && a != c && b != c
    && a in top && b in top && forall x :: x in top ==> x == a || x == b
  }

  function Height(r: string, a: string, b: string, c: string, n: string): nat
  {
    if n == r then 3 else if n == a then 2 else if n == b then 1 else 0
  }

  lemma {:induction false} LinksDescend(
      g: Graph, r: string, top: seq<string>, a: string, b: string, c: string, from: string, to: string, n: nat)
    requires IsLongPath(g, r, top, a, b, c) && from in g && ReachIn(g, from, to, n)
    ensures to in g && Height(r, a, b, c, from) >= Height(r, a, b, c, to) + n
    decreases n
  {
    if n > 0 {
      var mid :| ReachIn(g, from, mid, n - 1) && to in Children(g, mid);
      LinksDescend(g, r, top, a, b, c, from, mid, n - 1);
      LinkDescends(g, r, top, a, b, c, mid, to);
    }
  }

  lemma {:induction false} LinkDescends(
      g: Graph, r: string, top: seq<string>, a: string, b: string, c: string, from: string, to: string)
    requires IsLongPath(g, r, top, a, b, c) && to in Children(g, from)
    ensures to in g && Height(r, a, b, c, from) > Height(r, a, b, c, to)
  {
  }

  lemma {:induction false} LongPathWellFormed(g: Graph, r: string, top: seq<string>, a: string, b: string, c: string)
    requires IsLongPath(g, r, top, a, b, c)
    ensures WellFormed(g, r)
  {
    forall n | Reachable(g, r, n) ensures IsNode(g, n) && Acyclic(g, n) {
      var k: nat :| ReachIn(g, r, n, k);
      LinksDescend(g, r, top, a, b, c, r, n, k);
      forall j: nat | j >= 1 ensures !ReachIn(g, n, n, j) {
        if ReachIn(g, n, n, j) { LinksDescend(g, r, top, a, b, c, n, n, j); }
      }
    }
  }

  lemma {:induction false} LongPathIsLong(g: Graph, r: string, top: seq<string>, a: string, b: string, c: string)
    requires IsLongPath(g, r, top, a, b, c)
    ensures ReachIn(g, r, b, 2) && ReachIn(g, r, c, 3)
  {
    assert a in Children(g, r) && b in Children(g, a) && c in Children(g, b);
    assert ReachIn(g, r, r, 0);
    Extend(g, r, r, a, 0);
    Extend(g, r, a, b, 1);
    Extend(g, r, b, c, 2);
  }

  /** Below b there is no further branch. */
  lemma {:induction false} BelowB(g: Graph, r: string, top: seq<string>, a: string, b: string, c: string, p: Path)
    requires IsLongPath(g, r, top, a, b, c)
    requires Follow(g, b, p).Some? && Branch(g, Follow(g, b, p).value)
    ensures p == []
  {
  }

  /** When b comes first, the way to b over a is not the first. */
  lemma {:induction false} BFirst(g: Graph, r: string, top: seq<string>, a: string, b: string, c: string, p: Path)
    requires IsLongPath(g, r, top, a, b, c) && top[0] == b
    requires First(g, r, p) && Branch(g, Follow(g, r, p).value)
    ensures |p| < 2
  {
    if |p| >= 2 {
      var tail := p[1..];
      assert top[p[0]] in top;
      if top[p[0]] == b {
        BelowB(g, r, top, a, b, c, tail);
      } else {
        assert Follow(g, r, p) == Follow(g, a, tail) == Follow(g, b, tail[1..]);
        BelowB(g, r, top, a, b, c, tail[1..]);
        assert Follow(g, r, [0]) == Follow(g, b, [0][1..]);
        assert [0][..0] == p[..0];
        assert Before([0], p);
      }
    }
  }

  /** When a comes first, so does the way to b over it. */
  lemma {:induction false} AFirst(g: Graph, r: string, top: seq<string>, a: string, b: string, c: string, p: Path)
    requires IsLongPath(g, r, top, a, b, c) && top[0] == a
    requires First(g, r, p) && Follow(g, r, p) == Some(b)
    ensures |p| == 2
  {
    assert [0, 0][1..] == [0];
    assert Follow(g, r, [0, 0]) == Follow(g, a, [0]) == Follow(g, b, [0][1..]) == Some(b);
    PathsCompare([0, 0], p);
  }

  lemma {:induction false} BFirstIsShallow(
      g: Graph, r: string, top: seq<string>, a: string, b: string, c: string, n: string)
    requires IsLongPath(g, r, top, a, b, c) && WellFormed(g, r) && top[0] == b
    requires Reachable(g, r, n) && Branch(g, n)
    ensures |FirstPath(g, r, n)| < 2
  {
    BFirst(g, r, top, a, b, c, FirstPath(g, r, n));
  }

  lemma {:induction false} AFirstIsDeep(g: Graph, r: string, top: seq<string>, a: string, b: string, c: string)
    requires IsLongPath(g, r, top, a, b, c) && WellFormed(g, r) && top[0] != b
    ensures Reachable(g, r, b) && Branch(g, b) && |FirstPath(g, r, b)| == 2
  {
    LongPathIsLong(g, r, top, a, b, c);
    assert top[0] in top;
    assert Reachable(g, r, b);
    AFirst(g, r, top, a, b, c, FirstPath(g, r, b));
  }

  /**
   * With a and b below the root and a -> b -> c, the path root, a, b, c has three links, and yet a bound of two accepts
   * the tree exactly when the root lists b before any a.
   */
  lemma {:induction false} MemoHidesLongPath(
      g: Graph, r: string, top: seq<string>, a: string, b: string, c: string, bound: int)
    requires IsLongPath(g, r, top, a, b, c) && bound == 2
    ensures ReachIn(g, r, c, 3)
    ensures WalkTree(g, r, bound).verdict == if top[0] == b then Accepted else TooDeep
  {
    LongPathIsLong(g, r, top, a, b, c);
    LongPathWellFormed(g, r, top, a, b, c);
    WalkExact(g, r, bound);
    if top[0] == b {
      forall n | Reachable(g, r, n) && Children(g, n) != [] ensures |FirstPath(g, r, n)| < bound {
        BFirstIsShallow(g, r, top, a, b, c, n);
      }
    } else {
      AFirstIsDeep(g, r, top, a, b, c);
      OnlyTooDeep(g, r, bound);
    }
  }

  /** A well-formed tree can only be refused for its depth. */
  lemma {:induction false} OnlyTooDeep(g: Graph, root: string, maxDepth: int)
    requires WellFormed(g, root) && WalkTree(g, root, maxDepth).verdict != Accepted
    ensures WalkTree(g, root, maxDepth).verdict == TooDeep
  {
    assert ReachIn(g, root, root, 0);
    RefusalIsJustified(g, maxDepth, root, root, 0, {}, []);
  }
}
