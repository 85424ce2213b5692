/** The bounded cache of chain parameters: expiry pruning, eviction of the oldest entry, and what a run can observe. */
module ParamsCache {
  import opened Base
  import opened Ordering

  /** A cached value and the instant at which it stops being valid. */
  datatype Entry<V> = Entry(value: V, exp: int)

  type Entries<V> = map<string, Entry<V>>

  // Eviction.

  /** One iteration of the scan in evictOldestLocked; "" doubles as "nothing chosen yet". */
  predicate Replaces<V>(m: Entries<V>, chosen: string, key: string)
    requires key in m && (chosen == "" || chosen in m)
  {
    chosen == "" || m[key].exp < m[chosen].exp || (m[key].exp == m[chosen].exp && LexLess(key, chosen))
  }

  /** The key chosen after visiting the keys in the given order. */
  function Scan<V>(m: Entries<V>, order: seq<string>): (r: string)
    requires forall k :: k in order ==> k in m
    ensures order != [] ==> r in order
    ensures order == [] ==> r == ""
  {
    if order == [] then ""
    else
      var chosen, key := Scan(m, order[..|order| - 1]), order[|order| - 1];
      if Replaces(m, chosen, key) then key else chosen
  }

  /** `order` visits every key once, as ranging over a Go map does. */
  ghost predicate Enumerates(order: seq<string>, keys: set<string>)
  {
    && (forall k :: k in order <==> k in keys)
    && (forall i, j :: 0 <= i < j < |order| ==> order[i] != order[j])
  }

  ghost predicate Older<V>(m: Entries<V>, a: string, b: string)
    requires a in m && b in m
  {
    m[a].exp < m[b].exp || (m[a].exp == m[b].exp && LexLess(a, b))
  }

  /** The entry that expires first, ties broken by the smaller key. */
  ghost predicate IsOldest<V>(m: Entries<V>, k: string)
  {
    k in m && forall other :: other in m && other != k ==> Older(m, k, other)
  }

  lemma {:induction false} OldestUnique<V>(m: Entries<V>, a: string, b: string)
    requires IsOldest(m, a) && IsOldest(m, b)
    ensures a == b
  {
    LexStrictTotal();
  }

  lemma {:induction false} OldestExists<V>(m: Entries<V>)
    requires m != map[]
    ensures exists k :: IsOldest(m, k)
    decreases |m|
  {
    var k :| k in m;
    var rest := m - {k};
    assert m.Keys == rest.Keys + {k};
    if rest == map[] {
      assert IsOldest(m, k);
    } else {
      OldestExists(rest);
      var o :| IsOldest(rest, o);
      LexStrictTotal();
      assert IsOldest(m, if Older(m, k, o) then k else o);
    }
  }

  /** The entry that a bounded cache should evict. */
  ghost function Oldest<V>(m: Entries<V>): (k: string)
    requires m != map[]
    ensures IsOldest(m, k)
  {
    OldestExists(m);
    var k :| IsOldest(m, k);
    k
  }

  /** Visiting in some order: the oldest of the non-empty keys is found once it has been visited. */
  lemma {:induction false} ScanInvariant<V>(m: Entries<V>, order: seq<string>, best: string)
    requires forall k :: k in order ==> k in m
    requires best in order && best != ""
    requires forall k :: k in order && k != best ==> Older(m, best, k)
    requires forall i, j :: 0 <= i < j < |order| ==> order[i] != order[j]
    ensures Scan(m, order) == best
  {
    var n := |order| - 1;
    var front, last := order[..n], order[n];
    assert order == front + [last];
    if last == best {
      assert best !in front;
    } else {
      assert best in front;
      ScanInvariant(m, front, best);
      if LexLess(best, last) { LexAsymmetric(best, last); }
    }
  }

  /**
   * A map that is not empty has one oldest entry, and the scan removes it in every visiting order exactly when its key
   * is not the empty string, or is the only key. Otherwise an order that starts with the empty key loses it.
   */
  lemma {:induction false} EvictionIsDeterministic<V>(m: Entries<V>)
    requires m != map[]
    ensures forall k :: IsOldest(m, k) <==> k == Oldest(m)
    ensures (forall order :: Enumerates(order, m.Keys) ==> Scan(m, order) == Oldest(m))
      <==> !(Oldest(m) == "" && |m| >= 2)
  {
    forall k | IsOldest(m, k) ensures k == Oldest(m) { OldestUnique(m, k, Oldest(m)); }
    if Oldest(m) != "" {
      forall order | Enumerates(order, m.Keys) ensures Scan(m, order) == Oldest(m) {
        ScanInvariant(m, order, Oldest(m));
      }
    } else if |m| >= 2 {
      var rest := EnumerationExists(m.Keys - {""});
      assert rest != [] by { OtherKeys(m.Keys, ""); }
      assert Enumerates([""] + rest, m.Keys);
      ScanAfterEmptyKey(m, rest);
    } else {
      SingletonKeys(m.Keys, "");
      forall order | Enumerates(order, m.Keys) ensures Scan(m, order) == "" {
        assert order != [] by { assert "" in order; }
        assert Scan(m, order) in order;
      }
    }
  }

  lemma {:induction false} OtherKeys(keys: set<string>, k: string)
    requires k in keys && |keys| >= 2
    ensures keys - {k} != {}
  {
    if keys - {k} == {} {
      SubsetSize(keys, {k});
      assert false;
    }
  }

  /** An instance: two entries, the empty key the older one, and an order in which the scan removes the other. */
  lemma {:induction false} EmptyKeySurvives<V>(m: Entries<V>, a: V, b: V)
    requires m == map["" := Entry(a, 1), "k" := Entry(b, 2)]
    ensures IsOldest(m, "") && Enumerates(["", "k"], m.Keys) && Scan(m, ["", "k"]) == "k"
  {
    assert m.Keys == {"", "k"};
    assert ["", "k"][..1] == [""] && [""][..0] == [];
    assert Scan(m, [""]) == "";
  }

  lemma {:induction false} SubsetSize<T>(a: set<T>, b: set<T>)
    requires a <= b
    ensures |a| <= |b|
  {
    assert b == a + (b - a);
  }

  lemma {:induction false} SameSizeSame<T>(a: set<T>, b: set<T>)
    requires a <= b && |a| >= |b|
    ensures a == b
  {
    assert b == a + (b - a);
  }

  lemma {:induction false} SingletonKeys<T>(s: set<T>, x: T)
    requires x in s && |s| <= 1
    ensures s == {x}
  {
    assert s == {x} + (s - {x});
  }

  lemma {:induction false} EnumerationExists(keys: set<string>) returns (order: seq<string>)
    ensures Enumerates(order, keys)
    decreases keys
  {
    if keys == {} {
      order := [];
    } else {
      var k :| k in keys;
      var rest := EnumerationExists(keys - {k});
      order := [k] + rest;
    }
  }

  lemma {:induction false} ScanAfterEmptyKey<V>(m: Entries<V>, rest: seq<string>)
    requires "" in m && forall k :: k in rest ==> k in m
    requires rest != [] && "" !in rest
    ensures Scan(m, [""] + rest) in rest
  {
    var n := |rest| - 1;
    assert ([""] + rest)[..n + 1] == [""] + rest[..n];
    assert ([""] + rest)[n + 1] == rest[n];
    if n == 0 {
      assert [""] + rest[..0] == [""];
      assert Scan(m, [""]) == "" by { assert [""][..0] == []; }
    } else {
      ScanAfterEmptyKey(m, rest[..n]);
    }
  }

  // The operations on the map.

  function Pruned<V>(m: Entries<V>, now: int): Entries<V>
  {
    map k | k in m && now < m[k].exp :: m[k]
  }

  datatype Event<V> =
    | Load(key: string, now: int)
    | Store(key: string, entry: Entry<V>, now: int)
    | Len(now: int)
    | Clear

  /** The map that one call may leave behind; only the order of the eviction scan is left open. */
  ghost predicate Step<V(!new)>(limit: nat, m: Entries<V>, ev: Event<V>, m': Entries<V>)
  {
    match ev
    case Load(_, now) => m' == Pruned(m, now)
    case Len(now) => m' == Pruned(m, now)
    case Clear => m' == map[]
    case Store(key, entry, now) =>
      var p := Pruned(m, now);
      if key !in p && |p| >= limit
      then exists order :: Enumerates(order, p.Keys) && m' == (p - {Scan(p, order)})[key := entry]
      else m' == p[key := entry]
  }

  /**
   * What a store does: the entry is there, everything else is what was there and has not expired, and at most one such
   * entry is missing, which takes a new key and a cache full of unexpired entries.
   */
  lemma {:induction false} StoreMeans<V(!new)>(
      limit: nat, m: Entries<V>, key: string, entry: Entry<V>, now: int, m': Entries<V>)
    requires limit >= 1 && Step(limit, m, Store(key, entry, now), m')
    ensures key in m' && m'[key] == entry
    ensures forall k :: k in m' && k != key ==> k in m && m'[k] == m[k] && now < m[k].exp
    ensures forall j, k :: j in m && k in m && now < m[j].exp && now < m[k].exp && j !in m' && k !in m' ==> j == k
    ensures forall k :: k in m && now < m[k].exp && k !in m' ==>
      !(key in m && now < m[key].exp) && |Pruned(m, now)| >= limit
  {
    var p := Pruned(m, now);
    if key !in p && |p| >= limit {
      var order :| Enumerates(order, p.Keys) && m' == (p - {Scan(p, order)})[key := entry];
    }
  }

  class CacheStore<V(!new)> {
    var entries: Entries<V>
    const limit: nat

    constructor (limit: nat)
      requires limit >= 1
      ensures this.limit == limit && entries == map[]
    {
      this.limit := limit;
      entries := map[];
    }

    method PruneExpired(now: int)
      modifies this
      ensures entries == Pruned(old(entries), now)
    {
      var todo := entries.Keys;
      while todo != {}
        invariant todo <= entries.Keys <= old(entries).Keys
        invariant forall k :: k in todo ==> k in entries
        invariant forall k :: k in entries ==> entries[k] == old(entries)[k]
        invariant forall k :: k in old(entries) && k !in todo ==> (k in entries <==> now < old(entries)[k].exp)
        decreases todo
      {
        var key :| key in todo;
        todo := todo - {key};
        if entries[key].exp <= now {
          entries := entries - {key};
        }
      }
    }

    method EvictOldest()
      modifies this
      ensures exists order ::
        Enumerates(order, old(entries).Keys) && entries == old(entries) - {Scan(old(entries), order)}
    {
      var oldestKey, oldestExpiry := "", 0;
      var todo := entries.Keys;
      ghost var order: seq<string> := [];
      while todo != {}
        invariant todo <= entries.Keys && entries == old(entries)
        invariant Enumerates(order, entries.Keys - todo)
        invariant oldestKey == Scan(entries, order)
        invariant oldestKey != "" ==> oldestExpiry == entries[oldestKey].exp
        decreases todo
      {
        var key :| key in todo;
        var entry := entries[key];
        assert (order + [key])[..|order|] == order;
        if oldestKey == "" || entry.exp < oldestExpiry || (entry.exp == oldestExpiry && LexLess(key, oldestKey)) {
          oldestKey, oldestExpiry := key, entry.exp;
        }
        order := order + [key];
        todo := todo - {key};
      }
      assert entries.Keys - todo == entries.Keys;
      entries := entries - {oldestKey};
    }

    method Load(key: string, now: int) returns (r: Option<Entry<V>>)
      modifies this
      ensures Step(limit, old(entries), Event.Load(key, now), entries)
      ensures r == if key in entries then Some(entries[key]) else None
    {
      PruneExpired(now);
      r := if key in entries then Some(entries[key]) else None;
    }

    method Store(key: string, entry: Entry<V>, now: int)
      modifies this
      ensures Step(limit, old(entries), Event.Store(key, entry, now), entries)
    {
      PruneExpired(now);
      if key !in entries && |entries| >= limit {
        EvictOldest();
      }
      entries := entries[key := entry];
    }

    method Clear()
      modifies this
      ensures Step(limit, old(entries), Event.Clear, entries)
    {
      entries := map[];
    }

    method Len(now: int) returns (n: nat)
      modifies this
      ensures Step(limit, old(entries), Event.Len(now), entries)
      ensures n == |entries|
    {
      PruneExpired(now);
      n := |entries|;
    }
  }

  // Whole runs.

  /** A run from the empty cache: `states[i]` is the map before `events[i]`. */
  ghost predicate Run<V(!new)>(limit: nat, states: seq<Entries<V>>, events: seq<Event<V>>)
  {
    && |states| == |events| + 1
    && states[0] == map[]
    && forall i :: 0 <= i < |events| ==> Step(limit, states[i], events[i], states[i + 1])
  }

  lemma {:induction false} PrunedSize<V>(m: Entries<V>, now: int)
    ensures |Pruned(m, now)| <= |m|
  {
    SubsetSize(Pruned(m, now).Keys, m.Keys);
  }

  lemma {:induction false} RemoveSize<V>(m: Entries<V>, k: string)
    requires k in m
    ensures |m - {k}| == |m| - 1
  {
    assert (m - {k}).Keys == m.Keys - {k};
  }

  lemma {:induction false} UpdateSize<V>(m: Entries<V>, k: string, e: Entry<V>)
    ensures |m[k := e]| == if k in m then |m| else |m| + 1
  {
    assert m[k := e].Keys == m.Keys + {k};
  }

  lemma {:induction false} StepKeepsBound<V(!new)>(limit: nat, m: Entries<V>, ev: Event<V>, m': Entries<V>)
    requires limit >= 1 && |m| <= limit && Step(limit, m, ev, m')
    ensures |m'| <= limit
  {
    if ev.Store? {
      var p := Pruned(m, ev.now);
      PrunedSize(m, ev.now);
      if ev.key !in p && |p| >= limit {
        var order :| Enumerates(order, p.Keys) && m' == (p - {Scan(p, order)})[ev.key := ev.entry];
        assert p.Keys != {};
        var k :| k in p.Keys;
        assert k in order;
        RemoveSize(p, Scan(p, order));
        UpdateSize(p - {Scan(p, order)}, ev.key, ev.entry);
      } else {
        UpdateSize(p, ev.key, ev.entry);
      }
    } else if !ev.Clear? {
      PrunedSize(m, ev.now);
    }
  }

  /** In no reachable state does the cache hold more than `limit` entries. */
  lemma {:induction false} RunKeepsBound<V(!new)>(limit: nat, states: seq<Entries<V>>, events: seq<Event<V>>, i: nat)
    requires limit >= 1 && Run(limit, states, events) && i <= |events|
    ensures |states[i]| <= limit
  {
    if i > 0 {
      RunKeepsBound(limit, states, events, i - 1);
      StepKeepsBound(limit, states[i - 1], events[i - 1], states[i]);
    }
  }

  /** The last entry stored under `key` since the cache was last cleared. */
  function LatestStore<V>(events: seq<Event<V>>, key: string): Option<Entry<V>>
  {
    if events == [] then None
    else
      var last, before := events[|events| - 1], events[..|events| - 1];
      if last.Clear? then None
      else if last.Store? && last.key == key then Some(last.entry)
      else LatestStore(before, key)
  }

  lemma {:induction false} RunHoldsLatest<V(!new)>(
      limit: nat, states: seq<Entries<V>>, events: seq<Event<V>>, i: nat, key: string)
    requires Run(limit, states, events) && i <= |events| && key in states[i]
    ensures LatestStore(events[..i], key) == Some(states[i][key])
  {
    assert i > 0;
    var ev, before := events[i - 1], events[..i - 1];
    assert events[..i][..i - 1] == before && events[..i][i - 1] == ev;
    assert Step(limit, states[i - 1], ev, states[i]);
    if !(ev.Store? && ev.key == key) {
      assert key in states[i - 1] && states[i - 1][key] == states[i][key];
      RunHoldsLatest(limit, states, events, i - 1, key);
    }
  }

  /** Whatever Load returns is the latest entry stored under that key since Clear, and has not expired. */
  lemma {:induction false} LoadIsLatestAndLive<V(!new)>(
      limit: nat, states: seq<Entries<V>>, events: seq<Event<V>>, i: nat)
    requires Run(limit, states, events) && i < |events| && events[i].Load?
    requires events[i].key in states[i + 1]
    ensures LatestStore(events[..i], events[i].key) == Some(states[i + 1][events[i].key])
    ensures events[i].now < states[i + 1][events[i].key].exp
  {
    assert Step(limit, states[i], events[i], states[i + 1]);
    RunHoldsLatest(limit, states, events, i, events[i].key);
  }

  // The exact contents when every store expires later than the ones before it.

  datatype Stored<V> = Stored(key: string, entry: Entry<V>)

  function Without<V>(s: seq<Stored<V>>, key: string): seq<Stored<V>>
  {
    if s == [] then []
    else if s[0].key == key then Without(s[1..], key)
    else [s[0]] + Without(s[1..], key)
  }

  /** The distinct keys stored since Clear, each with its latest entry, least recently stored first. */
  function Recent<V>(events: seq<Event<V>>): seq<Stored<V>>
  {
    if events == [] then [] else NextRecent(Recent(events[..|events| - 1]), events[|events| - 1])
  }

  lemma {:induction false} RecentStep<V>(events: seq<Event<V>>, i: nat)
    requires 1 <= i <= |events|
    ensures Recent(events[..i]) == NextRecent(Recent(events[..i - 1]), events[i - 1])
  {
    assert events[..i][..i - 1] == events[..i - 1];
  }

  /** How one more event changes the list. */
  function NextRecent<V>(r: seq<Stored<V>>, ev: Event<V>): seq<Stored<V>>
  {
    match ev
    case Clear => []
    case Store(key, entry, _) => Without(r, key) + [Stored(key, entry)]
    case _ => r
  }

  function LastN<T>(s: seq<T>, n: nat): seq<T>
  {
    if |s| <= n then s else s[|s| - n..]
  }

  /** The map holds the unexpired entries of the list and nothing else. */
  ghost predicate IsLive<V(!new)>(m: Entries<V>, s: seq<Stored<V>>, now: int)
  {
    forall k, e :: (k in m && m[k] == e) <==> (Stored(k, e) in s && now < e.exp)
  }

  predicate Clocked<V>(ev: Event<V>) { !ev.Clear? }

  /** Clocks do not run backwards, every store expires later than the earlier ones (fixed TTL), keys are not empty. */
  ghost predicate FixedTtl<V>(events: seq<Event<V>>)
  {
    && (forall i, j :: 0 <= i < j < |events| && Clocked(events[i]) && Clocked(events[j]) ==>
      events[i].now <= events[j].now)
    && (forall i, j :: 0 <= i < j < |events| && events[i].Store? && events[j].Store? ==>
      events[i].entry.exp < events[j].entry.exp)
    && (forall i :: 0 <= i < |events| && events[i].Store? ==> events[i].key != "")
  }

  /** Distinct non-empty keys, in order of expiry. */
  ghost predicate WellOrdered<V>(w: seq<Stored<V>>)
  {
    && (forall i :: 0 <= i < |w| ==> w[i].key != "")
    && (forall i, j :: 0 <= i < j < |w| ==> w[i].key != w[j].key && w[i].entry.exp < w[j].entry.exp)
  }

  lemma {:induction false} TailWellOrdered<V>(w: seq<Stored<V>>)
    requires w != [] && WellOrdered(w)
    ensures w[0].key != "" && WellOrdered(w[1..])
    ensures forall y :: y in w[1..] ==> y.key != w[0].key && w[0].entry.exp < y.entry.exp
  {
  }

  lemma {:induction false} ConsWellOrdered<V>(x: Stored<V>, t: seq<Stored<V>>)
    requires x.key != "" && WellOrdered(t)
    requires forall y :: y in t ==> y.key != x.key && x.entry.exp < y.entry.exp
    ensures WellOrdered([x] + t)
  {
    assert forall i :: 0 <= i < |t| ==> t[i] in t;
  }

  lemma {:induction false} SnocWellOrdered<V>(t: seq<Stored<V>>, x: Stored<V>)
    requires x.key != "" && WellOrdered(t)
    requires forall y :: y in t ==> y.key != x.key && y.entry.exp < x.entry.exp
    ensures WellOrdered(t + [x])
  {
    assert forall i :: 0 <= i < |t| ==> t[i] in t;
  }

  /** `m` is some part of the window `w` that includes everything unexpired at `clock`. */
  ghost predicate Tracks<V>(m: Entries<V>, w: seq<Stored<V>>, clock: int)
  {
    && WellOrdered(w)
    && (forall k :: k in m ==> Stored(k, m[k]) in w)
    && (forall x :: x in w && clock < x.entry.exp ==> x.key in m)
  }

  ghost function Keys<V>(w: seq<Stored<V>>): (ks: set<string>)
    ensures forall y :: y in w ==> y.key in ks
    ensures forall k :: k in ks ==> exists y :: y in w && y.key == k
  {
    if w == [] then {}
    else
      assert w == [w[0]] + w[1..];
      {w[0].key} + Keys(w[1..])
  }

  lemma {:induction false} KeysSize<V>(w: seq<Stored<V>>)
    requires WellOrdered(w)
    ensures |Keys(w)| == |w|
  {
    if w != [] {
      TailWellOrdered(w);
      KeysSize(w[1..]);
      HeadIsNew(w);
      AddedSize(Keys(w[1..]), w[0].key);
    }
  }

  lemma {:induction false} AddedSize<T>(s: set<T>, x: T)
    requires x !in s
    ensures |{x} + s| == |s| + 1
  {
    assert {x} + s - {x} == s;
  }

  lemma {:induction false} HeadIsNew<V>(w: seq<Stored<V>>)
    requires WellOrdered(w) && w != []
    ensures w[0].key !in Keys(w[1..])
  {
  }

  lemma {:induction false} WithoutAbsent<V>(s: seq<Stored<V>>, key: string)
    requires forall y :: y in s ==> y.key != key
    ensures Without(s, key) == s
  {
    if s != [] { WithoutAbsent(s[1..], key); }
  }

  /** How the window of the last `limit` keys changes when `x` is stored. */
  function Slide<V>(limit: nat, w: seq<Stored<V>>, x: Stored<V>): seq<Stored<V>>
  {
    LastN(Without(w, x.key) + [x], limit)
  }

  lemma {:induction false} LastNSnoc<T>(s: seq<T>, x: T, n: nat)
    requires n >= 1
    ensures LastN(s + [x], n) == LastN(s, n - 1) + [x]
  {
  }

  lemma {:induction false} WithoutLosesOne<V>(s: seq<Stored<V>>, key: string)
    requires WellOrdered(s)
    ensures |Without(s, key)| >= |s| - 1
  {
    if s != [] {
      TailWellOrdered(s);
      if s[0].key == key {
        WithoutAbsent(s[1..], key);
      } else {
        WithoutLosesOne(s[1..], key);
      }
    }
  }

  lemma {:induction false} LastNCons<T>(x: T, t: seq<T>, n: nat)
    requires n <= |t|
    ensures LastN([x] + t, n) == LastN(t, n)
  {
    assert ([x] + t)[|t| + 1 - n..] == t[|t| - n..];
  }

  /** Dropping a key and cutting to a window commute, up to the oldest element. */
  lemma {:induction false} WithoutInWindow<V>(limit: nat, r: seq<Stored<V>>, key: string)
    requires limit >= 1 && WellOrdered(r)
    ensures LastN(Without(r, key), limit - 1) == LastN(Without(LastN(r, limit), key), limit - 1)
  {
    if |r| > limit {
      var tail := r[1..];
      assert LastN(r, limit) == LastN(tail, limit);
      TailWellOrdered(r);
      WithoutInWindow(limit, tail, key);
      WithoutLosesOne(tail, key);
      if r[0].key != key {
        LastNCons(r[0], Without(tail, key), limit - 1);
      }
    }
  }

  lemma {:induction false} SlideIsLastN<V>(limit: nat, r: seq<Stored<V>>, x: Stored<V>)
    requires limit >= 1 && WellOrdered(r)
    ensures LastN(Without(r, x.key) + [x], limit) == Slide(limit, LastN(r, limit), x)
  {
    LastNSnoc(Without(r, x.key), x, limit);
    LastNSnoc(Without(LastN(r, limit), x.key), x, limit);
    WithoutInWindow(limit, r, x.key);
  }

  lemma {:induction false} PrunedTracks<V>(m: Entries<V>, w: seq<Stored<V>>, now: int)
    requires Tracks(m, w, now)
    ensures Tracks(Pruned(m, now), w, now)
    ensures forall i :: 0 <= i < |w| ==> (w[i].key in Pruned(m, now) <==> now < w[i].entry.exp)
  {
    forall i | 0 <= i < |w| && w[i].key in m ensures m[w[i].key] == w[i].entry {
      var x := Stored(w[i].key, m[w[i].key]);
      assert x in w;
      var j :| 0 <= j < |w| && w[j] == x;
    }
    assert forall i :: 0 <= i < |w| ==> w[i] in w;
  }

  lemma {:induction false} FullMeansAllLive<V>(limit: nat, p: Entries<V>, w: seq<Stored<V>>)
    requires WellOrdered(w) && |w| <= limit
    requires forall k :: k in p ==> Stored(k, p[k]) in w
    ensures |p| <= |w|
    ensures |p| >= limit ==> |w| == limit && forall i :: 0 <= i < |w| ==> w[i].key in p
    ensures |p| < limit && |w| == limit ==> exists i :: 0 <= i < |w| && w[i].key !in p
  {
    KeysSize(w);
    assert p.Keys <= Keys(w) by {
      forall k | k in p ensures k in Keys(w) { assert Stored(k, p[k]) in w; }
    }
    SubsetSize(p.Keys, Keys(w));
    if |p| >= limit {
      forall i | 0 <= i < |w| ensures w[i].key in p {
        assert w[i] in w;
        SameSizeSame(p.Keys, Keys(w));
      }
    } else if |w| == limit {
      assert exists k :: k in Keys(w) && k !in p by {
        if Keys(w) <= p.Keys { SubsetSize(Keys(w), p.Keys); }
      }
    }
  }

  /** When the cache is full the scan, in any order, picks the head of the window. */
  lemma {:induction false} EvictsHead<V>(limit: nat, p: Entries<V>, w: seq<Stored<V>>, now: int, order: seq<string>)
    requires limit >= 1 && |p| >= limit && |w| <= limit && Tracks(p, w, now) && Enumerates(order, p.Keys)
    ensures |w| == limit && Scan(p, order) == w[0].key
  {
    FullMeansAllLive(limit, p, w);
    assert w[0].key in p;
    forall i | 0 <= i < |w| ensures p[w[i].key] == w[i].entry {
      assert Stored(w[i].key, p[w[i].key]) in w;
    }
    forall k | k in order && k != w[0].key ensures Older(p, w[0].key, k) {
      assert Stored(k, p[k]) in w;
    }
    ScanInvariant(p, order, w[0].key);
  }

  lemma {:induction false} WithoutMembers<V>(s: seq<Stored<V>>, key: string)
    ensures forall x :: x in Without(s, key) ==> x in s && x.key != key
    ensures forall x :: x in s && x.key != key ==> x in Without(s, key)
    ensures |Without(s, key)| <= |s|
  {
    if s != [] {
      WithoutMembers(s[1..], key);
      assert s == [s[0]] + s[1..];
    }
  }

  lemma {:induction false} WithoutShrinks<V>(s: seq<Stored<V>>, x: Stored<V>)
    requires x in s
    ensures |Without(s, x.key)| < |s|
  {
    WithoutMembers(s[1..], x.key);
    if s[0].key != x.key {
      assert s == [s[0]] + s[1..];
      WithoutShrinks(s[1..], x);
    }
  }

  lemma {:induction false} WithoutWellOrdered<V>(s: seq<Stored<V>>, key: string)
    requires WellOrdered(s)
    ensures WellOrdered(Without(s, key))
  {
    if s != [] {
      TailWellOrdered(s);
      WithoutWellOrdered(s[1..], key);
      WithoutMembers(s[1..], key);
      ConsWellOrdered(s[0], Without(s[1..], key));
    }
  }

  lemma {:induction false} AppendWellOrdered<V>(s: seq<Stored<V>>, x: Stored<V>)
    requires WellOrdered(s) && x.key != ""
    requires forall y :: y in s ==> y.entry.exp < x.entry.exp
    ensures WellOrdered(Without(s, x.key) + [x])
  {
    WithoutWellOrdered(s, x.key);
    WithoutMembers(s, x.key);
    SnocWellOrdered(Without(s, x.key), x);
  }

  /** Storing under a key that the window already has. */
  lemma {:induction false} RestoreTracks<V>(
      limit: nat, p: Entries<V>, w: seq<Stored<V>>, x: Stored<V>, y: Stored<V>, now: int)
    requires |w| <= limit && Tracks(p, w, now) && x.key != "" && y in w && y.key == x.key
    requires forall z :: z in w ==> z.entry.exp < x.entry.exp
    ensures Tracks(p[x.key := x.entry], Slide(limit, w, x), now)
  {
    WithoutMembers(w, x.key);
    WithoutShrinks(w, y);
    AppendWellOrdered(w, x);
    AppendTracks(p, Without(w, x.key), x, now);
  }

  lemma {:induction false} AppendTracks<V>(p: Entries<V>, rest: seq<Stored<V>>, x: Stored<V>, now: int)
    requires WellOrdered(rest + [x])
    requires forall k :: k in p && k != x.key ==> Stored(k, p[k]) in rest
    requires forall y :: y in rest && now < y.entry.exp ==> y.key in p
    ensures Tracks(p[x.key := x.entry], rest + [x], now)
  {
  }

  /** Storing under a new key, once the head of a full window is gone from the map. */
  lemma {:induction false} FreshTracks<V>(limit: nat, q: Entries<V>, w: seq<Stored<V>>, x: Stored<V>, now: int)
    requires limit >= 1 && |w| <= limit && WellOrdered(w) && x.key != ""
    requires forall y :: y in w ==> y.key != x.key && y.entry.exp < x.entry.exp
    requires forall k :: k in q ==> Stored(k, q[k]) in w
    requires forall y :: y in w && now < y.entry.exp ==> y.key in q || (y == w[0] && |w| == limit)
    requires |w| == limit ==> w[0].key !in q
    ensures Tracks(q[x.key := x.entry], Slide(limit, w, x), now)
  {
    var rest := if |w| == limit then w[1..] else w;
    FreshWindow(limit, w, x);
    assert |w| == limit ==> w == [w[0]] + rest;
    forall y | y in rest && now < y.entry.exp ensures y.key in q {
      var i :| 0 <= i < |rest| && rest[i] == y;
      assert y in w && (|w| == limit ==> y == w[i + 1]);
    }
    AppendTracks(q, rest, x, now);
  }

  lemma {:induction false} FreshWindow<V>(limit: nat, w: seq<Stored<V>>, x: Stored<V>)
    requires limit >= 1 && |w| <= limit && WellOrdered(w) && x.key != ""
    requires forall y :: y in w ==> y.key != x.key && y.entry.exp < x.entry.exp
    ensures var rest := if |w| == limit then w[1..] else w;
      Slide(limit, w, x) == rest + [x] && WellOrdered(rest + [x])
  {
    WithoutAbsent(w, x.key);
    LastNSnoc(w, x, limit);
    if |w| == limit {
      TailWellOrdered(w);
      SnocWellOrdered(w[1..], x);
    } else {
      SnocWellOrdered(w, x);
    }
  }

  lemma {:induction false} StoreTracks<V(!new)>(
      limit: nat, m: Entries<V>, w: seq<Stored<V>>, ev: Event<V>, m': Entries<V>)
    requires limit >= 1 && |w| <= limit
    requires ev.Store? && ev.key != "" && Step(limit, m, ev, m') && Tracks(m, w, ev.now)
    requires forall y :: y in w ==> y.entry.exp < ev.entry.exp
    ensures Tracks(m', Slide(limit, w, Stored(ev.key, ev.entry)), ev.now)
  {
    var p, x := Pruned(m, ev.now), Stored(ev.key, ev.entry);
    PrunedTracks(m, w, ev.now);
    FullMeansAllLive(limit, p, w);
    if ev.key in p {
      RestoreTracks(limit, p, w, x, Stored(ev.key, p[ev.key]), ev.now);
    } else if |p| >= limit {
      var order :| Enumerates(order, p.Keys) && m' == (p - {Scan(p, order)})[ev.key := ev.entry];
      EvictedTracks(limit, p, w, x, ev.now, order);
    } else if y :| y in w && y.key == ev.key {
      RestoreTracks(limit, p, w, x, y, ev.now);
    } else {
      if |w| == limit { HeadExpired(p, w, ev.now); }
      FreshTracks(limit, p, w, x, ev.now);
    }
  }

  lemma {:induction false} EvictedTracks<V>(
      limit: nat, p: Entries<V>, w: seq<Stored<V>>, x: Stored<V>, now: int, order: seq<string>)
    requires limit >= 1 && |p| >= limit && |w| <= limit && Tracks(p, w, now) && Enumerates(order, p.Keys)
    requires x.key !in p && x.key != "" && forall y :: y in w ==> y.entry.exp < x.entry.exp
    requires forall i :: 0 <= i < |w| ==> w[i].key in p
    ensures Tracks((p - {Scan(p, order)})[x.key := x.entry], Slide(limit, w, x), now)
  {
    EvictsHead(limit, p, w, now, order);
    NoneAbsent(p, w, x.key);
    FreshTracks(limit, p - {w[0].key}, w, x, now);
  }

  lemma {:induction false} NoneAbsent<V>(p: Entries<V>, w: seq<Stored<V>>, key: string)
    requires forall i :: 0 <= i < |w| ==> w[i].key in p
    requires key !in p
    ensures forall y :: y in w ==> y.key != key
  {
  }

  /** When a full window is not all in the map, its head, the first to expire, is not. */
  lemma {:induction false} HeadExpired<V>(p: Entries<V>, w: seq<Stored<V>>, now: int)
    requires Tracks(p, w, now) && exists i :: 0 <= i < |w| && w[i].key !in p
    requires forall i :: 0 <= i < |w| ==> (w[i].key in p <==> now < w[i].entry.exp)
    ensures w[0].key !in p
  {
    var i :| 0 <= i < |w| && w[i].key !in p;
    assert i == 0 || w[0].entry.exp < w[i].entry.exp;
  }

  lemma {:induction false} RecentComesFromStores<V>(events: seq<Event<V>>, x: Stored<V>)
    requires x in Recent(events)
    ensures exists i :: 0 <= i < |events| && events[i].Store? && events[i].key == x.key && events[i].entry == x.entry
  {
    var n := |events| - 1;
    var last, before := events[n], events[..n];
    if last.Store? && x == Stored(last.key, last.entry) {
      assert events[n].Store?;
    } else {
      if last.Store? {
        assert x in Without(Recent(before), last.key);
        WithoutSubset(Recent(before), last.key, x);
      }
      RecentComesFromStores(before, x);
      var i :| 0 <= i < |before| && before[i].Store? && before[i].key == x.key && before[i].entry == x.entry;
      assert events[i] == before[i];
    }
  }

  lemma {:induction false} WithoutSubset<V>(s: seq<Stored<V>>, key: string, x: Stored<V>)
    requires x in Without(s, key)
    ensures x in s && x.key != key
  {
    if s[0].key == key || x != s[0] { WithoutSubset(s[1..], key, x); }
  }

  lemma {:induction false} RecentExpiresBefore<V>(events: seq<Event<V>>, i: nat)
    requires FixedTtl(events) && i < |events| && events[i].Store?
    ensures forall y :: y in Recent(events[..i]) ==> y.entry.exp < events[i].entry.exp
  {
    forall y | y in Recent(events[..i]) ensures y.entry.exp < events[i].entry.exp {
      RecentComesFromStores(events[..i], y);
    }
  }

  lemma {:induction false} RecentWellOrdered<V>(events: seq<Event<V>>, i: nat)
    requires FixedTtl(events) && i <= |events|
    ensures WellOrdered(Recent(events[..i]))
  {
    if i > 0 {
      var ev, r := events[i - 1], Recent(events[..i - 1]);
      RecentStep(events, i);
      RecentWellOrdered(events, i - 1);
      if ev.Store? {
        RecentExpiresBefore(events, i - 1);
        AppendWellOrdered(r, Stored(ev.key, ev.entry));
      }
    }
  }

  lemma {:induction false} EventTracks<V(!new)>(
      limit: nat, m: Entries<V>, r: seq<Stored<V>>, ev: Event<V>, m': Entries<V>)
    requires limit >= 1 && WellOrdered(r) && Clocked(ev) && Step(limit, m, ev, m')
    requires Tracks(m, LastN(r, limit), ev.now)
    requires ev.Store? ==> ev.key != "" && forall y :: y in r ==> y.entry.exp < ev.entry.exp
    ensures Tracks(m', LastN(NextRecent(r, ev), limit), ev.now)
  {
    var w := LastN(r, limit);
    if ev.Store? {
      assert forall y :: y in w ==> y in r;
      StoreTracks(limit, m, w, ev, m');
      SlideIsLastN(limit, r, Stored(ev.key, ev.entry));
    } else {
      PrunedTracks(m, w, ev.now);
    }
  }

  lemma {:induction false} LaterTracks<V>(m: Entries<V>, w: seq<Stored<V>>, clock: int, later: int)
    requires Tracks(m, w, clock) && clock <= later
    ensures Tracks(m, w, later)
  {
  }

  lemma {:induction false} RunTracks<V(!new)>(
      limit: nat, states: seq<Entries<V>>, events: seq<Event<V>>, i: nat, clock: int)
    requires limit >= 1 && Run(limit, states, events) && FixedTtl(events) && i <= |events|
    requires forall j :: 0 <= j < i && Clocked(events[j]) ==> events[j].now <= clock
    ensures Tracks(states[i], LastN(Recent(events[..i]), limit), clock)
  {
    if i > 0 {
      var ev, r := events[i - 1], Recent(events[..i - 1]);
      RecentStep(events, i);
      assert Step(limit, states[i - 1], ev, states[i]);
      if Clocked(ev) {
        RunTracks(limit, states, events, i - 1, ev.now);
        RecentWellOrdered(events, i - 1);
        if ev.Store? { RecentExpiresBefore(events, i - 1); }
        EventTracks(limit, states[i - 1], r, ev, states[i]);
        LaterTracks(states[i], LastN(NextRecent(r, ev), limit), ev.now, clock);
      }
    }
  }

  /**
   * Refinement of the history: when expiries grow with every store, what the cache holds at a lookup is exactly the
   * unexpired part of the `limit` most recently stored distinct keys, whatever order the eviction scans took.
   */
  lemma {:induction false} LookupContents<V(!new)>(limit: nat, states: seq<Entries<V>>, events: seq<Event<V>>, i: nat)
    requires limit >= 1 && Run(limit, states, events) && FixedTtl(events)
    requires i < |events| && (events[i].Load? || events[i].Len?)
    ensures IsLive(states[i + 1], LastN(Recent(events[..i]), limit), events[i].now)
  {
    RunTracks(limit, states, events, i, events[i].now);
    assert Step(limit, states[i], events[i], states[i + 1]);
    TracksMeansLive(states[i], LastN(Recent(events[..i]), limit), events[i].now);
  }

  lemma {:induction false} TracksMeansLive<V(!new)>(m: Entries<V>, w: seq<Stored<V>>, now: int)
    requires Tracks(m, w, now)
    ensures IsLive(Pruned(m, now), w, now)
  {
    PrunedTracks(m, w, now);
    var p := Pruned(m, now);
    forall k, e | Stored(k, e) in w && now < e.exp ensures k in p && p[k] == e {
      var j :| 0 <= j < |w| && w[j] == Stored(k, e);
      assert Stored(k, p[k]) in w;
    }
  }
}
