/** Strict orders, and the slices.Sort / slices.Compact pair that the source applies to collected map contents. */
module Ordering {

  ghost predicate StrictTotal<T(!new)>(less: (T, T) -> bool)
  {
    && (forall a :: !less(a, a))
    && (forall a, b, c :: less(a, b) && less(b, c) ==> less(a, c))
    && (forall a, b :: a == b || less(a, b) || less(b, a))
  }

  /** Strictly increasing. */
  ghost predicate Ascending<T>(less: (T, T) -> bool, s: seq<T>)
  {
    forall i, j :: 0 <= i < j < |s| ==> less(s[i], s[j])
  }

  /** Increasing, repetitions allowed. */
  ghost predicate Sorted<T>(less: (T, T) -> bool, s: seq<T>)
  {
    forall i, j :: 0 <= i < j < |s| ==> !less(s[j], s[i])
  }

  /** A strictly increasing sequence is determined by its elements. */
  lemma {:induction false} AscendingUnique<T(!new)>(less: (T, T) -> bool, s: seq<T>, t: seq<T>)
    requires StrictTotal(less)
    requires Ascending(less, s) && Ascending(less, t)
    requires forall x :: x in s <==> x in t
    ensures s == t
  {
    if t != [] { assert t[0] in s; }
    if s != [] {
      assert s[0] in t;
      assert s[0] == t[0];
      forall x ensures x in s[1..] <==> x in t[1..] {
        assert x in s[1..] ==> x in s && x != s[0];
        assert x in t[1..] ==> x in t && x != t[0];
      }
      AscendingUnique(less, s[1..], t[1..]);
    }
  }

  function Insert<T>(less: (T, T) -> bool, x: T, s: seq<T>): seq<T>
  {
    if s == [] || !less(s[0], x) then [x] + s else [s[0]] + Insert(less, x, s[1..])
  }

  function Sort<T>(less: (T, T) -> bool, s: seq<T>): seq<T>
  {
    if s == [] then [] else Insert(less, s[0], Sort(less, s[1..]))
  }

  lemma {:induction false} InsertSorted<T(!new)>(less: (T, T) -> bool, x: T, s: seq<T>)
    requires StrictTotal(less) && Sorted(less, s)
    ensures multiset(Insert(less, x, s)) == multiset(s) + multiset{x}
    ensures Sorted(less, Insert(less, x, s))
  {
    if s == [] {
    } else if !less(s[0], x) {
    } else {
      InsertSorted(less, x, s[1..]);
      assert s == [s[0]] + s[1..];
      var r := Insert(less, x, s[1..]);
      forall j | 0 <= j < |r| ensures !less(r[j], s[0]) {
        assert r[j] in multiset(r);
        assert r[j] == x || r[j] in s[1..];
      }
    }
  }

  lemma {:induction false} SortSorts<T(!new)>(less: (T, T) -> bool, s: seq<T>)
    requires StrictTotal(less)
    ensures multiset(Sort(less, s)) == multiset(s)
    ensures Sorted(less, Sort(less, s))
  {
    if s != [] {
      SortSorts(less, s[1..]);
      InsertSorted(less, s[0], Sort(less, s[1..]));
      assert s == [s[0]] + s[1..];
    }
  }

  /** slices.Compact: drops every element equal to its predecessor. */
  function Compact<T(==)>(s: seq<T>): seq<T>
  {
    if |s| <= 1 then s
    else if s[0] == s[1] then Compact(s[1..])
    else [s[0]] + Compact(s[1..])
  }

  lemma {:induction false} CompactAscends<T(!new)>(less: (T, T) -> bool, s: seq<T>)
    requires StrictTotal(less) && Sorted(less, s)
    ensures Ascending(less, Compact(s))
    ensures forall x :: x in Compact(s) <==> x in s
    ensures s != [] ==> Compact(s) != [] && Compact(s)[0] == s[0]
  {
    if |s| > 1 {
      CompactAscends(less, s[1..]);
      assert s == [s[0]] + s[1..];
      if s[0] != s[1] {
        var r := Compact(s[1..]);
        forall j | 0 <= j < |r| ensures less(s[0], r[j]) {
          assert r[j] in s[1..];
          assert less(s[0], s[1]);
        }
      }
    }
  }

  /** Sorting and compacting yields the one strictly increasing sequence with the given elements. */
  lemma {:induction false} SortCompact<T(!new)>(less: (T, T) -> bool, s: seq<T>)
    requires StrictTotal(less)
    ensures Ascending(less, Compact(Sort(less, s)))
    ensures forall x :: x in Compact(Sort(less, s)) <==> x in s
  {
    SortSorts(less, s);
    CompactAscends(less, Sort(less, s));
    forall x ensures x in Sort(less, s) <==> x in s {
      assert x in multiset(Sort(less, s)) <==> x in multiset(s);
    }
  }

  predicate IntLess(a: int, b: int) { a < b }

  lemma {:induction false} IntStrictTotal()
    ensures StrictTotal<int>(IntLess)
  {
  }

  /** Go's `<` on strings. */
  predicate LexLess(a: string, b: string)
  {
    b != [] && (a == [] || a[0] < b[0] || (a[0] == b[0] && LexLess(a[1..], b[1..])))
  }

  lemma {:induction false} LexTransitive(a: string, b: string, c: string)
    requires LexLess(a, b) && LexLess(b, c)
    ensures LexLess(a, c)
  {
    if a != [] && a[0] == b[0] == c[0] {
      LexTransitive(a[1..], b[1..], c[1..]);
    }
  }

  lemma {:induction false} LexTrichotomy(a: string, b: string)
    ensures !LexLess(a, a)
    ensures a == b || LexLess(a, b) || LexLess(b, a)
  {
    if a != [] {
      if b != [] && a[0] == b[0] {
        LexTrichotomy(a[1..], b[1..]);
        assert a == [a[0]] + a[1..] && b == [b[0]] + b[1..];
      } else {
        LexTrichotomy(a[1..], a[1..]);
      }
    }
  }

  lemma {:induction false} LexAsymmetric(a: string, b: string)
    requires LexLess(a, b)
    ensures !LexLess(b, a)
  {
    LexTrichotomy(a, a);
    if LexLess(b, a) { LexTransitive(a, b, a); }
  }

  lemma {:induction false} LexStrictTotal()
    ensures StrictTotal(LexLess)
  {
    forall a: string, b: string ensures !LexLess(a, a) && (a == b || LexLess(a, b) || LexLess(b, a)) {
      LexTrichotomy(a, b);
    }
    forall a: string, b: string, c: string | LexLess(a, b) && LexLess(b, c) ensures LexLess(a, c) {
      LexTransitive(a, b, c);
    }
  }
}
