/** What a run of writes, some of them failed, leaves on a wire. */
module WriteLog {
  import opened Base

  /** One write that was not refused: the item, its bytes, and how many of them the wire took. */
  datatype Attempt<T> = Attempt(item: T, bytes: seq<Byte>, taken: nat) {
    predicate Fits() { taken <= |bytes| && bytes != [] }
    predicate Whole() { taken == |bytes| }
    predicate Torn() { 0 < taken < |bytes| }
  }

  ghost predicate Fitting<T>(log: seq<Attempt<T>>)
  {
    forall i :: 0 <= i < |log| ==> log[i].Fits()
  }

  /** No byte follows a torn item. */
  ghost predicate Orderly<T>(log: seq<Attempt<T>>)
  {
    forall i, j :: 0 <= i < j < |log| && log[i].Torn() ==> log[j].taken == 0
  }

  function Out<T>(log: seq<Attempt<T>>): seq<Byte>
    requires Fitting(log)
  {
    if log == [] then []
    else
      var last := log[|log| - 1];
      assert last.Fits();
      Out(log[..|log| - 1]) + last.bytes[..last.taken]
  }

  function Items<T>(log: seq<Attempt<T>>): (r: seq<T>)
    ensures |r| == |log|
  {
    seq(|log|, i requires 0 <= i < |log| => log[i].item)
  }

  /** The items that went out completely. */
  function WholeItems<T>(log: seq<Attempt<T>>): seq<T>
  {
    if log == [] then []
    else
      var front, last := WholeItems(log[..|log| - 1]), log[|log| - 1];
      if last.Whole() then front + [last.item] else front
  }

  function WholeBytes<T>(log: seq<Attempt<T>>): seq<Byte>
  {
    if log == [] then []
    else
      var front, last := WholeBytes(log[..|log| - 1]), log[|log| - 1];
      if last.Whole() then front + last.bytes else front
  }

  /** The torn item at the end of an orderly log, if there is one. */
  function Tail<T>(log: seq<Attempt<T>>): seq<Byte>
    requires Fitting(log)
  {
    if log == [] then []
    else
      var last := log[|log| - 1];
      assert last.Fits();
      if last.Torn() then last.bytes[..last.taken]
      else if last.taken == 0 then Tail(log[..|log| - 1])
      else []
  }

  lemma {:induction false} TailIsTorn<T>(log: seq<Attempt<T>>) returns (i: nat)
    requires Fitting(log) && Tail(log) != []
    ensures i < |log| && log[i].Torn() && Tail(log) == log[i].bytes[..log[i].taken]
  {
    i := |log| - 1;
    if !log[i].Torn() { i := TailIsTorn(log[..i]); }
  }

  /** An orderly log has one torn item at most. */
  lemma {:induction false} TornIsTail<T>(log: seq<Attempt<T>>, i: nat)
    requires Fitting(log) && Orderly(log) && i < |log| && log[i].Torn()
    ensures Tail(log) == log[i].bytes[..log[i].taken]
  {
    var n := |log| - 1;
    if i < n {
      assert log[n].taken == 0;
      TornIsTail(log[..n], i);
    }
  }

  lemma {:induction false} NothingBehindTorn<T>(log: seq<Attempt<T>>)
    requires Fitting(log) && Orderly(log) && log != [] && log[|log| - 1].taken > 0
    ensures Tail(log[..|log| - 1]) == []
  {
    if Tail(log[..|log| - 1]) != [] {
      var i := TailIsTorn(log[..|log| - 1]);
      assert false;
    }
  }

  /** An orderly log puts the complete items on the wire, one after the other, and then the torn one. */
  lemma {:induction false} OrderlyOut<T>(log: seq<Attempt<T>>)
    requires Fitting(log) && Orderly(log)
    ensures Out(log) == WholeBytes(log) + Tail(log)
  {
    if log != [] {
      var front, last := log[..|log| - 1], log[|log| - 1];
      assert last.Fits();
      OrderlyOut(front);
      if last.taken > 0 {
        assert Tail(front) == [] by { NothingBehindTorn(log); }
        assert last.Whole() ==> last.bytes[..last.taken] == last.bytes;
      }
    }
  }

  lemma {:induction false} Snoc<T>(log: seq<Attempt<T>>, a: Attempt<T>)
    requires Fitting(log) && a.Fits()
    ensures Fitting(log + [a]) && Out(log + [a]) == Out(log) + a.bytes[..a.taken]
    ensures WholeItems(log + [a]) == if a.Whole() then WholeItems(log) + [a.item] else WholeItems(log)
    ensures Tail(log + [a]) == if a.Torn() then a.bytes[..a.taken] else if a.taken == 0 then Tail(log) else []
  {
    assert (log + [a])[..|log|] == log;
  }

  lemma {:induction false} OrderlySnoc<T>(log: seq<Attempt<T>>, a: Attempt<T>)
    requires Orderly(log) && forall i :: 0 <= i < |log| && log[i].Torn() ==> a.taken == 0
    ensures Orderly(log + [a])
  {
  }

  /** A torn write with a complete one behind it. */
  lemma {:induction false} TornThenWhole<T>(a: Attempt<T>, b: Attempt<T>)
    requires a.Fits() && b.Fits() && a.Torn() && b.Whole()
    ensures Fitting([a, b]) && !Orderly([a, b])
    ensures WholeItems([a, b]) == [b.item] && Out([a, b]) == a.bytes[..a.taken] + b.bytes
  {
    Snoc([], a);
    Snoc([a], b);
    assert [] + [a] == [a] && [a] + [b] == [a, b];
    assert [a, b][0].Torn() && [a, b][1].taken > 0;
    assert [] + a.bytes[..a.taken] == a.bytes[..a.taken] && b.bytes[..b.taken] == b.bytes;
    assert [] + [b.item] == [b.item];
  }
}
