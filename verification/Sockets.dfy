/** An outgoing byte stream whose writes may be short or fail. */
module Sockets {
  import opened Base

  /**
   * One answer of the stream to a write: it takes up to `count` bytes and may report an error, or it breaks the
   * io.Writer contract by returning a count outside the buffer.
   */
  datatype Answer = Takes(count: nat, failed: bool) | Misreports(claim: int, failed: bool)

  /** The stream made progress and reported no error. */
  predicate Good(a: Answer) { a.Takes? && a.count > 0 && !a.failed }

  /** All answers of the stream from one turn to another were good. */
  ghost predicate AllGood(answers: nat -> Answer, from: nat, to: nat)
  {
    from <= to && forall i :: from <= i < to ==> Good(answers(i))
  }

  /** Writes one after the other: all answers are good if and only if those of each write are. */
  lemma {:induction false} AllGoodInTurn(answers: nat -> Answer, from: nat, mid: nat, to: nat)
    requires from <= mid <= to
    ensures AllGood(answers, from, to) <==> AllGood(answers, from, mid) && AllGood(answers, mid, to)
  {
  }

  /** `after` is `before` followed by some part of `data`, from its start. */
  ghost predicate PartlySent(before: seq<Byte>, after: seq<Byte>, data: seq<Byte>)
  {
    before <= after && after <= before + data
  }

  /** How many bytes went out, and that they are the first ones. */
  lemma {:induction false} Taken(before: seq<Byte>, after: seq<Byte>, data: seq<Byte>)
    requires PartlySent(before, after, data)
    ensures |before| <= |after| <= |before| + |data| && after == before + data[..|after| - |before|]
  {
    assert after == (before + data)[..|after|];
  }

  lemma {:induction false} PartOfFirst(before: seq<Byte>, after: seq<Byte>, first: seq<Byte>, rest: seq<Byte>)
    requires PartlySent(before, after, first)
    ensures PartlySent(before, after, first + rest)
  {
    assert before + (first + rest) == (before + first) + rest;
  }

  lemma {:induction false} PartOfRest(before: seq<Byte>, after: seq<Byte>, first: seq<Byte>, rest: seq<Byte>)
    requires PartlySent(before + first, after, rest)
    ensures PartlySent(before, after, first + rest)
  {
    assert before + (first + rest) == (before + first) + rest;
  }

  class Socket {
    ghost var sent: seq<Byte>
    const answers: nat -> Answer
    var turn: nat
    var closed: bool

    constructor (answers: nat -> Answer)
      ensures sent == [] && !closed && this.answers == answers
    {
      this.answers := answers;
      sent, turn, closed := [], 0, false;
    }

    /** Every answer keeps the io.Writer contract. */
    ghost predicate Honest()
    {
      forall i: nat :: answers(i).Takes?
    }

    method Write(data: seq<Byte>) returns (n: int, failed: bool)
      modifies this`sent, this`turn
      ensures 0 <= n <= |data| ==> sent == old(sent) + data[..n]
      ensures !(0 <= n <= |data|) ==> sent == old(sent)
      ensures Honest() ==> 0 <= n <= |data|
      ensures closed ==> n == 0 && failed && turn == old(turn)
      ensures !closed ==> var a := answers(old(turn));
        && turn == old(turn) + 1 && failed == a.failed
        && (if a.Takes? then n == Min(a.count, |data|) else !(0 <= n <= |data|))
    {
      if closed { return 0, true; }
      var answer := answers(turn);
      turn := turn + 1;
      failed := answer.failed;
      match answer
      case Takes(count, _) =>
        n := Min(count, |data|);
        sent := sent + data[..n];
      case Misreports(claim, _) =>
        n := if claim < 0 then claim else |data| + 1 + claim;
    }

    /** Resetting a stream: every later write fails without sending anything. */
    method Reset()
      modifies this`closed
      ensures closed
    {
      closed := true;
    }
  }

  datatype WriteResult = Written | InvalidCount | WriteError | ShortWrite

  /** The error that the last answer stands for. */
  ghost function Refusal(w: Socket): WriteResult
    reads w
  {
    if w.closed || w.turn == 0 then WriteError
    else
      var last := w.answers(w.turn - 1);
      if last.Misreports? then InvalidCount else if last.failed then WriteError else ShortWrite
  }

  /** reqresp's writeFull: all of the payload, or an error after some part of it. */
  method WriteFull(w: Socket, payload: seq<Byte>) returns (r: WriteResult)
    modifies w`sent, w`turn
    ensures r == Written ==> w.sent == old(w.sent) + payload
    ensures r != Written ==> PartlySent(old(w.sent), w.sent, payload)
    ensures w.closed && payload != [] ==> r != Written && w.sent == old(w.sent)
    ensures old(w.turn) <= w.turn
    ensures !w.closed ==> (r == Written <==> AllGood(w.answers, old(w.turn), w.turn))
    ensures r != Written ==> r == Refusal(w)
  {
    var rest := payload;
    ghost var done := 0;
    while |rest| > 0
      invariant 0 <= done <= |payload| && rest == payload[done..]
      invariant w.sent == old(w.sent) + payload[..done]
      invariant w.closed ==> done == 0
      invariant old(w.turn) <= w.turn
      invariant !w.closed ==> AllGood(w.answers, old(w.turn), w.turn)
      decreases |rest|
    {
      var n, failed := w.Write(rest);
      if n < 0 || n > |rest| { return InvalidCount; }
      assert payload[..done] + rest[..n] == payload[..done + n];
      done := done + n;
      rest := rest[n..];
      if failed { return WriteError; }
      if n == 0 { return ShortWrite; }
    }
    assert payload[..done] == payload;
    return Written;
  }

  /** rlpx's write loop: it trusts the count, so it needs an honest socket. */
  method WriteAll(w: Socket, out: seq<Byte>) returns (r: WriteResult)
    requires w.Honest()
    modifies w`sent, w`turn
    ensures r == Written ==> w.sent == old(w.sent) + out
    ensures r != Written ==> PartlySent(old(w.sent), w.sent, out)
    ensures old(w.turn) <= w.turn
    ensures !w.closed ==> (r == Written <==> AllGood(w.answers, old(w.turn), w.turn))
    ensures r != Written ==> r == Refusal(w)
  {
    var rest := out;
    ghost var done := 0;
    while |rest| != 0
      invariant 0 <= done <= |out| && rest == out[done..]
      invariant w.sent == old(w.sent) + out[..done]
      invariant old(w.turn) <= w.turn
      invariant !w.closed ==> AllGood(w.answers, old(w.turn), w.turn)
      decreases |rest|
    {
      var n, failed := w.Write(rest);
      assert out[..done] + rest[..n] == out[..done + n];
      done := done + n;
      if failed { return WriteError; }
      if n == 0 { return ShortWrite; }
      rest := rest[n..];
    }
    assert out[..done] == out;
    return Written;
  }
}
