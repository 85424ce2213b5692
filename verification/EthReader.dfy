/**
 * The ETH connection's background reader and its consumers: a bounded queue, fail-fast overflow and a one-shot close.
 */
module EthReader {
  import opened Base

  const DISC_MSG: nat := 0x01
  const PING_MSG: nat := 0x02
  const PONG_MSG: nat := 0x03
  const QUEUE_CAPACITY: nat := 256

  datatype Message = Message(code: nat, data: seq<Byte>)

  datatype ReadError = ReadFailed | PongFailed | QueueFull

  /**
   * Where the reader goroutine stands: waiting for the wire, holding a message it has read, about to close the socket,
   * about to run the deferred close of `dead`, or gone.
   */
  datatype Phase = Reading | Handling(msg: Message) | Closing | Leaving | Gone

  /** One atomic step of the reader, or of anyone else who uses the connection. */
  datatype Event =
    | ReadFails
    | Reads(msg: Message)
    | Handle(reason: string, pongOk: bool)
    | CloseSocket
    | CloseDead
    | Receive
    | Fails
    | UserClose

  predicate Control(m: Message)
  {
    m.code == DISC_MSG || m.code == PING_MSG || m.code == PONG_MSG
  }

  /** The shared fields of the connection; `dead` counts how often the channel has been closed. */
  datatype State = State(
    phase: Phase, queue: seq<Message>, readErr: Option<ReadError>, discReason: string, dead: nat, socketClosed: bool)

  /** What ReadMsg and WaitForMsg report when their select takes the arm of `dead`. */
  datatype Failure = FromError(e: ReadError) | Disconnected(reason: string)

  function ReadFailure(s: State): Failure
  {
    match s.readErr
    case Some(e) => FromError(e)
    case None => Disconnected(s.discReason)
  }

  /** One such report, with the messages that were waiting in the queue at that moment. */
  datatype Report = Report(failure: Failure, waiting: seq<Message>)

  /** What an observer of a whole run has seen; `farewell` is the reason decoded from a Disconnect. */
  datatype History = History(
    read: seq<Message>, handed: seq<Message>, pongs: nat, reports: seq<Report>, farewell: string)
  {
    predicate EndsWith(m: Message) { read != [] && read[|read| - 1] == m }
    function Last(): seq<Message> { if read == [] then [] else [read[|read| - 1]] }
  }

  const INITIAL := State(Reading, [], None, "", 0, false)

  const UNSEEN := History([], [], 0, [], "")

  /** setReadError: only the first error is kept. */
  function WithError(s: State, e: ReadError): State
  {
    if s.readErr.None? then s.(readErr := Some(e)) else s
  }

  /** The deferred close, which tolerates an already closed channel. */
  function Finish(s: State): State
  {
    if s.dead > 0 then s else s.(dead := s.dead + 1)
  }

  /** setDisconnectReason: the first non-empty reason is kept. */
  function WithReason(s: State, reason: string): State
  {
    if reason != "" && s.discReason == "" then s.(discReason := reason) else s
  }

  /** The switch on the code of a message that has been read; queueing it or finding the queue full is one step. */
  function HandleStep(s: State, msg: Message, reason: string, pongOk: bool): State
  {
    if msg.code == DISC_MSG then WithReason(s, reason).(phase := Leaving)
    else if msg.code == PING_MSG then
      if pongOk then s.(phase := Reading) else WithError(s, PongFailed).(phase := Closing)
    else if msg.code == PONG_MSG then s.(phase := Reading)
    else if |s.queue| < QUEUE_CAPACITY then s.(queue := s.queue + [msg], phase := Reading)
    else WithError(s, QueueFull).(phase := Closing)
  }

  /**
   * The reader follows its program. A consumer can receive while the queue is not empty and fail once `dead` is closed;
   * with both possible, select takes either. Anyone may close the socket.
   */
  predicate Enabled(s: State, ev: Event)
  {
    match ev
    case ReadFails | Reads(_) => s.phase.Reading?
    case Handle(_, _) => s.phase.Handling?
    case CloseSocket => s.phase.Closing?
    case CloseDead => s.phase.Leaving?
    case Receive => s.queue != []
    case Fails => s.dead > 0
    case UserClose => true
  }

  function Step(s: State, ev: Event): State
    requires Enabled(s, ev)
  {
    match ev
    case ReadFails => WithError(s, ReadFailed).(phase := Leaving)
    case Reads(msg) => s.(phase := Handling(msg))
    case Handle(reason, pongOk) => HandleStep(s, s.phase.msg, reason, pongOk)
    case CloseSocket => s.(socketClosed := true, phase := Leaving)
    case CloseDead => Finish(s).(phase := Gone)
    case Receive => s.(queue := s.queue[1..])
    case Fails => s
    case UserClose => s.(socketClosed := true)
  }

  function Observe(h: History, s: State, ev: Event): History
    requires Enabled(s, ev)
  {
    match ev
    case Receive => h.(handed := h.handed + [s.queue[0]])
    case Fails => h.(reports := h.reports + [Report(ReadFailure(s), s.queue)])
    case Reads(msg) => h.(read := h.read + [msg])
    case Handle(reason, pongOk) =>
      if s.phase.msg.code == PING_MSG && pongOk then h.(pongs := h.pongs + 1)
      else if s.phase.msg.code == DISC_MSG then h.(farewell := reason)
      else h
    case _ => h
  }

  /** Any interleaving of the reader's steps with those of others, from a fresh connection. */
  ghost predicate Run(states: seq<State>, histories: seq<History>, events: seq<Event>)
  {
    && |states| == |histories| == |events| + 1
    && states[0] == INITIAL && histories[0] == UNSEEN
    && forall i :: 0 <= i < |events| ==>
         && Enabled(states[i], events[i])
         && states[i + 1] == Step(states[i], events[i])
         && histories[i + 1] == Observe(histories[i], states[i], events[i])
  }

  /** The messages that consumers are meant to see. */
  function Data(read: seq<Message>): seq<Message>
  {
    if read == [] then []
    else
      var front, last := Data(read[..|read| - 1]), read[|read| - 1];
      if Control(last) then front else front + [last]
  }

  function Pings(read: seq<Message>): nat
  {
    if read == [] then 0
    else Pings(read[..|read| - 1]) + if read[|read| - 1].code == PING_MSG then 1 else 0
  }

  /** Data is everything but Disconnect, Ping and Pong, whose codes are 1, 2 and 3. */
  lemma {:induction false} DataMeans(read: seq<Message>, m: Message)
    ensures m in Data(read) <==> m in read && m.code != 1 && m.code != 2 && m.code != 3
  {
    if read != [] {
      var n := |read| - 1;
      DataMeans(read[..n], m);
      assert read == read[..n] + [read[n]];
    }
  }

  lemma {:induction false} ReadOneMore(read: seq<Message>, m: Message)
    ensures Data(read + [m]) == if Control(m) then Data(read) else Data(read) + [m]
    ensures Pings(read + [m]) == Pings(read) + if m.code == PING_MSG then 1 else 0
  {
    assert (read + [m])[..|read|] == read;
  }

  /** The reader has left its loop. */
  predicate Over(s: State) { s.phase.Closing? || s.phase.Leaving? || s.phase.Gone? }

  /** The last message read is data that is not queued: the reader still holds it, or has dropped it. */
  predicate Unqueued(s: State)
  {
    s.readErr == Some(QueueFull) || (s.phase.Handling? && !Control(s.phase.msg))
  }

  function Withheld(s: State, h: History): seq<Message>
  {
    if Unqueued(s) then h.Last() else []
  }

  /** A ping that has been read but not answered. */
  predicate PingOpen(s: State)
  {
    s.readErr == Some(PongFailed) || (s.phase.Handling? && s.phase.msg.code == PING_MSG)
  }

  /** Consumers are told of a failure only after death, and always of the same one. */
  ghost predicate Told(s: State, reports: seq<Report>)
  {
    (reports != [] ==> s.dead > 0) && forall r :: r in reports ==> r.failure == ReadFailure(s)
  }

  /** Conservation of data messages and of pings. */
  ghost predicate Counted(s: State, h: History)
  {
    && Data(h.read) == h.handed + s.queue + Withheld(s, h)
    && Pings(h.read) == h.pongs + (if PingOpen(s) then 1 else 0)
  }

  /** What the program position, and each way of ending, say about the rest. */
  ghost predicate Placed(s: State, h: History)
  {
    && |s.queue| <= QUEUE_CAPACITY
    && s.dead == (if s.phase.Gone? then 1 else 0)
    && (s.phase.Handling? ==> h.EndsWith(s.phase.msg))
    && (!Over(s) ==> s.readErr.None? && s.discReason == "")
    && (s.readErr == Some(QueueFull) ==> h.read != [] && !Control(h.read[|h.read| - 1]))
    && (s.readErr == Some(PongFailed) ==> h.read != [] && h.read[|h.read| - 1].code == PING_MSG)
    && (Over(s) && s.readErr.None? ==> h.read != [] && h.read[|h.read| - 1].code == DISC_MSG)
    && s.discReason == h.farewell && (s.discReason != "" ==> s.readErr.None?)
    && (s.phase.Closing? ==> s.readErr == Some(QueueFull) || s.readErr == Some(PongFailed))
    && (s.phase.Leaving? || s.phase.Gone? ==>
          s.readErr == Some(QueueFull) || s.readErr == Some(PongFailed) ==> s.socketClosed)
    && (forall k :: 0 <= k < |h.read| && h.read[k].code == DISC_MSG ==>
          k == |h.read| - 1 && s.readErr.None? && !s.phase.Reading?)
    && Told(s, h.reports)
  }

  ghost predicate Inv(s: State, h: History)
  {
    Counted(s, h) && Placed(s, h)
  }

  lemma {:induction false} ReceiveCounts(s: State, h: History)
    requires Counted(s, h) && s.queue != []
    ensures Counted(Step(s, Receive), Observe(h, s, Receive))
  {
    assert h.handed + s.queue == (h.handed + [s.queue[0]]) + s.queue[1..];
  }

  lemma {:induction false} ReadsCounts(s: State, h: History, m: Message)
    requires Inv(s, h) && s.phase.Reading?
    ensures Counted(Step(s, Reads(m)), Observe(h, s, Reads(m)))
  {
    ReadOneMore(h.read, m);
    assert Observe(h, s, Reads(m)).Last() == [m];
    assert h.handed + s.queue + [] == h.handed + s.queue;
  }

  lemma {:induction false} HandleCounts(s: State, h: History, reason: string, pongOk: bool)
    requires Inv(s, h) && s.phase.Handling?
    ensures Counted(Step(s, Handle(reason, pongOk)), Observe(h, s, Handle(reason, pongOk)))
  {
    var m := s.phase.msg;
    assert h.Last() == [m];
    if !Control(m) && |s.queue| < QUEUE_CAPACITY {
      assert h.handed + s.queue + [m] == h.handed + (s.queue + [m]) + [];
    }
  }

  lemma {:induction false} StepCounts(s: State, h: History, ev: Event)
    requires Inv(s, h) && Enabled(s, ev)
    ensures Counted(Step(s, ev), Observe(h, s, ev))
  {
    match ev
    case Receive => ReceiveCounts(s, h);
    case Reads(m) => ReadsCounts(s, h, m);
    case Handle(reason, pongOk) => HandleCounts(s, h, reason, pongOk);
    case _ => assert Withheld(Step(s, ev), h) == Withheld(s, h);
  }

  lemma {:induction false} StepPlaces(s: State, h: History, ev: Event)
    requires Placed(s, h) && Enabled(s, ev)
    ensures Placed(Step(s, ev), Observe(h, s, ev))
  {
    match ev
    case Reads(m) => assert Observe(h, s, ev).EndsWith(m);
    case _ =>
  }

  lemma {:induction false} StepKeepsInv(s: State, h: History, ev: Event)
    requires Inv(s, h) && Enabled(s, ev)
    ensures Inv(Step(s, ev), Observe(h, s, ev))
  {
    StepCounts(s, h, ev);
    StepPlaces(s, h, ev);
  }

  /** In every interleaving the invariant holds at every moment. */
  lemma {:induction false} RunKeepsInv(states: seq<State>, histories: seq<History>, events: seq<Event>, i: nat)
    requires Run(states, histories, events) && i <= |events|
    ensures Inv(states[i], histories[i])
  {
    if i > 0 {
      RunKeepsInv(states, histories, events, i - 1);
      StepKeepsInv(states[i - 1], histories[i - 1], events[i - 1]);
    }
  }

  /**
   * Conservation: messages handed out, then those queued, are the data messages read, in order, except for the last one
   * while the reader still holds it, or for good when the recorded error is the full queue.
   */
  lemma {:induction false} ReaderConserves(states: seq<State>, histories: seq<History>, events: seq<Event>, i: nat)
    requires Run(states, histories, events) && i <= |events|
    ensures var s, h := states[i], histories[i];
      if Unqueued(s)
      then h.read != [] && Data(h.read) == h.handed + s.queue + [h.read[|h.read| - 1]]
      else Data(h.read) == h.handed + s.queue
  {
    RunKeepsInv(states, histories, events, i);
    assert histories[i].handed + states[i].queue + [] == histories[i].handed + states[i].queue;
  }

  /** Every ping is answered once, unless that very write failed, and then the reader has left its loop. */
  lemma {:induction false} PingsAnswered(states: seq<State>, histories: seq<History>, events: seq<Event>, i: nat)
    requires Run(states, histories, events) && i <= |events|
    ensures var s, h := states[i], histories[i];
      Pings(h.read) == h.pongs + (if PingOpen(s) then 1 else 0) && (s.readErr == Some(PongFailed) ==> Over(s))
  {
    RunKeepsInv(states, histories, events, i);
  }

  /** The full queue is recorded only with 256 messages in the queue, and more are never queued. */
  lemma {:induction false} OverflowAtCapacity(states: seq<State>, histories: seq<History>, events: seq<Event>, i: nat)
    requires Run(states, histories, events) && i < |events|
    ensures |states[i].queue| <= 256
    ensures states[i].readErr != Some(QueueFull) && states[i + 1].readErr == Some(QueueFull) ==>
      |states[i].queue| == 256 && states[i + 1].queue == states[i].queue
  {
    RunKeepsInv(states, histories, events, i);
    assert Enabled(states[i], events[i]);
  }

  /**
   * Once the reader has left its loop: nothing more is read or queued, so consumers only drain, and the error and the
   * reason that they will be told are fixed before `dead` is closed, which happens at most once.
   */
  lemma {:induction false} OverIsFinal(states: seq<State>, histories: seq<History>, events: seq<Event>, i: nat, j: nat)
    requires Run(states, histories, events) && i <= j <= |events| && Over(states[i])
    ensures Over(states[j]) && states[i].dead <= states[j].dead <= 1
    ensures ReadFailure(states[j]) == ReadFailure(states[i])
    ensures histories[j].read == histories[i].read && histories[j].pongs == histories[i].pongs
    ensures histories[j].handed + states[j].queue == histories[i].handed + states[i].queue
    decreases j
  {
    assert states[j].dead <= 1 by { RunKeepsInv(states, histories, events, j); }
    if i < j {
      OverIsFinal(states, histories, events, i, j - 1);
      assert Enabled(states[j - 1], events[j - 1]);
      OverStep(states[j - 1], histories[j - 1], events[j - 1]);
    }
  }

  lemma {:induction false} OverStep(s: State, h: History, ev: Event)
    requires Over(s) && Enabled(s, ev)
    ensures var s', h' := Step(s, ev), Observe(h, s, ev);
      && Over(s') && s.dead <= s'.dead && ReadFailure(s') == ReadFailure(s)
      && h'.read == h.read && h'.pongs == h.pongs && h'.handed + s'.queue == h.handed + s.queue
  {
    if ev.Receive? {
      assert h.handed + s.queue == (h.handed + [s.queue[0]]) + s.queue[1..];
    }
  }

  /** What consumers are told, every time, is how the reader ended. */
  lemma {:induction false} ReportsAreAccurate(
      states: seq<State>, histories: seq<History>, events: seq<Event>, i: nat, r: Report)
    requires Run(states, histories, events) && i <= |events| && r in histories[i].reports
    ensures var s, h := states[i], histories[i];
      && (r.failure.Disconnected? <==> exists k :: 0 <= k < |h.read| && h.read[k].code == 1)
      && (r.failure.Disconnected? ==> r.failure.reason == h.farewell)
      && (r.failure == FromError(QueueFull) <==> Data(h.read) != h.handed + s.queue)
      && (r.failure == FromError(PongFailed) <==> Pings(h.read) != h.pongs)
      && (r.failure == FromError(QueueFull) || r.failure == FromError(PongFailed) ==> s.socketClosed)
  {
    RunKeepsInv(states, histories, events, i);
    var s, h := states[i], histories[i];
    assert |h.handed + s.queue + Withheld(s, h)| == |h.handed + s.queue| + |Withheld(s, h)|;
    assert h.handed + s.queue + [] == h.handed + s.queue;
    assert s.readErr.None? ==> h.read[|h.read| - 1].code == DISC_MSG;
  }

  // Draining before failing.

  /** Every failure that was reported came after the last queued message had been handed out. */
  predicate Drained(h: History)
  {
    forall k :: 0 <= k < |h.reports| ==> h.reports[k].waiting == []
  }

  lemma {:induction false} EmptyStaysDrained(
      states: seq<State>, histories: seq<History>, events: seq<Event>, i: nat, j: nat)
    requires Run(states, histories, events) && i <= j <= |events|
    requires Over(states[i]) && states[i].queue == [] && Drained(histories[i])
    ensures states[j].queue == [] && Drained(histories[j])
    decreases j
  {
    if i < j {
      EmptyStaysDrained(states, histories, events, i, j - 1);
      OverIsFinal(states, histories, events, i, j - 1);
      assert Enabled(states[j - 1], events[j - 1]);
    }
  }

  /** One run goes on where another stops. */
  ghost predicate Continues(
    states: seq<State>, histories: seq<History>, events: seq<Event>,
    states': seq<State>, histories': seq<History>, events': seq<Event>)
  {
    Run(states', histories', events') && states <= states' && histories <= histories' && events <= events'
  }

  /**
   * The exact condition for draining before failing: however the run goes on after `dead` has been closed, no failure
   * is reported ahead of a queued message, if and only if the queue was empty when `dead` was closed.
   */
  lemma {:induction false} DrainBeforeFailureIff(states: seq<State>, histories: seq<History>, events: seq<Event>)
    requires Run(states, histories, events) && events != [] && events[|events| - 1] == CloseDead
    ensures states[|events| - 1].queue == [] <==>
      forall states', histories', events' ::
        Continues(states, histories, events, states', histories', events') ==> Drained(histories'[|events'|])
  {
    var n := |events|;
    RunKeepsInv(states, histories, events, n - 1);
    assert Enabled(states[n - 1], events[n - 1]) && histories[n - 1].reports == [];
    assert states[n] == Step(states[n - 1], CloseDead) && histories[n] == histories[n - 1];
    if states[n].queue == [] {
      forall states', histories', events' | Continues(states, histories, events, states', histories', events')
        ensures Drained(histories'[|events'|])
      {
        assert states'[n] == states[n] && histories'[n] == histories[n];
        EmptyStaysDrained(states', histories', events', n, |events'|);
      }
    } else {
      OvertakenNext(states, histories, events);
    }
  }

  /** With a message waiting behind a closed `dead`, the very next step can be a failure. */
  lemma {:induction false} OvertakenNext(states: seq<State>, histories: seq<History>, events: seq<Event>)
    requires Run(states, histories, events) && states[|events|].dead > 0 && states[|events|].queue != []
    ensures exists states', histories', events' ::
      Continues(states, histories, events, states', histories', events') && !Drained(histories'[|events'|])
  {
    var s, h := states[|events|], histories[|events|];
    var events' := events + [Fails];
    var states' := states + [s];
    var histories' := histories + [Observe(h, s, Fails)];
    assert Run(states', histories', events') by {
      forall i | 0 <= i < |events'|
        ensures Enabled(states'[i], events'[i]) && states'[i + 1] == Step(states'[i], events'[i])
        ensures histories'[i + 1] == Observe(histories'[i], states'[i], events'[i])
      {
        if i < |events| { assert Enabled(states[i], events[i]); }
      }
    }
    assert Continues(states, histories, events, states', histories', events');
    assert histories'[|events'|].reports[|h.reports|].waiting != [];
  }

  /** An instance: reading fails while a message is queued, and a consumer is told so before it gets the message. */
  lemma {:induction false} FailureCanOvertakeMessages()
    ensures exists states: seq<State>, histories: seq<History>, events: seq<Event> ::
      Run(states, histories, events) && !Drained(histories[|events|])
  {
    var m := Message(16, []);
    var h1 := UNSEEN.(read := [m]);
    var s1 := INITIAL.(phase := Handling(m));
    var s2 := INITIAL.(queue := [m]);
    var s3 := s2.(phase := Leaving, readErr := Some(ReadFailed));
    var s4 := s3.(phase := Gone, dead := 1);
    var states, histories := [INITIAL, s1, s2, s3, s4], [UNSEEN, h1, h1, h1, h1];
    var events := [Reads(m), Handle("", true), ReadFails, CloseDead];
    assert Step(INITIAL, events[0]) == s1 && Observe(UNSEEN, INITIAL, events[0]) == h1;
    assert Step(s1, events[1]) == s2 && Observe(h1, s1, events[1]) == h1;
    assert Step(s2, events[2]) == s3 && Observe(h1, s2, events[2]) == h1;
    assert Step(s3, events[3]) == s4 && Observe(h1, s3, events[3]) == h1;
    OvertakenNext(states, histories, events);
    var states', histories', events' :|
      Continues(states, histories, events, states', histories', events') && !Drained(histories'[|events'|]);
  }

  /** The steps that a reader which has left its loop still takes on its own. */
  function Settle(s: State): State
  {
    match s.phase
    case Closing => Step(Step(s, CloseSocket), CloseDead)
    case Leaving => Step(s, CloseDead)
    case _ => s
  }

  /** One turn of the reader's loop when no one else moves; `incoming` is None when reading fails. */
  function Turn(s: State, incoming: Option<Message>, reason: string, pongOk: bool): State
    requires s.phase.Reading?
  {
    match incoming
    case None => Settle(Step(s, ReadFails))
    case Some(m) => Settle(Step(Step(s, Reads(m)), Handle(reason, pongOk)))
  }

  // The connection object.

  class Conn {
    var msgs: seq<Message>
    var readErr: Option<ReadError>
    var discReason: string
    var dead: nat
    var socketClosed: bool

    constructor ()
      ensures Abs(Reading) == INITIAL
    {
      msgs, readErr, discReason, dead, socketClosed := [], None, "", 0, false;
    }

    /** The shared state while the reader stands at `phase`. */
    ghost function Abs(phase: Phase): State
      reads this
    {
      State(phase, msgs, readErr, discReason, dead, socketClosed)
    }

    method SetReadError(e: ReadError)
      modifies this`readErr
      ensures forall p :: Abs(p) == WithError(old(Abs(p)), e)
      ensures readErr == if old(readErr) == None then Some(e) else old(readErr)
    {
      if readErr == None { readErr := Some(e); }
    }

    method SetDisconnectReason(reason: string)
      modifies this`discReason
      ensures forall p :: Abs(p) == WithReason(old(Abs(p)), reason)
      ensures discReason == if old(discReason) == "" then reason else old(discReason)
    {
      if reason == "" { return; }
      if discReason == "" { discReason := reason; }
    }

    method QueueMessage(m: Message) returns (ok: bool)
      modifies this`msgs, this`readErr
      ensures ok == (|old(msgs)| < QUEUE_CAPACITY)
      ensures ok ==> forall p :: Abs(p) == old(Abs(p)).(queue := old(msgs) + [m])
      ensures !ok ==> forall p :: Abs(p) == WithError(old(Abs(p)), QueueFull)
    {
      if |msgs| < QUEUE_CAPACITY {
        msgs := msgs + [m];
        return true;
      }
      SetReadError(QueueFull);
      return false;
    }

    method CloseDead()
      modifies this`dead
      ensures forall p :: Abs(p) == Finish(old(Abs(p)))
      ensures dead == if old(dead) == 0 then 1 else old(dead)
    {
      if dead == 0 { dead := 1; }
    }

    /** One turn of readMessages; `running` tells whether the loop goes on. */
    method ReadOne(incoming: Option<Message>, reason: string, pongOk: bool) returns (running: bool)
      modifies this
      ensures Abs(if running then Reading else Gone) == Turn(old(Abs(Reading)), incoming, reason, pongOk)
    {
      running := true;
      match incoming {
        case None =>
          SetReadError(ReadFailed);
          running := false;
        case Some(m) =>
          if m.code == DISC_MSG {
            SetDisconnectReason(reason);
            running := false;
          } else if m.code == PING_MSG {
            if !pongOk {
              SetReadError(PongFailed);
              socketClosed := true;
              running := false;
            }
          } else if m.code == PONG_MSG {
          } else {
            running := QueueMessage(m);
            if !running { socketClosed := true; }
          }
      }
      if !running { CloseDead(); }
    }

    /** The receive arm of ReadMsg's select. */
    method Receive() returns (m: Message)
      requires msgs != []
      modifies this`msgs
      ensures forall p :: Abs(p) == Step(old(Abs(p)), Event.Receive)
      ensures m == old(msgs)[0] && msgs == old(msgs)[1..]
    {
      m := msgs[0];
      msgs := msgs[1..];
    }

    /**
     * WaitForMsg while messages are queued: it consumes up to and including the first one with the wanted code, or all
     * of them.
     */
    method TakeUntil(want: nat) returns (found: Option<seq<Byte>>, ghost skipped: seq<Message>)
      modifies this`msgs
      ensures forall i :: 0 <= i < |skipped| ==> skipped[i].code != want
      ensures found.None? ==> msgs == [] && skipped == old(msgs)
      ensures found.Some? ==> old(msgs) == skipped + [Message(want, found.value)] + msgs
    {
      ghost var queued := msgs;
      ghost var k := 0;
      assert queued[0..] == queued;
      while msgs != []
        invariant 0 <= k <= |queued| && msgs == queued[k..]
        invariant forall i :: 0 <= i < k ==> queued[i].code != want
        decreases |msgs|
      {
        assert msgs[0] == queued[k];
        var m := Receive();
        if m.code == want {
          skipped := queued[..k];
          assert queued == queued[..k] + [queued[k]] + queued[k + 1..];
          return Some(m.data), skipped;
        }
        k := k + 1;
      }
      assert k == |queued|;
      return None, queued;
    }
  }
}
