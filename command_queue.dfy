/**
 * The command queue shared by the LD6001A and LD6001B components: commands
 * wait in FIFO order, one at a time is sent and stays at the head until the
 * sensor answers or 5000 ms pass, and the answer goes to that command's
 * callback. The millisecond clock is the `now` parameter of each call, and
 * what the queue does to the outside (a line handed to the sender, a
 * callback invoked) is recorded in an effect log.
 */
module CommandQueues {
  import opened Bytes
  import opened Wrappers
  import opened Commands

  /** What the queue does outside itself. */
  datatype Effect =
    | Sent(data: seq<byte>)
    | Responded(callback: Callback, response: seq<byte>)

  const ACK_TIMEOUT_MS: nat := 5000

  /**
   * The timeout test as written: `waiting + 5000 < now` on `uint32`, where
   * the sum wraps around.
   */
  predicate TimedOutAsWritten(waiting: uint32, now: uint32)
  {
    waiting != 0 && (waiting + ACK_TIMEOUT_MS) % TWO_32 < now
  }

  /** The timeout test on the elapsed time, which survives the wrap of both the sum and the clock. */
  predicate TimedOut(waiting: uint32, now: uint32)
  {
    waiting != 0 && (now - waiting) % TWO_32 > ACK_TIMEOUT_MS
  }

  /** Away from the wrap, the two tests agree. */
  lemma TimeoutTestsAgree(waiting: uint32, now: uint32)
    requires waiting + ACK_TIMEOUT_MS < TWO_32 && waiting <= now
    ensures TimedOutAsWritten(waiting, now) <==> TimedOut(waiting, now)
  {
  }

  /** As written, a command sent at 0xFFFFF000 times out one millisecond later. */
  lemma SpuriousTimeoutAsWritten()
    ensures TimedOutAsWritten(0xFFFF_F000, 0xFFFF_F001)
    ensures !TimedOut(0xFFFF_F000, 0xFFFF_F001)
  {
  }

  /**
   * As written, a command sent at 0xFFFF0000 whose answer never comes is
   * still awaited 75536 ms later, once the clock has wrapped to 10000.
   */
  lemma MissedTimeoutAsWritten()
    ensures !TimedOutAsWritten(0xFFFF_0000, 10000)
    ensures TimedOut(0xFFFF_0000, 10000)
  {
  }

  /** The time elapsed since `waiting`, counted as the 32-bit clock counts it. */
  lemma TimedOutMeansElapsed(waiting: uint32, now: uint32, elapsed: nat)
    requires waiting != 0 && elapsed < TWO_32 && (waiting + elapsed) % TWO_32 == now
    ensures TimedOut(waiting, now) <==> elapsed > ACK_TIMEOUT_MS
  {
    assert (now - waiting) % TWO_32 == elapsed;
  }

  /**
   * The queue's state: the waiting commands, head first; the time the head
   * was sent, 0 when none is awaited; and the effects so far.
   */
  datatype QueueState = QueueState(queue: seq<Command>, waiting: uint32, effects: seq<Effect>)

  /** A command awaited for an answer is still in the queue. */
  predicate InFlightQueued(s: QueueState)
  {
    s.waiting != 0 ==> |s.queue| > 0
  }

  /**
   * `trySendNext`: forget an answer that timed out, then, when nothing is
   * awaited, send the head and remember the time.
   */
  function TrySendNextOf(s: QueueState, now: uint32, hasSender: bool): QueueState
  {
    var waiting := if TimedOut(s.waiting, now) then 0 else s.waiting;
    if waiting == 0 && |s.queue| > 0 && hasSender
    then QueueState(s.queue, now, s.effects + [Sent(s.queue[0].data)])
    else s.(waiting := waiting)
  }

  /** `enqueue`: append the command, then try to send. */
  function EnqueueOf(s: QueueState, cmd: Command, now: uint32, hasSender: bool): QueueState
  {
    TrySendNextOf(s.(queue := s.queue + [cmd]), now, hasSender)
  }

  /** `send`: hand the line to the sender, bypassing the queue. */
  function SendOf(s: QueueState, cmd: Command, hasSender: bool): QueueState
  {
    if hasSender then s.(effects := s.effects + [Sent(cmd.data)]) else s
  }

  /** The callback effect of answering `cmd`, if it has a callback. */
  function CallbackEffects(cmd: Command, response: seq<byte>): seq<Effect>
  {
    if cmd.onResponse.Some? then [Responded(cmd.onResponse.value, response)] else []
  }

  /**
   * `handleResponse`: with a command awaited, give the answer to its
   * callback, drop it and try to send the next; otherwise ignore the answer.
   */
  function HandleResponseOf(s: QueueState, response: seq<byte>, now: uint32, hasSender: bool): QueueState
  {
    if s.waiting == 0 || |s.queue| == 0 then s
    else TrySendNextOf(QueueState(s.queue[1..], 0, s.effects + CallbackEffects(s.queue[0], response)), now, hasSender)
  }

  /** Trying to send never changes the queue and adds at most the head's line. */
  lemma TrySendNextSendsHeadOnly(s: QueueState, now: uint32, hasSender: bool)
    ensures var r := TrySendNextOf(s, now, hasSender);
      && r.queue == s.queue
      && (r.effects == s.effects || (|s.queue| > 0 && r.effects == s.effects + [Sent(s.queue[0].data)]))
  {
  }

  /** With nothing awaited, the head goes out now. */
  lemma SendsHeadWhenIdle(s: QueueState, now: uint32)
    requires s.waiting == 0 && |s.queue| > 0
    ensures var r := TrySendNextOf(s, now, true);
      r.effects == s.effects + [Sent(s.queue[0].data)] && r.waiting == now
  {
  }

  /** While an answer is awaited and has not timed out, nothing is sent and nothing changes. */
  lemma SingleInFlight(s: QueueState, now: uint32, hasSender: bool)
    requires s.waiting != 0 && !TimedOut(s.waiting, now)
    ensures TrySendNextOf(s, now, hasSender) == s
  {
  }

  /** A command whose answer timed out is sent again: it is still the head. */
  lemma TimeoutResends(s: QueueState, now: uint32)
    requires InFlightQueued(s) && TimedOut(s.waiting, now)
    ensures var r := TrySendNextOf(s, now, true);
      r.queue == s.queue && r.effects == s.effects + [Sent(s.queue[0].data)] && r.waiting == now
  {
  }

  /** Without a sender nothing is ever sent and no answer is awaited. */
  lemma NoSenderNoSend(s: QueueState, now: uint32)
    requires s.waiting == 0
    ensures TrySendNextOf(s, now, false) == s
  {
  }

  /** A queued command lands at the back; the ones ahead keep their order. */
  lemma EnqueueAppends(s: QueueState, cmd: Command, now: uint32, hasSender: bool)
    ensures var r := EnqueueOf(s, cmd, now, hasSender);
      r.queue == s.queue + [cmd] && r.queue[..|s.queue|] == s.queue
  {
  }

  /** Enqueuing on an idle queue sends the new command at once. */
  lemma EnqueueOnIdleSends(s: QueueState, cmd: Command, now: uint32)
    requires s.waiting == 0 && s.queue == []
    ensures EnqueueOf(s, cmd, now, true).effects == s.effects + [Sent(cmd.data)]
  {
  }

  /** An answer with nothing awaited is dropped and calls no callback. */
  lemma HandleResponseIgnored(s: QueueState, response: seq<byte>, now: uint32, hasSender: bool)
    requires s.waiting == 0 || s.queue == []
    ensures HandleResponseOf(s, response, now, hasSender) == s
  {
  }

  /**
   * An awaited answer goes to the head's callback, the head leaves the queue
   * and the next command, if any, is sent.
   */
  lemma HandleResponsePopsOne(s: QueueState, response: seq<byte>, now: uint32)
    requires s.waiting != 0 && |s.queue| > 0
    ensures var r := HandleResponseOf(s, response, now, true);
      && r.queue == s.queue[1..]
      && r.effects == s.effects + CallbackEffects(s.queue[0], response)
           + (if |s.queue| > 1 then [Sent(s.queue[1].data)] else [])
      && (r.waiting == 0 <==> |s.queue| == 1 || now == 0)
  {
  }

  /** `send` leaves the queue and the awaited answer alone. */
  lemma SendBypasses(s: QueueState, cmd: Command, hasSender: bool)
    ensures var r := SendOf(s, cmd, hasSender);
      r.queue == s.queue && r.waiting == s.waiting
      && r.effects == s.effects + (if hasSender then [Sent(cmd.data)] else [])
  {
  }

  /** Every operation keeps an awaited command in the queue. */
  lemma OperationsKeepInFlightQueued(s: QueueState, cmd: Command, response: seq<byte>, now: uint32, hasSender: bool)
    requires InFlightQueued(s)
    ensures InFlightQueued(TrySendNextOf(s, now, hasSender))
    ensures InFlightQueued(EnqueueOf(s, cmd, now, hasSender))
    ensures InFlightQueued(SendOf(s, cmd, hasSender))
    ensures InFlightQueued(HandleResponseOf(s, response, now, hasSender))
  {
  }

  /**
   * A command sent when the clock reads 0 is recorded as sent at 0, which
   * the queue reads as "nothing awaited": the next call sends it again.
   */
  lemma ZeroTimeSendsTwice(s: QueueState, later: uint32)
    requires s.waiting == 0 && |s.queue| > 0
    ensures var once := TrySendNextOf(s, 0, true);
      && once.waiting == 0
      && TrySendNextOf(once, later, true).effects == s.effects + [Sent(s.queue[0].data), Sent(s.queue[0].data)]
  {
  }

  /** The queue as an object whose methods update it in place. */
  class CommandQueue {
    var queue: seq<Command>
    var waitingForAck: uint32
    var effects: seq<Effect>
    const hasSender: bool

    function State(): QueueState
      reads this
    {
      QueueState(queue, waitingForAck, effects)
    }

    constructor (hasSender: bool)
      ensures State() == QueueState([], 0, []) && this.hasSender == hasSender
    {
      queue := [];
      waitingForAck := 0;
      effects := [];
      this.hasSender := hasSender;
    }

    method Enqueue(cmd: Command, now: uint32)
      modifies this
      ensures State() == EnqueueOf(old(State()), cmd, now, hasSender)
    {
      queue := queue + [cmd];
      TrySendNext(now);
    }

    method Send(cmd: Command)
      modifies this
      ensures State() == SendOf(old(State()), cmd, hasSender)
    {
      if hasSender {
        effects := effects + [Sent(cmd.data)];
      }
    }

    method Loop(now: uint32)
      modifies this
      ensures State() == TrySendNextOf(old(State()), now, hasSender)
    {
      TrySendNext(now);
    }

    method HandleResponse(response: seq<byte>, now: uint32)
      modifies this
      ensures State() == HandleResponseOf(old(State()), response, now, hasSender)
    {
      if waitingForAck == 0 || |queue| == 0 {
        return;
      }
      var cmd := queue[0];
      if cmd.onResponse.Some? {
        effects := effects + [Responded(cmd.onResponse.value, response)];
      }
      queue := queue[1..];
      waitingForAck := 0;
      TrySendNext(now);
    }

    method TrySendNext(now: uint32)
      modifies this
      ensures State() == TrySendNextOf(old(State()), now, hasSender)
    {
      if waitingForAck != 0 && (now - waitingForAck) % TWO_32 > ACK_TIMEOUT_MS {
        waitingForAck := 0;
      }
      if waitingForAck == 0 && |queue| > 0 && hasSender {
        effects := effects + [Sent(queue[0].data)];
        waitingForAck := now;
      }
    }
  }
}
