/** The in-process channel: three priority queues behind one send and one receive operation. */
module InprocChannels {
  import opened Bytes

  datatype Message = Message(payload: seq<byte>, priority: byte, sequence: u64)

  datatype SendResult = SendOk | Full | SendClosed | SendError
  datatype RecvStatus = RecvOk(message: Message) | Timeout | RecvClosed

  const HEARTBEAT: byte := 0
  const PRIORITIES := 3

  /** Queues from the most to the least urgent: heartbeat, control, data. */
  datatype Channel = Channel(queues: seq<seq<Message>>, nextSequence: u64, closed: bool)

  ghost predicate WellFormed(c: Channel) {
    |c.queues| == PRIORITIES
  }

  predicate Drained(c: Channel) {
    forall q | q in c.queues :: q == []
  }

  /** The first non-empty queue at or behind p. */
  function Urgent(c: Channel, p: nat := 0): (r: Option<nat>)
    requires p <= |c.queues|
    ensures r.Some? ==> p <= r.value < |c.queues| && c.queues[r.value] != []
                        && forall i | p <= i < r.value :: c.queues[i] == []
    ensures r.None? ==> forall i | p <= i < |c.queues| :: c.queues[i] == []
    decreases |c.queues| - p
  {
    if p == |c.queues| then None
    else if c.queues[p] != [] then Some(p)
    else Urgent(c, p + 1)
  }

  function SendStep(c: Channel, m: Message, capacity: nat): (Channel, SendResult) {
    if c.closed then (c, SendClosed)
    else if m.priority >= |c.queues| then (c, SendError)
    else if m.priority != HEARTBEAT && |c.queues[m.priority]| >= capacity then (c, Full)
    else
      var n := (c.nextSequence + 1) % U64;
      (Channel(c.queues[m.priority := c.queues[m.priority] + [m.(sequence := n)]], n, c.closed), SendOk)
  }

  /** Takes the front of the most urgent non-empty queue. */
  function Pick(c: Channel): (Channel, Option<Message>) {
    match Urgent(c)
    case None => (c, None)
    case Some(p) => (c.(queues := c.queues[p := c.queues[p][1..]]), Some(c.queues[p][0]))
  }

  /** A receive that does not have to wait: the most urgent front, or a timeout when every queue is empty. */
  function ReceiveStep(c: Channel): (Channel, RecvStatus) {
    match Pick(c)
    case (after, Some(m)) => (after, RecvOk(m))
    case (after, None) => (after, Timeout)
  }

  class InprocChannel {
    const capacity: nat
    var queues: seq<seq<Message>>
    var nextSequence: u64
    var closed: bool

    ghost function View(): Channel
      reads this
    {
      Channel(queues, nextSequence, closed)
    }

    constructor (capacity: nat)
      ensures this.capacity == capacity && View() == Channel([[], [], []], 0, false)
    {
      this.capacity := capacity;
      queues, nextSequence, closed := [[], [], []], 0, false;
    }

    method SendBase(m: Message) returns (r: SendResult)
      modifies this
      ensures (View(), r) == SendStep(old(View()), m, capacity)
    {
      if closed {
        return SendClosed;
      }
      if m.priority >= |queues| {
        return SendError;
      }
      if m.priority != HEARTBEAT && |queues[m.priority]| >= capacity {
        return Full;
      }
      nextSequence := (nextSequence + 1) % U64;
      queues := queues[m.priority := queues[m.priority] + [m.(sequence := nextSequence)]];
      return SendOk;
    }

    /** Walks the queues from the most urgent one and takes the first front it finds. */
    method PickFront() returns (r: Option<Message>)
      modifies this`queues
      ensures (View(), r) == Pick(old(View()))
    {
      ghost var c := View();
      for p := 0 to |queues|
        invariant queues == old(queues) && Urgent(c) == Urgent(c, p)
      {
        if queues[p] != [] {
          var front := queues[p][0];
          queues := queues[p := queues[p][1..]];
          return Some(front);
        }
      }
      return None;
    }

    /** Receives without waiting, or answers None when it has to wait: nothing is queued in an open channel. */
    method RecvBase(timeout: int) returns (r: Option<RecvStatus>)
      modifies this`queues
      ensures View() == ReceiveStep(old(View())).0
      ensures r == if ReceiveStep(old(View())).1.RecvOk? then Some(ReceiveStep(old(View())).1)
                   else if timeout == 0 then Some(Timeout)
                   else if closed then Some(RecvClosed)
                   else None
    {
      var m := PickFront();
      if m.None? {
        if timeout == 0 {
          return Some(Timeout);
        }
        if closed {
          return Some(RecvClosed);
        }
        return None;
      }
      return Some(RecvOk(m.value));
    }

    /** What a waiting receive does when its wait ends: the wait's condition first, then the code behind the wait. */
    method ResumeAfterWait() returns (r: RecvStatus)
      modifies this`queues
      ensures (View(), r) == ResumeStep(old(View()))
    {
      if !closed {
        var taken := PickFront();
      }
      if closed && |queues| == PRIORITIES && queues[0] == [] && queues[1] == [] && queues[2] == [] {
        return RecvClosed;
      }
      var m := PickFront();
      if m.None? {
        return Timeout;
      }
      return RecvOk(m.value);
    }

    method Close()
      modifies this`closed
      ensures View() == old(View()).(closed := true)
    {
      closed := true;
    }
  }

  /** The wait's condition takes a message of its own unless the channel is closed. */
  function ResumeStep(c: Channel): (Channel, RecvStatus) {
    var woken := if c.closed then c else Pick(c).0;
    if c.closed && |c.queues| == PRIORITIES && c.queues[0] == [] && c.queues[1] == [] && c.queues[2] == [] then
      (woken, RecvClosed)
    else ReceiveStep(woken)
  }

  // ---------- whole runs ----------

  datatype Op = Send(m: Message) | Receive | CloseOp

  /** A channel with everything it ever accepted and delivered, one sequence for each priority. */
  datatype History = History(channel: Channel, accepted: seq<seq<Message>>, delivered: seq<seq<Message>>)

  function Begin(): History {
    History(Channel([[], [], []], 0, false), [[], [], []], [[], [], []])
  }

  function Append(lists: seq<seq<Message>>, p: nat, m: Message): seq<seq<Message>>
    requires p < |lists|
  {
    lists[p := lists[p] + [m]]
  }

  ghost predicate Shaped(h: History) {
    |h.channel.queues| == |h.accepted| == |h.delivered| == PRIORITIES
  }

  function Next(h: History, op: Op, capacity: nat): (r: History)
    requires Shaped(h)
    ensures Shaped(r)
  {
    match op
    case Send(m) =>
      var (c, result) := SendStep(h.channel, m, capacity);
      if result.SendOk? then
        h.(channel := c, accepted := Append(h.accepted, m.priority, m.(sequence := c.nextSequence)))
      else h.(channel := c)
    case Receive =>
      match Urgent(h.channel) {
        case None => h
        case Some(p) => h.(channel := Pick(h.channel).0, delivered := Append(h.delivered, p, h.channel.queues[p][0]))
      }
    case CloseOp => h.(channel := h.channel.(closed := true))
  }

  function Run(ops: seq<Op>, capacity: nat): (h: History)
    ensures Shaped(h)
  {
    if ops == [] then Begin() else Next(Run(ops[..|ops| - 1], capacity), ops[|ops| - 1], capacity)
  }

  /** What was delivered, then what is queued, is what was accepted, in order and for each priority. */
  ghost predicate Conserved(h: History)
    requires Shaped(h)
  {
    forall p | 0 <= p < PRIORITIES :: h.delivered[p] + h.channel.queues[p] == h.accepted[p]
  }

  ghost predicate Bounded(h: History, capacity: nat)
    requires Shaped(h)
  {
    forall p | 1 <= p < PRIORITIES :: |h.channel.queues[p]| <= capacity
  }

  ghost predicate Increasing(ms: seq<Message>) {
    forall i, j | 0 <= i < j < |ms| :: ms[i].sequence < ms[j].sequence
  }

  /** Sequence numbers rise within each priority and never pass the channel's counter. */
  ghost predicate Sequenced(h: History)
    requires Shaped(h)
  {
    forall p | 0 <= p < PRIORITIES ::
      Increasing(h.accepted[p]) && forall m | m in h.accepted[p] :: m.sequence <= h.channel.nextSequence
  }

  lemma NextConserves(h: History, op: Op, capacity: nat)
    requires Shaped(h) && Conserved(h) && Bounded(h, capacity)
    ensures Conserved(Next(h, op, capacity)) && Bounded(Next(h, op, capacity), capacity)
  {
    var h' := Next(h, op, capacity);
    forall p | 0 <= p < PRIORITIES
      ensures h'.delivered[p] + h'.channel.queues[p] == h'.accepted[p]
    {
      assert h.delivered[p] + h.channel.queues[p] == h.accepted[p];
      if op.Receive? && Urgent(h.channel) == Some(p) {
        var q := h.channel.queues[p];
        assert q == [q[0]] + q[1..];
      }
    }
  }

  /**
   Over any run of sends, receives that do not wait and closes: nothing is lost, duplicated or reordered within
   a priority, and only the heartbeat queue can outgrow the capacity.
   */
  lemma {:induction false} RunConserves(ops: seq<Op>, capacity: nat)
    ensures Conserved(Run(ops, capacity)) && Bounded(Run(ops, capacity), capacity)
  {
    if ops != [] {
      RunConserves(ops[..|ops| - 1], capacity);
      NextConserves(Run(ops[..|ops| - 1], capacity), ops[|ops| - 1], capacity);
    }
  }

  /** A message numbered above all before it keeps the numbers rising. */
  lemma AppendIncreasing(ms: seq<Message>, m: Message, n: u64)
    requires Increasing(ms) && forall x | x in ms :: x.sequence <= n
    requires m.sequence == n + 1
    ensures Increasing(ms + [m]) && forall x | x in ms + [m] :: x.sequence <= n + 1
  {
    assert forall i | 0 <= i < |ms| :: ms[i] in ms;
  }

  lemma NextSequences(h: History, op: Op, capacity: nat)
    requires Shaped(h) && Sequenced(h)
    requires h.channel.nextSequence == U64 - 1 ==> Next(h, op, capacity).accepted == h.accepted
    ensures Sequenced(Next(h, op, capacity))
  {
    var h' := Next(h, op, capacity);
    forall p | 0 <= p < PRIORITIES
      ensures Increasing(h'.accepted[p]) && forall m | m in h'.accepted[p] :: m.sequence <= h'.channel.nextSequence
    {
      if h'.accepted != h.accepted {
        var m := op.m.(sequence := h'.channel.nextSequence);
        assert h'.accepted == Append(h.accepted, op.m.priority, m);
        assert |Append(h.accepted, op.m.priority, m)[op.m.priority]| == |h.accepted[op.m.priority]| + 1;
        AppendIncreasing(h.accepted[p], m, h.channel.nextSequence);
      }
    }
  }

  function Total(queues: seq<seq<Message>>): nat {
    if queues == [] then 0 else |queues[0]| + Total(queues[1..])
  }

  lemma {:induction false} TotalOfUpdate(queues: seq<seq<Message>>, p: nat, q: seq<Message>)
    requires p < |queues|
    ensures Total(queues[p := q]) == Total(queues) - |queues[p]| + |q|
  {
    if p == 0 {
      assert queues[0 := q][1..] == queues[1..];
    } else {
      assert queues[p := q][1..] == queues[1..][p - 1 := q];
      TotalOfUpdate(queues[1..], p - 1, q);
    }
  }

  /** The counter counts the accepted messages, modulo 2^64. */
  lemma {:induction false} CounterCounts(ops: seq<Op>, capacity: nat)
    ensures Run(ops, capacity).channel.nextSequence == Total(Run(ops, capacity).accepted) % U64
  {
    if ops == [] {
      assert Total([[], [], []]) == 0;
    } else {
      CounterCounts(ops[..|ops| - 1], capacity);
      hide Run;
      NextCounts(Run(ops[..|ops| - 1], capacity), ops[|ops| - 1], capacity);
    }
  }

  lemma NextCounts(h: History, op: Op, capacity: nat)
    requires Shaped(h) && h.channel.nextSequence == Total(h.accepted) % U64
    ensures var h' := Next(h, op, capacity);
            && h'.channel.nextSequence == Total(h'.accepted) % U64
            && Total(h.accepted) <= Total(h'.accepted) <= Total(h.accepted) + 1
            && (Total(h'.accepted) == Total(h.accepted) ==> h'.accepted == h.accepted)
  {
    hide Total;
    var h' := Next(h, op, capacity);
    if op.Send? && SendStep(h.channel, op.m, capacity).1.SendOk? {
      var p, m := op.m.priority, op.m.(sequence := h'.channel.nextSequence);
      TotalOfUpdate(h.accepted, p, h.accepted[p] + [m]);
    }
  }

  ghost predicate SequencedThroughout(ops: seq<Op>, capacity: nat) {
    forall n | 0 <= n <= |ops| :: Sequenced(Run(ops[..n], capacity))
  }

  lemma SequencedInit(ops: seq<Op>, capacity: nat)
    requires ops != []
    ensures SequencedThroughout(ops, capacity) <==>
              SequencedThroughout(ops[..|ops| - 1], capacity) && Sequenced(Run(ops, capacity))
  {
    hide Sequenced, Run;
    var init := ops[..|ops| - 1];
    assert ops[..|ops|] == ops;
    assert forall n | 0 <= n <= |init| :: init[..n] == ops[..n];
  }

  /** While the counter is 0 no two messages of one priority are in order. */
  lemma NotSequencedAtZero(h: History)
    requires Shaped(h) && h.channel.nextSequence == 0 && Total(h.accepted) > PRIORITIES
    ensures !Sequenced(h)
  {
    var p := SomeLong(h.accepted);
    var ms := h.accepted[p];
    assert ms[0].sequence < ms[1].sequence ==> ms[1].sequence > 0 && ms[1] in ms;
  }

  lemma {:induction false} SomeLong(queues: seq<seq<Message>>) returns (p: nat)
    requires Total(queues) > |queues|
    ensures p < |queues| && |queues[p]| >= 2
  {
    if |queues[0]| >= 2 {
      p := 0;
    } else {
      p := SomeLong(queues[1..]);
      p := p + 1;
    }
  }

  /** A history whose counter counts the accepted messages, and has not wrapped around. */
  ghost predicate Counting(h: History)
    requires Shaped(h)
  {
    h.channel.nextSequence == Total(h.accepted) < U64
  }

  lemma NextSequencesIff(h: History, op: Op, capacity: nat)
    requires Shaped(h) && Sequenced(h) && Counting(h)
    ensures Sequenced(Next(h, op, capacity)) <==> Total(Next(h, op, capacity).accepted) < U64
  {
    NextCounts(h, op, capacity);
    var h' := Next(h, op, capacity);
    hide Sequenced, Next, Total;
    if Total(h'.accepted) < U64 {
      NextSequences(h, op, capacity);
    } else {
      NotSequencedAtZero(h');
    }
  }

  lemma RunStep(ops: seq<Op>, capacity: nat)
    requires ops != []
    ensures Run(ops, capacity) == Next(Run(ops[..|ops| - 1], capacity), ops[|ops| - 1], capacity)
  {
  }

  lemma BeginSequenced(capacity: nat)
    ensures SequencedThroughout([], capacity) && Total(Run([], capacity).accepted) == 0 && Sequenced(Run([], capacity))
  {
  }

  /**
   Within each priority the sequence numbers strictly increase, throughout a run, exactly when fewer than 2^64
   messages are accepted in it.
   */
  lemma {:induction false} RunSequencesIff(ops: seq<Op>, capacity: nat)
    ensures SequencedThroughout(ops, capacity) <==> Total(Run(ops, capacity).accepted) < U64
    ensures SequencedThroughout(ops, capacity) ==> Sequenced(Run(ops, capacity))
  {
    hide SequencedThroughout, Sequenced, Next, Run, Total;
    if ops == [] {
      BeginSequenced(capacity);
    } else {
      var init, last := ops[..|ops| - 1], ops[|ops| - 1];
      var h := Run(init, capacity);
      RunSequencesIff(init, capacity);
      SequencedInit(ops, capacity);
      CounterCounts(init, capacity);
      RunStep(ops, capacity);
      NextCounts(h, last, capacity);
      if Total(h.accepted) < U64 {
        NextSequencesIff(h, last, capacity);
      }
    }
  }

  /** Each delivery is the oldest message of the most urgent queue that holds one; it is the next accepted one there. */
  lemma DeliversMostUrgent(ops: seq<Op>, capacity: nat)
    ensures var h, c := Run(ops, capacity), Run(ops, capacity).channel;
            match ReceiveStep(c).1
            case RecvOk(m) =>
              exists p | 0 <= p < PRIORITIES ::
                && |h.delivered[p]| < |h.accepted[p]| && m == h.accepted[p][|h.delivered[p]|]
                && forall i | 0 <= i < p :: h.delivered[i] == h.accepted[i]
            case _ => forall i | 0 <= i < PRIORITIES :: h.delivered[i] == h.accepted[i]
  {
    var h := Run(ops, capacity);
    RunConserves(ops, capacity);
    hide Run;
    assert forall i | 0 <= i < PRIORITIES :: h.delivered[i] + h.channel.queues[i] == h.accepted[i];
    if Urgent(h.channel).Some? {
      var p := Urgent(h.channel).value;
      assert h.accepted[p][|h.delivered[p]|] == h.channel.queues[p][0];
    }
  }

  // ---------- which sends are accepted ----------

  lemma NextCloses(h: History, op: Op, capacity: nat)
    requires Shaped(h)
    ensures Next(h, op, capacity).channel.closed <==> h.channel.closed || op.CloseOp?
  {
  }

  lemma {:induction false} ClosedIff(ops: seq<Op>, capacity: nat)
    ensures Run(ops, capacity).channel.closed <==> CloseOp in ops
  {
    if ops != [] {
      ClosedIff(ops[..|ops| - 1], capacity);
      NextCloses(Run(ops[..|ops| - 1], capacity), ops[|ops| - 1], capacity);
      hide Next;
      assert ops == ops[..|ops| - 1] + [ops[|ops| - 1]];
    }
  }

  /**
   The result of a send by the history of the channel: a heartbeat is refused only after a close; a message of
   another priority also when its backlog, accepted but not delivered, is exactly the capacity.
   */
  lemma SendByHistory(ops: seq<Op>, m: Message, capacity: nat)
    ensures var h := Run(ops, capacity);
            SendStep(h.channel, m, capacity).1
            == if CloseOp in ops then SendClosed
               else if m.priority >= PRIORITIES then SendError
               else if m.priority != HEARTBEAT
                       && |h.accepted[m.priority]| - |h.delivered[m.priority]| == capacity then Full
               else SendOk
  {
    ClosedIff(ops, capacity);
    RunConserves(ops, capacity);
    hide Run;
    var h := Run(ops, capacity);
    if m.priority < PRIORITIES {
      assert h.delivered[m.priority] + h.channel.queues[m.priority] == h.accepted[m.priority];
    }
  }

  /** The heartbeats sent before the first close, in order, as their senders made them. */
  function HeartbeatsSent(ops: seq<Op>): seq<Message> {
    if ops == [] then []
    else
      var init, last := ops[..|ops| - 1], ops[|ops| - 1];
      if last.Send? && last.m.priority == HEARTBEAT && CloseOp !in init then
        HeartbeatsSent(init) + [Unnumbered(last.m)]
      else HeartbeatsSent(init)
  }

  /** A message without the number the channel gives it. */
  function Unnumbered(m: Message): Message {
    m.(sequence := 0)
  }

  function AllUnnumbered(ms: seq<Message>): seq<Message> {
    seq(|ms|, i requires 0 <= i < |ms| => Unnumbered(ms[i]))
  }

  /** No heartbeat is ever dropped: over any run the accepted heartbeats are all those sent before the first close. */
  lemma {:induction false} HeartbeatsAreAccepted(ops: seq<Op>, capacity: nat)
    ensures AllUnnumbered(Run(ops, capacity).accepted[0]) == HeartbeatsSent(ops)
  {
    if ops != [] {
      var init, last := ops[..|ops| - 1], ops[|ops| - 1];
      HeartbeatsAreAccepted(init, capacity);
      ClosedIff(init, capacity);
      var h := Run(init, capacity);
      assert Run(ops, capacity) == Next(h, last, capacity);
      hide Run;
      if last.Send? && last.m.priority == HEARTBEAT && CloseOp !in init {
        var n := Next(h, last, capacity).channel.nextSequence;
        assert Next(h, last, capacity).accepted[0] == h.accepted[0] + [last.m.(sequence := n)];
        assert AllUnnumbered(h.accepted[0] + [last.m.(sequence := n)])
            == AllUnnumbered(h.accepted[0]) + [Unnumbered(last.m)];
      } else {
        assert Next(h, last, capacity).accepted[0] == h.accepted[0];
      }
    }
  }

  // ---------- the waiting path ----------

  lemma PickTakesOne(c: Channel)
    ensures Total(Pick(c).0.queues) == Total(c.queues) - (if Pick(c).1.Some? then 1 else 0)
  {
    if Urgent(c).Some? {
      var p := Urgent(c).value;
      TotalOfUpdate(c.queues, p, c.queues[p][1..]);
    }
  }

  /**
   A receive that had to wait loses a message exactly when it wakes up in an open channel with a message queued:
   the wait's condition has already taken one, and the code behind the wait takes the next or reports a timeout.
   */
  lemma WaitingReceiveLosesMessageIff(c: Channel)
    requires WellFormed(c)
    ensures var (after, status) := ResumeStep(c);
            Total(after.queues) + (if status.RecvOk? then 1 else 0) == Total(c.queues) <==> c.closed || Drained(c)
  {
    hide Total;
    PickTakesOne(c);
    PickTakesOne(Pick(c).0);
    if c.closed {
      if Drained(c) {
        assert c.queues[0] in c.queues && c.queues[1] in c.queues && c.queues[2] in c.queues;
      }
    } else if Urgent(c).Some? {
      assert c.queues[Urgent(c).value] in c.queues;
    }
  }

  /** All queued messages, the most urgent first and within one priority the oldest first. */
  function Pending(c: Channel): seq<Message>
    requires |c.queues| == PRIORITIES
  {
    c.queues[0] + c.queues[1] + c.queues[2]
  }

  /** A pick takes the first pending message and leaves the others pending in their order. */
  lemma PickTakesFirst(c: Channel)
    requires WellFormed(c)
    ensures var (after, taken) := Pick(c);
            && WellFormed(after) && after.closed == c.closed && after.nextSequence == c.nextSequence
            && if Pending(c) == [] then taken == None && after == c
               else taken == Some(Pending(c)[0]) && Pending(after) == Pending(c)[1..]
  {
    var q := c.queues;
    if Urgent(c).Some? {
      var p := Urgent(c).value;
      assert Pick(c).0.queues == q[p := q[p][1..]];
      if p == 0 {
        assert q[0] + q[1] + q[2] == [q[0][0]] + (q[0][1..] + q[1] + q[2]);
      } else if p == 1 {
        assert q[0] + q[1] + q[2] == [q[1][0]] + ([] + q[1][1..] + q[2]);
      } else {
        assert q[0] + q[1] + q[2] == [q[2][0]] + ([] + [] + q[2][1..]);
      }
    }
  }

  /**
   Every end of a wait. In a closed channel it delivers the first pending message, or reports the close if there is
   none. In an open channel the first pending message is lost: the second is delivered, or a timeout is reported.
   */
  lemma ResumeOutcome(c: Channel)
    requires WellFormed(c)
    ensures var (after, status) := ResumeStep(c);
            && WellFormed(after)
            && var before, left := Pending(c), Pending(after);
               if c.closed then
                 if before == [] then status == RecvClosed && left == []
                 else status == RecvOk(before[0]) && left == before[1..]
               else if |before| <= 1 then status == Timeout && left == []
               else status == RecvOk(before[1]) && left == before[2..]
  {
    PickTakesFirst(c);
    PickTakesFirst(Pick(c).0);
    assert c.queues[0] == [] && c.queues[1] == [] && c.queues[2] == [] <==> Pending(c) == [];
    hide Pick, Pending;
  }
}
