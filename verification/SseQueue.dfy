/** The bounded queue between the broadcasting thread (producer) and one SSE connection (consumer).
    Every access to shared state is one step, and the steps interleave freely. Broadcasts hold the lock of the
    stream, so at most one push to a queue is under way at a time. */
module SseQueue {
  import opened Sequences

  const MAX_ENTRIES: nat := 1024

  /** What a broadcast queues for a notification: never the empty string. */
  function Frame(notification: string): string {
    "event: message\ndata: " + notification + "\n\n"
  }

  /** Different notifications are framed differently, and every frame is one message event. */
  lemma FrameCarriesItsNotification(a: string, b: string)
    ensures Frame(a) == Frame(b) <==> a == b
    ensures "event: message\ndata: " <= Frame(a) && Frame(a)[|Frame(a)| - 2..] == "\n\n"
  {
    var head := "event: message\ndata: ";
    assert Frame(a)[|head|..|Frame(a)| - 2] == a && Frame(b)[|head|..|Frame(b)| - 2] == b;
  }

  /** The producer reads the disconnected flag first and pushes later, under the lock. */
  datatype Producer = Idle | Pushing(data: string)

  /** The consumer tests the flag, waits for the lock and takes a message, then writes it. */
  datatype Consumer = Checking | Waiting | Writing(msg: string) | Stopped(lost: seq<string>)

  /** The shared state, with its history: everything accepted so far, the positions in it that were
      taken by the consumer and that were dropped, and everything written to the client. */
  datatype State = State(
    queue: seq<string>,
    disconnected: bool,
    producer: Producer,
    consumer: Consumer,
    accepted: seq<string>,
    taken: seq<nat>,
    dropped: seq<nat>,
    delivered: seq<string>)

  datatype Event =
    | SinkCall(notification: string)
    | SinkPush
    | ConsumerCheck
    | ConsumerTake
    | ConsumerWrite(ok: bool)
    | Disconnect

  const INITIAL := State([], false, Idle, Checking, [], [], [], [])

  predicate Enabled(s: State, e: Event) {
    match e
    case SinkCall(_) => s.producer.Idle?
    case SinkPush => s.producer.Pushing?
    case ConsumerCheck => s.consumer.Checking?
    case ConsumerTake => s.consumer.Waiting?
    case ConsumerWrite(_) => s.consumer.Writing?
    case Disconnect => true
  }

  /** Position, in everything accepted, of the entry at the front of the queue; never negative in a run. */
  function Front(s: State): int {
    |s.accepted| - |s.queue|
  }

  /** A full queue loses its oldest entry to make room. */
  function Bounded(queue: seq<string>, data: string): seq<string> {
    (if |queue| >= MAX_ENTRIES then queue[1..] else queue) + [data]
  }

  function Push(s: State): State
    requires s.producer.Pushing?
  {
    var full := |s.queue| >= MAX_ENTRIES;
    s.(queue := Bounded(s.queue, s.producer.data),
       accepted := s.accepted + [s.producer.data],
       dropped := if full && Front(s) >= 0 then s.dropped + [Front(s)] else s.dropped,
       producer := Idle)
  }

  function Take(s: State): State {
    if s.queue == [] then s.(consumer := if s.disconnected then Stopped([]) else Checking)
    else s.(queue := s.queue[1..],
            taken := if Front(s) >= 0 then s.taken + [Front(s)] else s.taken,
            consumer := if s.queue[0] == "" then Checking else Writing(s.queue[0]))
  }

  function Next(s: State, e: Event): State {
    if !Enabled(s, e) then s
    else match e
      case SinkCall(notification) => if s.disconnected then s else s.(producer := Pushing(Frame(notification)))
      case SinkPush => Push(s)
      case ConsumerCheck => s.(consumer := if s.disconnected then Stopped([]) else Waiting)
      case ConsumerTake => Take(s)
      case ConsumerWrite(ok) =>
        if ok then s.(delivered := s.delivered + [s.consumer.msg], consumer := Checking)
        else s.(consumer := Stopped([s.consumer.msg]))
      case Disconnect => s.(disconnected := true)
  }

  ghost function Run(es: seq<Event>): State {
    if es == [] then INITIAL else Next(Run(es[..|es| - 1]), es[|es| - 1])
  }

  // ----- the code -----

  class ClientStream {
    var queue: seq<string>
    var disconnected: bool
    var producer: Producer
    var consumer: Consumer
    ghost var accepted: seq<string>
    ghost var taken: seq<nat>
    ghost var dropped: seq<nat>
    ghost var delivered: seq<string>

    ghost function Now(): State
      reads this
    {
      State(queue, disconnected, producer, consumer, accepted, taken, dropped, delivered)
    }

    constructor ()
      ensures Now() == INITIAL
    {
      queue, disconnected, producer, consumer := [], false, Idle, Checking;
      accepted, taken, dropped, delivered := [], [], [], [];
    }

    /** First part of the sink; false tells the broadcaster to forget this client. */
    method CallSink(notification: string) returns (ok: bool)
      requires Enabled(Now(), SinkCall(notification))
      modifies this
      ensures Now() == Next(old(Now()), SinkCall(notification)) && ok == !old(disconnected)
    {
      if disconnected { return false; }
      producer := Pushing(Frame(notification));
      return true;
    }

    /** Second part of the sink, under the queue lock. */
    method PushSink()
      requires Enabled(Now(), SinkPush)
      modifies this
      ensures Now() == Next(old(Now()), SinkPush)
    {
      var data := producer.data;
      if |queue| >= MAX_ENTRIES {
        dropped := if Front(Now()) >= 0 then dropped + [Front(Now())] else dropped;
        queue := queue[1..];
      }
      queue, accepted := queue + [data], accepted + [data];
      producer := Idle;
    }

    method Check()
      requires Enabled(Now(), ConsumerCheck)
      modifies this
      ensures Now() == Next(old(Now()), ConsumerCheck)
    {
      consumer := if disconnected then Stopped([]) else Waiting;
    }

    /** The locked part of the consumer loop, after the wait was notified or timed out. */
    method TakeMessage()
      requires Enabled(Now(), ConsumerTake)
      modifies this
      ensures Now() == Next(old(Now()), ConsumerTake)
    {
      if disconnected && queue == [] {
        consumer := Stopped([]);
        return;
      }
      var msg := "";
      if queue != [] {
        msg := queue[0];
        taken := if Front(Now()) >= 0 then taken + [Front(Now())] else taken;
        queue := queue[1..];
      }
      consumer := if msg != "" then Writing(msg) else Checking;
    }

    method Write(ok: bool)
      requires Enabled(Now(), ConsumerWrite(ok))
      modifies this
      ensures Now() == Next(old(Now()), ConsumerWrite(ok))
    {
      if !ok {
        consumer := Stopped([consumer.msg]);
        return;
      }
      delivered := delivered + [consumer.msg];
      consumer := Checking;
    }

    method Release()
      modifies this
      ensures Now() == Next(old(Now()), Disconnect)
    {
      disconnected := true;
    }
  }

  // ----- the invariant -----

  /** A message taken from the queue but not written: on its way, or lost when the write failed. */
  ghost function InFlight(c: Consumer): seq<string> {
    match c
    case Writing(msg) => [msg]
    case Stopped(lost) => lost
    case _ => []
  }

  ghost predicate QueueIsSuffix(queue: seq<string>, accepted: seq<string>) {
    |queue| <= MAX_ENTRIES && |queue| <= |accepted| && queue == accepted[|accepted| - |queue|..]
  }

  /** Every position before n is in exactly one of the two lists. */
  ghost predicate Partition(a: seq<nat>, b: seq<nat>, n: int) {
    && Selection(a, n)
    && Selection(b, n)
    && |a| + |b| == n
    && forall i: nat :: i < n ==> (i in a) != (i in b)
  }

  /** What was taken is what was written, or is in flight. */
  ghost predicate OutIsTaken(out: seq<string>, accepted: seq<string>, taken: seq<nat>) {
    Selection(taken, |accepted|) && out == At(accepted, taken)
  }

  ghost predicate Inv(s: State) {
    && QueueIsSuffix(s.queue, s.accepted)
    && Partition(s.taken, s.dropped, Front(s))
    && OutIsTaken(s.delivered + InFlight(s.consumer), s.accepted, s.taken)
    && "" !in s.accepted
    && (s.producer.Pushing? ==> s.producer.data != "")
  }

  lemma PartitionGrows(a: seq<nat>, b: seq<nat>, n: nat)
    requires Partition(a, b, n)
    ensures Partition(a + [n], b, n + 1) && Partition(a, b + [n], n + 1)
  {
    assert n !in a && n !in b;
  }

  lemma SuffixAfterPush(queue: seq<string>, accepted: seq<string>, data: string)
    requires QueueIsSuffix(queue, accepted)
    ensures QueueIsSuffix(Bounded(queue, data), accepted + [data])
    ensures |Bounded(queue, data)| == if |queue| >= MAX_ENTRIES then |queue| else |queue| + 1
  {
  }

  lemma SuffixAfterTake(queue: seq<string>, accepted: seq<string>)
    requires QueueIsSuffix(queue, accepted) && queue != []
    ensures QueueIsSuffix(queue[1..], accepted) && accepted[|accepted| - |queue|] == queue[0]
  {
  }

  lemma OutIgnoresLater(out: seq<string>, accepted: seq<string>, taken: seq<nat>, data: string)
    requires OutIsTaken(out, accepted, taken)
    ensures OutIsTaken(out, accepted + [data], taken)
  {
  }

  lemma OutAfterTake(out: seq<string>, accepted: seq<string>, taken: seq<nat>, i: nat)
    requires OutIsTaken(out, accepted, taken) && Selection(taken, i) && i < |accepted|
    ensures OutIsTaken(out + [accepted[i]], accepted, taken + [i])
  {
  }

  lemma PushKeepsInv(s: State)
    requires Inv(s) && s.producer.Pushing?
    ensures Inv(Push(s))
  {
    SuffixAfterPush(s.queue, s.accepted, s.producer.data);
    PartitionGrows(s.taken, s.dropped, Front(s));
    OutIgnoresLater(s.delivered + InFlight(s.consumer), s.accepted, s.taken, s.producer.data);
  }

  lemma TakeKeepsInv(s: State)
    requires Inv(s) && s.consumer.Waiting?
    ensures Inv(Take(s))
  {
    if s.queue == [] {
      assert s.delivered + InFlight(Take(s).consumer) == s.delivered + InFlight(s.consumer);
    } else {
      SuffixAfterTake(s.queue, s.accepted);
      PartitionGrows(s.taken, s.dropped, Front(s));
      OutAfterTake(s.delivered + InFlight(s.consumer), s.accepted, s.taken, Front(s));
      assert s.queue[0] in s.accepted;
      assert s.delivered + InFlight(s.consumer) == s.delivered;
    }
  }

  lemma OtherKeepsInv(s: State, s': State)
    requires Inv(s)
    requires s'.queue == s.queue && s'.accepted == s.accepted && s'.taken == s.taken && s'.dropped == s.dropped
    requires s'.delivered + InFlight(s'.consumer) == s.delivered + InFlight(s.consumer)
    requires s'.producer.Pushing? ==> s'.producer.data != ""
    ensures Inv(s')
  {
  }

  lemma NextKeepsInv(s: State, e: Event)
    requires Inv(s)
    ensures Inv(Next(s, e))
  {
    if Enabled(s, e) {
      match e
      case SinkPush => PushKeepsInv(s);
      case ConsumerTake => TakeKeepsInv(s);
      case _ => OtherKeepsInv(s, Next(s, e));
    }
  }

  lemma {:induction false} RunKeepsInv(es: seq<Event>)
    ensures Inv(Run(es))
  {
    if es == [] {
    } else {
      RunKeepsInv(es[..|es| - 1]);
      NextKeepsInv(Run(es[..|es| - 1]), es[|es| - 1]);
    }
  }

  // ----- what a client sees -----

  /** s is all, in order, with some messages left out. */
  ghost predicate Subsequence(s: seq<string>, all: seq<string>) {
    exists idx :: Selection(idx, |all|) && s == At(all, idx)
  }

  ghost function Range(lo: nat, hi: nat): (r: seq<nat>)
    requires lo <= hi
  {
    seq(hi - lo, k requires 0 <= k < hi - lo => lo + k)
  }

  lemma OutThenQueue(out: seq<string>, queue: seq<string>, accepted: seq<string>, taken: seq<nat>)
    requires QueueIsSuffix(queue, accepted) && OutIsTaken(out, accepted, taken)
    requires Selection(taken, |accepted| - |queue|)
    ensures Subsequence(out + queue, accepted)
  {
    var idx := taken + Range(|accepted| - |queue|, |accepted|);
    assert Selection(idx, |accepted|);
    assert out + queue == At(accepted, idx);
  }

  /** Under any interleaving: the queue holds at most 1024 entries and is exactly the newest part of what was
      accepted; what was written, what is in flight and what is queued form an order-preserving subsequence of
      it; and every accepted message was written, is in flight, was dropped or is queued. */
  lemma ClientSeesNewestInOrder(es: seq<Event>)
    ensures var s := Run(es); var out := s.delivered + InFlight(s.consumer);
            && |s.queue| <= 1024
            && |s.queue| <= |s.accepted| && s.queue == s.accepted[|s.accepted| - |s.queue|..]
            && Subsequence(out + s.queue, s.accepted)
            && |s.accepted| == |out| + |s.dropped| + |s.queue|
  {
    RunKeepsInv(es);
    var s := Run(es);
    OutThenQueue(s.delivered + InFlight(s.consumer), s.queue, s.accepted, s.taken);
  }

  /** Messages accepted but not yet taken. */
  ghost function Backlog(s: State): int {
    |s.accepted| - |s.taken|
  }

  lemma StepDropsIffBacklogExceeds(s: State, e: Event)
    requires Inv(s) && s.dropped == []
    ensures Next(s, e).dropped == [] <==> Backlog(Next(s, e)) <= MAX_ENTRIES
  {
    NextKeepsInv(s, e);
  }

  lemma DroppedStays(s: State, e: Event)
    ensures s.dropped <= Next(s, e).dropped
  {
  }

  /** At no point of the run are more than 1024 accepted messages waiting to be taken. */
  ghost predicate BacklogStaysSmall(es: seq<Event>) {
    Backlog(Run(es)) <= 1024 && (es != [] ==> BacklogStaysSmall(es[..|es| - 1]))
  }

  /** Nothing is ever dropped if and only if the backlog never exceeded 1024. */
  lemma {:induction false} NoDropsIffSmallBacklog(es: seq<Event>)
    ensures Run(es).dropped == [] <==> BacklogStaysSmall(es)
  {
    if es == [] {
    } else {
      var front, e := es[..|es| - 1], es[|es| - 1];
      NoDropsIffSmallBacklog(front);
      RunKeepsInv(front);
      DroppedStays(Run(front), e);
      if Run(front).dropped == [] {
        StepDropsIffBacklogExceeds(Run(front), e);
      }
    }
  }

  /** What can have become of a disconnected state: the one push under way was made, or nothing was accepted. */
  ghost predicate IntakeStopped(s: State, s': State) {
    && s'.disconnected
    && ((s'.accepted == s.accepted && s'.producer == s.producer) ||
        (s.producer.Pushing? && s'.accepted == s.accepted + [s.producer.data] && s'.producer.Idle?))
  }

  lemma IntakeStaysStopped(s: State, s': State, e: Event)
    requires IntakeStopped(s, s')
    ensures IntakeStopped(s, Next(s', e))
  {
  }

  /** Whatever happens after a disconnect, nothing more is accepted but the one push that was already under way. */
  lemma {:induction false} DisconnectedStopsIntake(es: seq<Event>, n: nat)
    requires n <= |es| && Run(es[..n]).disconnected
    ensures var s, s' := Run(es[..n]), Run(es);
            && IntakeStopped(s, s')
            && (s'.accepted == s.accepted ||
                (s.producer.Pushing? && s'.accepted == s.accepted + [s.producer.data]))
  {
    if n == |es| {
      assert es[..n] == es;
    } else {
      var front := es[..|es| - 1];
      assert front[..n] == es[..n];
      DisconnectedStopsIntake(front, n);
      IntakeStaysStopped(Run(es[..n]), Run(front), es[|es| - 1]);
    }
  }

  // ----- delivery -----

  lemma AlsoRun(es: seq<Event>, e: Event)
    ensures Run(es + [e]) == Next(Run(es), e)
  {
    assert (es + [e])[..|es|] == es;
  }

  /** How many writes of the run were made and succeeded. */
  ghost function SuccessfulWrites(es: seq<Event>): nat {
    if es == [] then 0
    else
      var front, e := es[..|es| - 1], es[|es| - 1];
      SuccessfulWrites(front) + if Enabled(Run(front), e) && e == ConsumerWrite(true) then 1 else 0
  }

  /** At position i a write was made and failed. */
  ghost predicate FailedWriteAt(es: seq<Event>, i: nat) {
    i < |es| && es[i] == ConsumerWrite(false) && Enabled(Run(es[..i]), es[i])
  }

  lemma FailedWriteLater(front: seq<Event>, e: Event, i: nat)
    requires i < |front|
    ensures FailedWriteAt(front + [e], i) <==> FailedWriteAt(front, i)
  {
    assert (front + [e])[..i] == front[..i] && (front + [e])[i] == front[i];
  }

  /** In every run exactly the successful writes deliver, and a client is disconnected exactly when it was marked so. */
  lemma {:induction false} DeliveredAreWritten(es: seq<Event>)
    ensures |Run(es).delivered| == SuccessfulWrites(es)
    ensures Run(es).disconnected <==> Disconnect in es
  {
    if es == [] {
    } else {
      DeliveredAreWritten(es[..|es| - 1]);
      assert es == es[..|es| - 1] + [es[|es| - 1]];
    }
  }

  /** A consumer stops with a message lost if and only if a write failed, and otherwise only after a disconnect. */
  lemma {:induction false} StoppedOnlyIf(es: seq<Event>)
    ensures (exists i :: FailedWriteAt(es, i)) <==> Run(es).consumer.Stopped? && Run(es).consumer.lost != []
    ensures Run(es).consumer.Stopped? && Run(es).consumer.lost == [] ==> Disconnect in es
  {
    if es == [] {
    } else {
      var front, e := es[..|es| - 1], es[|es| - 1];
      assert es == front + [e] && es[..|front|] == front;
      StoppedOnlyIf(front);
      DeliveredAreWritten(front);
      if i: nat :| i < |front| && FailedWriteAt(es, i) { FailedWriteLater(front, e, i); }
      if i: nat :| i < |front| && FailedWriteAt(front, i) { FailedWriteLater(front, e, i); }
      if e == ConsumerWrite(false) && Enabled(Run(front), e) {
        assert FailedWriteAt(es, |front|);
      }
    }
  }

  /** One turn of the consumer loop: test, take a message, write it. */
  const TURN := [ConsumerCheck, ConsumerTake, ConsumerWrite(true)]

  ghost function Turns(n: nat): seq<Event> {
    if n == 0 then [] else TURN + Turns(n - 1)
  }

  lemma TurnDelivers(es: seq<Event>)
    requires var s := Run(es); !s.disconnected && s.consumer.Checking? && s.queue != []
    ensures var s, s' := Run(es), Run(es + TURN);
            && s'.delivered == s.delivered + [s.queue[0]] && s'.queue == s.queue[1..]
            && !s'.disconnected && s'.consumer.Checking? && s'.accepted == s.accepted
  {
    RunKeepsInv(es);
    var s := Run(es);
    assert s.queue[0] in s.accepted;
    AlsoRun(es, ConsumerCheck);
    AlsoRun(es + [ConsumerCheck], ConsumerTake);
    AlsoRun(es + [ConsumerCheck] + [ConsumerTake], ConsumerWrite(true));
    assert es + TURN == es + [ConsumerCheck] + [ConsumerTake] + [ConsumerWrite(true)];
  }

  /** Progress: from any state of any run in which the client is connected and its consumer at the loop test, as many
      turns as messages are queued deliver exactly those, in order, and leave the queue empty. */
  lemma {:induction false} TurnsDeliverTheQueue(es: seq<Event>)
    requires !Run(es).disconnected && Run(es).consumer.Checking?
    ensures var s, s' := Run(es), Run(es + Turns(|Run(es).queue|));
            && s'.delivered == s.delivered + s.queue && s'.queue == []
            && !s'.disconnected && s'.consumer.Checking? && s'.accepted == s.accepted
    decreases |Run(es).queue|
  {
    var s := Run(es);
    if s.queue == [] {
      assert es + Turns(0) == es;
    } else {
      TurnDelivers(es);
      TurnsDeliverTheQueue(es + TURN);
      assert es + Turns(|s.queue|) == (es + TURN) + Turns(|s.queue| - 1);
      assert s.delivered + [s.queue[0]] + s.queue[1..] == s.delivered + s.queue;
    }
  }

  /** What the consumer may still deliver after a disconnect: the message it holds or is about to take. */
  ghost function StillToDeliver(c: Consumer): nat {
    if c.Waiting? || c.Writing? then 1 else 0
  }

  lemma DeliveryRunsOut(s: State, e: Event)
    requires s.disconnected
    ensures |s.delivered| <= |Next(s, e).delivered|
    ensures |Next(s, e).delivered| + StillToDeliver(Next(s, e).consumer) <= |s.delivered| + StillToDeliver(s.consumer)
  {
  }

  /** After a disconnect the consumer ends with at most the one message it was already past the test for. */
  lemma {:induction false} DisconnectedStopsDelivery(es: seq<Event>, n: nat)
    requires n <= |es| && Run(es[..n]).disconnected
    ensures var s, s' := Run(es[..n]), Run(es);
            && |s.delivered| <= |s'.delivered|
            && |s'.delivered| + StillToDeliver(s'.consumer) <= |s.delivered| + StillToDeliver(s.consumer)
  {
    if n == |es| {
      assert es[..n] == es;
    } else {
      var front := es[..|es| - 1];
      assert front[..n] == es[..n];
      DisconnectedStopsDelivery(front, n);
      DisconnectedStopsIntake(front, n);
      DeliveryRunsOut(Run(front), es[|es| - 1]);
    }
  }

  lemma TakenAfterDisconnect(es: seq<Event>)
    requires var s := Run(es); s.disconnected && s.consumer.Waiting? && s.queue != []
    ensures var s' := Run(es + [ConsumerTake]);
            s'.disconnected && s'.consumer == Writing(Run(es).queue[0]) && s'.delivered == Run(es).delivered
  {
    RunKeepsInv(es);
    var s := Run(es);
    assert s.queue[0] in s.accepted;
    AlsoRun(es, ConsumerTake);
  }

  lemma WriteThenCheck(es: seq<Event>)
    requires var s := Run(es); s.disconnected && s.consumer.Writing?
    ensures var s' := Run(es + [ConsumerWrite(true), ConsumerCheck]);
            s'.consumer == Stopped([]) && s'.delivered == Run(es).delivered + [Run(es).consumer.msg]
  {
    AlsoRun(es, ConsumerWrite(true));
    AlsoRun(es + [ConsumerWrite(true)], ConsumerCheck);
    assert es + [ConsumerWrite(true), ConsumerCheck] == es + [ConsumerWrite(true)] + [ConsumerCheck];
  }

  /** After a disconnect the consumer ends on its own steps: at once where it tests the flag, at once where it finds
      the queue empty, and otherwise as soon as the one message it holds or takes is written. */
  lemma DisconnectedConsumerEnds(es: seq<Event>)
    requires Run(es).disconnected
    ensures Run(es).consumer.Checking? ==> Run(es + [ConsumerCheck]).consumer == Stopped([])
    ensures Run(es).consumer.Waiting? && Run(es).queue == [] ==> Run(es + [ConsumerTake]).consumer == Stopped([])
    ensures Run(es).consumer.Waiting? && Run(es).queue != [] ==>
              var s' := Run(es + [ConsumerTake] + [ConsumerWrite(true), ConsumerCheck]);
              s'.consumer == Stopped([]) && s'.delivered == Run(es).delivered + [Run(es).queue[0]]
    ensures Run(es).consumer.Writing? ==>
              var s' := Run(es + [ConsumerWrite(true), ConsumerCheck]);
              s'.consumer == Stopped([]) && s'.delivered == Run(es).delivered + [Run(es).consumer.msg]
  {
    var s := Run(es);
    match s.consumer
    case Checking => AlsoRun(es, ConsumerCheck);
    case Waiting =>
      if s.queue == [] {
        AlsoRun(es, ConsumerTake);
      } else {
        TakenAfterDisconnect(es);
        WriteThenCheck(es + [ConsumerTake]);
      }
    case Writing(_) => WriteThenCheck(es);
    case Stopped(_) =>
  }

  // ----- a client that takes nothing -----

  /** One whole sink call, with nothing in between; it answers whether the client is still connected. */
  function Offered(s: State, notification: string): State {
    Next(Next(s, SinkCall(notification)), SinkPush)
  }

  ghost function OfferedAll(s: State, ds: seq<string>): State {
    if ds == [] then s else Offered(OfferedAll(s, ds[..|ds| - 1]), ds[|ds| - 1])
  }

  function Newest(q: seq<string>): seq<string> {
    Last(q, 1024)
  }

  lemma OfferedToConnected(s: State, d: string)
    requires s.producer.Idle? && !s.disconnected
    ensures Offered(s, d).producer.Idle? && !Offered(s, d).disconnected
    ensures Offered(s, d).accepted == s.accepted + [Frame(d)] && Offered(s, d).queue == Bounded(s.queue, Frame(d))
  {
  }

  lemma NewestSnoc(q: seq<string>, d: string)
    ensures Newest(q + [d]) == Bounded(Newest(q), d)
  {
  }

  function Frames(ds: seq<string>): seq<string> {
    if ds == [] then [] else Frames(ds[..|ds| - 1]) + [Frame(ds[|ds| - 1])]
  }

  /** A client that takes nothing during a run of broadcasts accepts exactly those messages and is left with
      the newest 1024 of what it held and they. */
  lemma {:induction false} BroadcastsLeaveTheNewest(s: State, ds: seq<string>)
    requires s.producer.Idle? && !s.disconnected && |s.queue| <= MAX_ENTRIES
    ensures OfferedAll(s, ds).producer.Idle? && !OfferedAll(s, ds).disconnected
    ensures OfferedAll(s, ds).accepted == s.accepted + Frames(ds)
    ensures OfferedAll(s, ds).queue == Newest(s.queue + Frames(ds))
  {
    if ds == [] {
      assert s.queue + [] == s.queue;
    } else {
      var front, d := ds[..|ds| - 1], ds[|ds| - 1];
      BroadcastsLeaveTheNewest(s, front);
      OfferedToConnected(OfferedAll(s, front), d);
      NewestSnoc(s.queue + Frames(front), Frame(d));
      assert s.queue + Frames(ds) == (s.queue + Frames(front)) + [Frame(d)];
      assert s.accepted + Frames(ds) == (s.accepted + Frames(front)) + [Frame(d)];
    }
  }
}
