/** The event bus: subscriptions in order, and a log that keeps the most recent events. */
module EventBus {
  import opened Json
  import opened Sequences

  const MAX_LOG_SIZE: nat := 10000

  datatype Event = Event(id: string, eventType: string, source: string, data: Json, timestamp: int)

  type SubscriptionId = nat

  type Handlers = map<string, seq<SubscriptionId>>

  function HandlersOf(hs: Handlers, eventType: string): seq<SubscriptionId> {
    if eventType in hs then hs[eventType] else []
  }

  /** The handlers an event calls: those of its type, then the wildcard ones. */
  function Dispatched(hs: Handlers, eventType: string): seq<SubscriptionId> {
    HandlersOf(hs, eventType) + HandlersOf(hs, "*")
  }

  function Without(ids: seq<SubscriptionId>, id: SubscriptionId): seq<SubscriptionId> {
    if ids == [] then []
    else (if ids[0] == id then [] else [ids[0]]) + Without(ids[1..], id)
  }

  function First<T>(s: seq<T>, n: nat): seq<T> {
    if n <= |s| then s[..n] else s
  }

  function Newest(log: seq<Event>): seq<Event> {
    if log == [] then [] else [log[|log| - 1]] + Newest(log[..|log| - 1])
  }

  function OfType(events: seq<Event>, eventType: string): seq<Event> {
    if events == [] then []
    else (if events[0].eventType == eventType then [events[0]] else []) + OfType(events[1..], eventType)
  }

  ghost function Shifted(idx: seq<nat>): (r: seq<nat>)
    ensures |r| == |idx| && forall k :: 0 <= k < |idx| ==> r[k] == idx[k] + 1
  {
    seq(|idx|, k requires 0 <= k < |idx| => idx[k] + 1)
  }

  lemma ShiftedMembers(idx: seq<nat>, i: nat)
    ensures i in Shifted(idx) <==> i > 0 && i - 1 in idx
  {
    if i > 0 && i - 1 in idx {
      var k :| 0 <= k < |idx| && idx[k] == i - 1;
      assert Shifted(idx)[k] == i;
    }
  }

  /** The same positions in a sequence that has one more element in front, chosen or not. */
  lemma SelectLater(first: Event, events: seq<Event>, idx: seq<nat>, chosen: bool) returns (r: seq<nat>)
    requires Selection(idx, |events|)
    ensures Selection(r, |events| + 1)
    ensures At([first] + events, r) == (if chosen then [first] else []) + At(events, idx)
    ensures forall i: nat :: i in r <==> if i == 0 then chosen else i - 1 in idx
  {
    r := (if chosen then [0] else []) + Shifted(idx);
    forall i: nat ensures i in r <==> if i == 0 then chosen else i - 1 in idx {
      ShiftedMembers(idx, i);
    }
  }

  /** The events of the type, each once and in order. */
  lemma {:induction false} OfTypeSelects(events: seq<Event>, eventType: string) returns (idx: seq<nat>)
    ensures Selection(idx, |events|) && OfType(events, eventType) == At(events, idx)
    ensures forall i: nat :: i in idx <==> i < |events| && events[i].eventType == eventType
  {
    if events == [] {
      idx := [];
    } else {
      var rest := OfTypeSelects(events[1..], eventType);
      idx := SelectLater(events[0], events[1..], rest, events[0].eventType == eventType);
      assert [events[0]] + events[1..] == events;
    }
  }

  /** The events of one type among the first n, collected from the last of them back. */
  function CollectBackwards(log: seq<Event>, eventType: string, n: nat): seq<Event>
    requires n <= |log|
  {
    if n == 0 then []
    else (if log[n - 1].eventType == eventType then [log[n - 1]] else []) + CollectBackwards(log, eventType, n - 1)
  }

  lemma {:induction false} CollectingFiltersTheReverse(log: seq<Event>, eventType: string, n: nat)
    requires n <= |log|
    ensures CollectBackwards(log, eventType, n) == OfType(Newest(log[..n]), eventType)
  {
    if n == 0 {
    } else {
      CollectingFiltersTheReverse(log, eventType, n - 1);
      assert log[..n][..n - 1] == log[..n - 1];
      assert Newest(log[..n])[1..] == Newest(log[..n - 1]);
    }
  }

  // ----- the steps -----

  /** An emit that has taken its snapshot: the handlers still to call, and those called. */
  datatype Emission = Emission(event: Event, todo: seq<SubscriptionId>, called: seq<SubscriptionId>)

  /** The bus, with every event ever logged; emits under way are named by a number. */
  datatype State = State(
    handlers: Handlers,
    nextId: SubscriptionId,
    log: seq<Event>,
    emitting: map<nat, Emission>,
    history: seq<Event>)

  /** An emit is not atomic: it copies the lists under one lock, calls handlers without a lock, and logs under
      another. Handlers may subscribe, unsubscribe and emit themselves, and so may other threads. */
  datatype Op =
    | DoSubscribe(eventType: string)
    | DoUnsubscribe(id: SubscriptionId)
    | BeginEmit(emit: nat, event: Event)
    | CallNext(emit: nat)
    | EndEmit(emit: nat)

  const INITIAL := State(map[], 1, [], map[], [])

  predicate Possible(s: State, op: Op) {
    match op
    case BeginEmit(k, _) => k !in s.emitting
    case CallNext(k) => k in s.emitting && s.emitting[k].todo != []
    case EndEmit(k) => k in s.emitting && s.emitting[k].todo == []
    case _ => true
  }

  function Called(x: Emission): Emission
    requires x.todo != []
  {
    x.(todo := x.todo[1..], called := x.called + [x.todo[0]])
  }

  function Step(s: State, op: Op): State {
    if !Possible(s, op) then s
    else match op
      case DoSubscribe(t) =>
        s.(handlers := s.handlers[t := HandlersOf(s.handlers, t) + [s.nextId]], nextId := s.nextId + 1)
      case DoUnsubscribe(id) => s.(handlers := map k | k in s.handlers :: Without(s.handlers[k], id))
      case BeginEmit(k, event) =>
        s.(emitting := s.emitting[k := Emission(event, Dispatched(s.handlers, event.eventType), [])])
      case CallNext(k) => s.(emitting := s.emitting[k := Called(s.emitting[k])])
      case EndEmit(k) =>
        var event := s.emitting[k].event;
        s.(emitting := s.emitting - {k}, log := Last(s.log + [event], MAX_LOG_SIZE), history := s.history + [event])
  }

  ghost function Run(ops: seq<Op>): State {
    if ops == [] then INITIAL else Step(Run(ops[..|ops| - 1]), ops[|ops| - 1])
  }

  // ----- the code -----

  lemma FirstOfPrefix(a: seq<Event>, b: seq<Event>, n: nat)
    requires |a| <= n && (|a| == n || b == [])
    ensures First(a + b, n) == a
  {
  }

  /** The collecting loop may stop at i when nothing is left or enough is collected. */
  lemma CollectedEnough(result: seq<Event>, log: seq<Event>, eventType: string, i: nat, limit: nat)
    requires i <= |log| && |result| <= limit && (|result| == limit || i == 0)
    requires result + CollectBackwards(log, eventType, i) == CollectBackwards(log, eventType, |log|)
    ensures result == First(OfType(Newest(log), eventType), limit)
  {
    FirstOfPrefix(result, CollectBackwards(log, eventType, i), limit);
    CollectingFiltersTheReverse(log, eventType, |log|);
    assert log[..|log|] == log;
  }

  lemma CalledMovesOne(x: Emission)
    requires x.todo != []
    ensures Called(x).called + Called(x).todo == x.called + x.todo
  {
  }

  lemma PutAndRemove(m: map<nat, Emission>, k: nat, x: Emission)
    requires k !in m
    ensures m[k := x] - {k} == m
  {
  }

  class Bus {
    var eventLog: seq<Event>
    var handlers: Handlers
    var nextId: SubscriptionId
    var emitting: map<nat, Emission>
    /** Every event ever logged. */
    ghost var history: seq<Event>

    ghost function Now(): State
      reads this
    {
      State(handlers, nextId, eventLog, emitting, history)
    }

    constructor ()
      ensures Now() == INITIAL
    {
      eventLog, handlers, nextId, emitting, history := [], map[], 1, map[], [];
    }

    method Subscribe(eventType: string) returns (id: SubscriptionId)
      modifies this
      ensures Now() == Step(old(Now()), DoSubscribe(eventType)) && id == old(nextId)
    {
      id := nextId;
      nextId := nextId + 1;
      handlers := handlers[eventType := HandlersOf(handlers, eventType) + [id]];
    }

    method Unsubscribe(id: SubscriptionId)
      modifies this`handlers
      ensures Now() == Step(old(Now()), DoUnsubscribe(id))
    {
      var left := handlers.Keys;
      while left != {}
        invariant left <= handlers.Keys && handlers.Keys == old(handlers).Keys
        invariant forall k :: k in handlers ==>
          handlers[k] == if k in left then old(handlers)[k] else Without(old(handlers)[k], id)
        decreases left
      {
        var k :| k in left;
        left := left - {k};
        handlers := handlers[k := Without(handlers[k], id)];
      }
    }

    /** The snapshot of the lists of the type and of the wildcard, under one shared lock. */
    method TakeSnapshot(emit: nat, event: Event)
      requires Possible(Now(), BeginEmit(emit, event))
      modifies this`emitting
      ensures Now() == Step(old(Now()), BeginEmit(emit, event))
    {
      var typeHandlers := if event.eventType in handlers then handlers[event.eventType] else [];
      var wildcardHandlers := if "*" in handlers then handlers["*"] else [];
      emitting := emitting[emit := Emission(event, typeHandlers + wildcardHandlers, [])];
    }

    /** One round of the loops over the snapshot. */
    method CallHandler(emit: nat) returns (id: SubscriptionId)
      requires Possible(Now(), CallNext(emit))
      modifies this`emitting
      ensures Now() == Step(old(Now()), CallNext(emit)) && id == old(emitting[emit].todo[0])
    {
      id := emitting[emit].todo[0];
      emitting := emitting[emit := Called(emitting[emit])];
    }

    /** Appending to the log, under its lock. */
    method AppendToLog(emit: nat)
      requires Possible(Now(), EndEmit(emit))
      modifies this`eventLog, this`history, this`emitting
      ensures Now() == Step(old(Now()), EndEmit(emit))
    {
      var event := emitting[emit].event;
      emitting := emitting - {emit};
      eventLog := eventLog + [event];
      history := history + [event];
      ghost var full := eventLog;
      while |eventLog| > MAX_LOG_SIZE
        invariant history == old(history) + [event] && emitting == old(emitting) - {emit}
        invariant |eventLog| <= |full| && eventLog == full[|full| - |eventLog|..]
        invariant |eventLog| >= MAX_LOG_SIZE || eventLog == full
        decreases |eventLog|
      {
        eventLog := eventLog[1..];
      }
      assert eventLog == Last(full, MAX_LOG_SIZE);
    }

    /** The three parts with nothing in between: the handlers of the type and then the wildcard ones are called,
        and the event is logged. */
    method Emit(emit: nat, event: Event) returns (called: seq<SubscriptionId>)
      requires emit !in emitting
      modifies this`eventLog, this`history, this`emitting
      ensures called == Dispatched(handlers, event.eventType)
      ensures eventLog == Last(old(eventLog) + [event], MAX_LOG_SIZE) && history == old(history) + [event]
      ensures emitting == old(emitting)
    {
      TakeSnapshot(emit, event);
      called := [];
      while emitting[emit].todo != []
        invariant emit in emitting && emitting == old(emitting)[emit := emitting[emit]]
        invariant emitting[emit].event == event && emitting[emit].called == called
        invariant called + emitting[emit].todo == Dispatched(handlers, event.eventType)
        invariant eventLog == old(eventLog) && history == old(history)
        decreases |emitting[emit].todo|
      {
        CalledMovesOne(emitting[emit]);
        var id := CallHandler(emit);
        called := called + [id];
      }
      PutAndRemove(old(emitting), emit, emitting[emit]);
      AppendToLog(emit);
    }

    method RecentEvents(count: nat) returns (result: seq<Event>)
      ensures result == Last(eventLog, count)
    {
      var n := if count < |eventLog| then count else |eventLog|;
      result := eventLog[|eventLog| - n..];
    }

    /** Newest first, of one type, at most `limit` of them. */
    method QueryEvents(eventType: string, limit: nat) returns (result: seq<Event>)
      ensures result == First(OfType(Newest(eventLog), eventType), limit)
    {
      result := [];
      var i := |eventLog|;
      ghost var matching := CollectBackwards(eventLog, eventType, i);
      while i > 0 && |result| < limit
        invariant 0 <= i <= |eventLog| && |result| <= limit
        invariant result + CollectBackwards(eventLog, eventType, i) == matching
      {
        i := i - 1;
        if eventLog[i].eventType == eventType {
          result := result + [eventLog[i]];
        }
      }
      CollectedEnough(result, eventLog, eventType, i, limit);
    }
  }

  // ----- the log against the history -----

  lemma {:induction false} NewestReverses(log: seq<Event>)
    ensures |Newest(log)| == |log|
    ensures forall i :: 0 <= i < |log| ==> Newest(log)[i] == log[|log| - 1 - i]
  {
    if log == [] {
    } else {
      NewestReverses(log[..|log| - 1]);
    }
  }

  lemma {:induction false} OfTypeAppend(a: seq<Event>, b: seq<Event>, eventType: string)
    ensures OfType(a + b, eventType) == OfType(a, eventType) + OfType(b, eventType)
  {
    if a == [] {
      assert a + b == b;
    } else {
      assert (a + b)[0] == a[0] && (a + b)[1..] == a[1..] + b;
      OfTypeAppend(a[1..], b, eventType);
      Associate(if a[0].eventType == eventType then [a[0]] else [], OfType(a[1..], eventType), OfType(b, eventType));
    }
  }

  lemma NewestOfParts(older: seq<Event>, log: seq<Event>)
    ensures Newest(older + log) == Newest(log) + Newest(older)
  {
    NewestReverses(older + log);
    NewestReverses(log);
    NewestReverses(older);
  }

  /** Reading recent events from the bounded log is reading them from the full history if and only if no more than
      10000 are asked for or no more were ever logged. */
  lemma RecentSeesTheFullHistory(history: seq<Event>, n: nat)
    ensures Last(Last(history, MAX_LOG_SIZE), n) == Last(history, n) <==>
            n <= MAX_LOG_SIZE || |history| <= MAX_LOG_SIZE
  {
    if n > MAX_LOG_SIZE && |history| > MAX_LOG_SIZE {
      assert |Last(Last(history, MAX_LOG_SIZE), n)| < |Last(history, n)|;
    }
  }

  lemma FirstOfLongerIff(a: seq<Event>, b: seq<Event>, n: nat)
    ensures First(a + b, n) == First(a, n) <==> n <= |a| || b == []
  {
    if n > |a| && b != [] {
      assert |First(a + b, n)| > |a|;
    }
  }

  lemma {:induction false} ReversingKeepsTheCount(log: seq<Event>, eventType: string)
    ensures |OfType(Newest(log), eventType)| == |OfType(log, eventType)|
  {
    if log == [] {
    } else {
      var front, last := log[..|log| - 1], log[|log| - 1];
      ReversingKeepsTheCount(front, eventType);
      OfTypeAppend([last], Newest(front), eventType);
      OfTypeAppend(front, [last], eventType);
      assert log == front + [last];
    }
  }

  lemma {:induction false} NoneOfTypeIff(history: seq<Event>, n: nat, eventType: string)
    requires n <= |history|
    ensures OfType(history[..n], eventType) == [] <==> forall i :: 0 <= i < n ==> history[i].eventType != eventType
  {
    if n == 0 {
    } else {
      NoneOfTypeIff(history, n - 1, eventType);
      OfTypeAppend(history[..n - 1], [history[n - 1]], eventType);
      assert history[..n] == history[..n - 1] + [history[n - 1]];
    }
  }

  lemma QueryOfParts(older: seq<Event>, log: seq<Event>, eventType: string, n: nat)
    ensures First(OfType(Newest(log), eventType), n) == First(OfType(Newest(older + log), eventType), n) <==>
            n <= |OfType(log, eventType)| || OfType(older, eventType) == []
  {
    NewestOfParts(older, log);
    OfTypeAppend(Newest(log), Newest(older), eventType);
    FirstOfLongerIff(OfType(Newest(log), eventType), OfType(Newest(older), eventType), n);
    ReversingKeepsTheCount(log, eventType);
    ReversingKeepsTheCount(older, eventType);
  }

  /** A query on the bounded log answers what it would answer on the full history if and only if the log holds
      enough events of the type, or no event that fell out of it was of the type. */
  lemma QuerySeesTheFullHistory(history: seq<Event>, eventType: string, n: nat)
    ensures var log := Last(history, MAX_LOG_SIZE);
            First(OfType(Newest(log), eventType), n) == First(OfType(Newest(history), eventType), n) <==>
            n <= |OfType(log, eventType)| ||
            forall i :: 0 <= i < |history| - MAX_LOG_SIZE ==> history[i].eventType != eventType
  {
    if |history| > MAX_LOG_SIZE {
      var older, log := history[..|history| - MAX_LOG_SIZE], Last(history, MAX_LOG_SIZE);
      assert history == older + log;
      QueryOfParts(older, log, eventType, n);
      NoneOfTypeIff(history, |history| - MAX_LOG_SIZE, eventType);
    }
  }

  // ----- subscriptions over every run -----

  /** However emits interleave and nest, the log is the last 10000 of all events logged so far, or all of them. */
  lemma {:induction false} LogIsTheEndOfHistory(ops: seq<Op>)
    ensures Run(ops).log == Last(Run(ops).history, MAX_LOG_SIZE)
    ensures var log, history := Run(ops).log, Run(ops).history;
            && |log| == (if |history| <= 10000 then |history| else 10000)
            && log == history[|history| - |log|..]
  {
    if ops == [] {
    } else {
      var s, op := Run(ops[..|ops| - 1]), ops[|ops| - 1];
      LogIsTheEndOfHistory(ops[..|ops| - 1]);
      if op.EndEmit? && Possible(s, op) {
        LastSnoc(s.history, s.emitting[op.emit].event, MAX_LOG_SIZE);
      }
    }
  }

  /** After position i the emit was under way all along: a number is used again only when its emit is over. */
  ghost predicate UnderWaySince(ops: seq<Op>, i: nat, k: nat) {
    k in Run(ops).emitting && (|ops| > i + 1 ==> UnderWaySince(ops[..|ops| - 1], i, k))
  }

  /** Position i began this emit and took its snapshot. */
  ghost predicate SnapshotAt(ops: seq<Op>, i: nat, k: nat, x: Emission) {
    && i < |ops| && ops[i] == BeginEmit(k, x.event) && Possible(Run(ops[..i]), ops[i])
    && UnderWaySince(ops, i, k)
    && x.called + x.todo == Dispatched(Run(ops[..i]).handlers, x.event.eventType)
  }

  lemma SnapshotLater(front: seq<Op>, op: Op, i: nat, k: nat, x: Emission)
    requires SnapshotAt(front, i, k, x) && k in Run(front + [op]).emitting
    ensures SnapshotAt(front + [op], i, k, x)
    ensures x.todo != [] ==> SnapshotAt(front + [op], i, k, Called(x))
  {
    assert (front + [op])[..i] == front[..i] && (front + [op])[..|front|] == front;
    if x.todo != [] { CalledMovesOne(x); }
  }

  ghost predicate SubscribedAt(ops: seq<Op>, eventType: string, id: SubscriptionId, i: nat)
    requires i < |ops|
  {
    ops[i] == DoSubscribe(eventType) && Run(ops[..i]).nextId == id &&
    forall j :: i < j < |ops| ==> ops[j] != DoUnsubscribe(id)
  }

  /** The id was handed out for this type by some subscription and not cancelled after it. */
  ghost predicate Subscribed(ops: seq<Op>, eventType: string, id: SubscriptionId) {
    exists i: nat :: i < |ops| && SubscribedAt(ops, eventType, id, i)
  }

  lemma {:induction false} WithoutRemoves(ids: seq<SubscriptionId>, id: SubscriptionId, bound: nat)
    requires Selection(ids, bound)
    ensures Selection(Without(ids, id), bound)
    ensures forall x :: x in Without(ids, id) <==> x in ids && x != id
  {
    if ids == [] {
    } else {
      WithoutRemoves(ids[1..], id, bound);
      assert ids == [ids[0]] + ids[1..];
      var rest := Without(ids[1..], id);
      forall i | 0 <= i < |rest| ensures ids[0] < rest[i] {
        assert rest[i] in ids[1..];
      }
    }
  }

  /** Each list is in subscription order, and no id is in two lists. */
  ghost predicate Orderly(r: State) {
    && (forall k :: k in r.handlers ==> Selection(r.handlers[k], r.nextId))
    && forall k, k', id :: k in r.handlers && k' in r.handlers && k != k' ==>
         !(id in r.handlers[k] && id in r.handlers[k'])
  }

  lemma StepKeepsOrder(r: State, op: Op)
    requires Orderly(r)
    ensures Orderly(Step(r, op))
    ensures op.DoUnsubscribe? ==> forall k, id :: id in HandlersOf(Step(r, op).handlers, k) <==>
                                                 id in HandlersOf(r.handlers, k) && id != op.id
  {
    match op
    case DoSubscribe(t) =>
      assert Selection(HandlersOf(r.handlers, t) + [r.nextId], r.nextId + 1);
      forall k | k in r.handlers ensures r.nextId !in r.handlers[k] {}
    case DoUnsubscribe(id) =>
      forall k | k in r.handlers
        ensures Selection(Without(r.handlers[k], id), r.nextId)
        ensures forall x :: x in Without(r.handlers[k], id) <==> x in r.handlers[k] && x != id
      {
        WithoutRemoves(r.handlers[k], id, r.nextId);
      }
    case _ =>
  }

  lemma {:induction false} RunIsOrderly(ops: seq<Op>)
    ensures Orderly(Run(ops))
  {
    if ops == [] {
    } else {
      RunIsOrderly(ops[..|ops| - 1]);
      StepKeepsOrder(Run(ops[..|ops| - 1]), ops[|ops| - 1]);
    }
  }

  lemma SubscribedAtEarlier(front: seq<Op>, op: Op, eventType: string, id: SubscriptionId, i: nat)
    requires i < |front|
    ensures SubscribedAt(front + [op], eventType, id, i) <==>
            op != DoUnsubscribe(id) && SubscribedAt(front, eventType, id, i)
  {
    var ops := front + [op];
    assert ops[..i] == front[..i] && ops[|front|] == op;
    assert forall j :: 0 <= j < |front| ==> ops[j] == front[j];
  }

  lemma SubscribedSnoc(front: seq<Op>, op: Op, eventType: string, id: SubscriptionId)
    ensures Subscribed(front + [op], eventType, id) <==>
            (op == DoSubscribe(eventType) && Run(front).nextId == id) ||
            (op != DoUnsubscribe(id) && Subscribed(front, eventType, id))
  {
    var ops := front + [op];
    forall i: nat | i < |front|
      ensures SubscribedAt(ops, eventType, id, i) <==>
              op != DoUnsubscribe(id) && SubscribedAt(front, eventType, id, i)
    {
      SubscribedAtEarlier(front, op, eventType, id, i);
    }
    assert ops[..|front|] == front;
    assert SubscribedAt(ops, eventType, id, |front|) <==>
           op == DoSubscribe(eventType) && Run(front).nextId == id;
  }

  lemma ListedAfter(r: State, op: Op, eventType: string, id: SubscriptionId)
    requires Orderly(r)
    ensures id in HandlersOf(Step(r, op).handlers, eventType) <==>
            (op == DoSubscribe(eventType) && r.nextId == id) ||
            (op != DoUnsubscribe(id) && id in HandlersOf(r.handlers, eventType))
  {
    StepKeepsOrder(r, op);
  }

  /** A handler is listed under a type if and only if it was subscribed to it and not unsubscribed since. */
  lemma {:induction false} ListedIffSubscribed(ops: seq<Op>, eventType: string, id: SubscriptionId)
    ensures id in HandlersOf(Run(ops).handlers, eventType) <==> Subscribed(ops, eventType, id)
  {
    if ops == [] {
    } else {
      var front, op := ops[..|ops| - 1], ops[|ops| - 1];
      ListedIffSubscribed(front, eventType, id);
      RunIsOrderly(front);
      ListedAfter(Run(front), op, eventType, id);
      assert ops == front + [op];
      SubscribedSnoc(front, op, eventType, id);
    }
  }

  // ----- what an emit calls -----

  /** x was subscribed before y, and neither was cancelled. */
  ghost predicate SubscribedBefore(ops: seq<Op>, eventType: string, x: SubscriptionId, y: SubscriptionId) {
    exists p: nat, q: nat ::
      p < q < |ops| && SubscribedAt(ops, eventType, x, p) && SubscribedAt(ops, eventType, y, q)
  }

  /** The ids are all those subscribed to the type, in the order in which they were. */
  ghost predicate InSubscriptionOrder(ops: seq<Op>, eventType: string, ids: seq<SubscriptionId>) {
    && (forall id :: id in ids <==> Subscribed(ops, eventType, id))
    && forall a, b :: 0 <= a < b < |ids| ==> SubscribedBefore(ops, eventType, ids[a], ids[b])
  }

  lemma {:induction false} IdsGrow(ops: seq<Op>, i: nat)
    requires i <= |ops|
    ensures Run(ops[..i]).nextId <= Run(ops).nextId
  {
    if i == |ops| {
      assert ops[..i] == ops;
    } else {
      assert ops[..|ops| - 1][..i] == ops[..i];
      IdsGrow(ops[..|ops| - 1], i);
    }
  }

  ghost function SubscriptionsIn(ops: seq<Op>): nat {
    if ops == [] then 0
    else SubscriptionsIn(ops[..|ops| - 1]) + if ops[|ops| - 1].DoSubscribe? then 1 else 0
  }

  /** Ids are handed out from 1 on, one for each subscription. */
  lemma {:induction false} IdsCountSubscriptions(ops: seq<Op>)
    ensures Run(ops).nextId == 1 + SubscriptionsIn(ops)
  {
    if ops == [] {
    } else {
      IdsCountSubscriptions(ops[..|ops| - 1]);
    }
  }

  lemma EarlierIdIsSmaller(ops: seq<Op>, eventType: string, x: SubscriptionId, y: SubscriptionId, p: nat, q: nat)
    requires q <= p < |ops| && SubscribedAt(ops, eventType, x, p) && SubscribedAt(ops, eventType, y, q)
    ensures y <= x
  {
    assert ops[..p][..q] == ops[..q];
    IdsGrow(ops[..p], q);
  }

  lemma ListIsInSubscriptionOrder(ops: seq<Op>, eventType: string)
    ensures InSubscriptionOrder(ops, eventType, HandlersOf(Run(ops).handlers, eventType))
  {
    var ids := HandlersOf(Run(ops).handlers, eventType);
    RunIsOrderly(ops);
    forall id ensures id in ids <==> Subscribed(ops, eventType, id) {
      ListedIffSubscribed(ops, eventType, id);
    }
    forall a, b | 0 <= a < b < |ids| ensures SubscribedBefore(ops, eventType, ids[a], ids[b]) {
      assert ids[a] in ids && ids[b] in ids && ids[a] < ids[b];
      var p: nat :| p < |ops| && SubscribedAt(ops, eventType, ids[a], p);
      var q: nat :| q < |ops| && SubscribedAt(ops, eventType, ids[b], q);
      if q <= p {
        EarlierIdIsSmaller(ops, eventType, ids[a], ids[b], p, q);
      }
    }
  }

  /** What an emit begun after these operations has to call. */
  ghost predicate CallsSubscribers(before: seq<Op>, eventType: string, calls: seq<SubscriptionId>, n: nat)
    requires n <= |calls|
  {
    && InSubscriptionOrder(before, eventType, calls[..n])
    && InSubscriptionOrder(before, "*", calls[n..])
  }

  lemma DispatchedAreSubscribers(before: seq<Op>, eventType: string) returns (n: nat)
    ensures n <= |Dispatched(Run(before).handlers, eventType)|
    ensures CallsSubscribers(before, eventType, Dispatched(Run(before).handlers, eventType), n)
  {
    var a, b := HandlersOf(Run(before).handlers, eventType), HandlersOf(Run(before).handlers, "*");
    n := |a|;
    ListIsInSubscriptionOrder(before, eventType);
    ListIsInSubscriptionOrder(before, "*");
    assert (a + b)[..n] == a && (a + b)[n..] == b;
  }

  /** Position i began the emit that is under way. */
  ghost predicate BegunAt(ops: seq<Op>, i: nat, k: nat, event: Event) {
    i < |ops| && ops[i] == BeginEmit(k, event) && Possible(Run(ops[..i]), ops[i]) && UnderWaySince(ops, i, k)
  }

  lemma {:induction false} EmitFollowsItsSnapshot(ops: seq<Op>, k: nat) returns (i: nat)
    requires k in Run(ops).emitting
    ensures SnapshotAt(ops, i, k, Run(ops).emitting[k])
  {
    if ops == [] {
      assert false;
    } else {
      var front, op := ops[..|ops| - 1], ops[|ops| - 1];
      assert ops == front + [op];
      if k in Run(front).emitting {
        i := EmitFollowsItsSnapshot(front, k);
        SnapshotLater(front, op, i, k, Run(front).emitting[k]);
      } else {
        i := |front|;
        assert [] + Run(ops).emitting[k].todo == Run(ops).emitting[k].todo;
      }
    }
  }

  /** Whatever subscribes, unsubscribes or emits meanwhile: when an emit is about to be logged, the handlers it has
      called are exactly those that were subscribed to its type when it began, in the order of their subscriptions,
      and then those subscribed to every type, in theirs. */
  lemma EmitCallsItsSubscribers(ops: seq<Op>, k: nat) returns (i: nat, n: nat)
    requires Possible(Run(ops), EndEmit(k))
    ensures var x := Run(ops).emitting[k];
            && BegunAt(ops, i, k, x.event)
            && n <= |x.called| && CallsSubscribers(ops[..i], x.event.eventType, x.called, n)
            && forall id :: id in x.called <==>
                            Subscribed(ops[..i], x.event.eventType, id) || Subscribed(ops[..i], "*", id)
  {
    i := EmitFollowsItsSnapshot(ops, k);
    var x := Run(ops).emitting[k];
    assert x.called + [] == x.called;
    n := DispatchedAreSubscribers(ops[..i], x.event.eventType);
    forall id ensures id in x.called <==>
                      Subscribed(ops[..i], x.event.eventType, id) || Subscribed(ops[..i], "*", id)
    {
      assert x.called == x.called[..n] + x.called[n..];
    }
  }

  /** Logging adds the very event the emit was begun with, once, and nothing else adds to the history. */
  lemma EmitIsLoggedOnce(ops: seq<Op>, op: Op)
    ensures var s, s' := Run(ops), Run(ops + [op]);
            if op.EndEmit? && Possible(s, op) then
              s'.history == s.history + [s.emitting[op.emit].event] && op.emit !in s'.emitting
            else s'.history == s.history
  {
    assert (ops + [op])[..|ops|] == ops;
  }

  /** Every event calls each of its handlers once, unless the event's own type is "*" and a wildcard handler
      exists: then the same list is found twice. */
  lemma CalledOnceIff(ops: seq<Op>, eventType: string)
    ensures NoDuplicates(Dispatched(Run(ops).handlers, eventType)) <==>
            eventType != "*" || HandlersOf(Run(ops).handlers, "*") == []
  {
    RunIsOrderly(ops);
    var a, b := HandlersOf(Run(ops).handlers, eventType), HandlersOf(Run(ops).handlers, "*");
    if eventType == "*" && b != [] {
      assert (a + b)[0] == (a + b)[|a|];
    }
    if eventType != "*" {
      forall i, j | 0 <= i < |a| && 0 <= j < |b| ensures a[i] != b[j] {
        assert a[i] in a && b[j] in b;
      }
    }
  }
}
