/** The stream of all SSE connections: registering and broadcasting. The lock of the stream is held from the start
    of a broadcast to its end, so nobody joins or leaves in between; but the connections themselves go on: consumers
    take and write messages, and clients disconnect, between any two steps of the broadcasting loop. */
module SseBroadcast {
  import opened SseQueue
  import opened Wrappers

  type ClientId = string

  /** A broadcast under way: the clients not offered the message yet, and the one whose sink is past its check. */
  datatype Round = Quiet | Offering(notification: string, left: set<ClientId>, current: Option<ClientId>)

  /** Every connection ever made, as the state its sink and consumer share, and the registered ones. */
  datatype Hub = Hub(clients: map<ClientId, State>, registered: set<ClientId>, round: Round)

  datatype Step =
    | Join(id: ClientId)
    | Leave(id: ClientId)
    | Start(notification: string)
    | Offer(id: ClientId)
    | Put
    | End
    | Own(id: ClientId, event: Event)

  const EMPTY := Hub(map[], {}, Quiet)

  /** The events of a connection that are not those of its sink. */
  predicate IsOwn(e: Event) {
    !e.SinkCall? && !e.SinkPush?
  }

  /** Ids are fresh. The loop visits the registered clients in any order. */
  predicate Possible(h: Hub, step: Step) {
    match step
    case Join(id) => h.round.Quiet? && id !in h.clients
    case Leave(_) => h.round.Quiet?
    case Start(_) => h.round.Quiet?
    case Offer(id) => h.round.Offering? && h.round.current.None? && id in h.round.left && id in h.clients
    case Put => h.round.Offering? && h.round.current.Some? && h.round.current.value in h.clients
    case End => h.round.Offering? && h.round.current.None? && h.round.left == {}
    case Own(id, e) => id in h.clients && IsOwn(e)
  }

  /** The check of one sink: it says no, and the client is forgotten, or the push to its queue is under way. */
  function Offered(h: Hub, id: ClientId): Hub
    requires h.round.Offering? && id in h.clients
  {
    var s := h.clients[id];
    var left := h.round.left - {id};
    h.(clients := h.clients[id := Next(s, SinkCall(h.round.notification))],
       registered := if s.disconnected then h.registered - {id} else h.registered,
       round := h.round.(left := left, current := if s.disconnected then None else Some(id)))
  }

  function After(h: Hub, step: Step): Hub {
    if !Possible(h, step) then h
    else match step
      case Join(id) => h.(clients := h.clients[id := INITIAL], registered := h.registered + {id})
      case Leave(id) => h.(registered := h.registered - {id})
      case Start(notification) => h.(round := Offering(notification, h.registered, None))
      case Offer(id) => Offered(h, id)
      case Put =>
        var id := h.round.current.value;
        h.(clients := h.clients[id := Next(h.clients[id], SinkPush)], round := h.round.(current := None))
      case End => h.(round := Quiet)
      case Own(id, e) => h.(clients := h.clients[id := Next(h.clients[id], e)])
  }

  ghost function History(steps: seq<Step>): Hub {
    if steps == [] then EMPTY else After(History(steps[..|steps| - 1]), steps[|steps| - 1])
  }

  // ----- the invariant -----

  /** A push is under way exactly to the client whose sink is past its check. */
  ghost predicate Coherent(h: Hub) {
    && h.registered <= h.clients.Keys
    && (h.round.Offering? ==> h.round.left <= h.registered)
    && (h.round.Offering? && h.round.current.Some? ==>
          h.round.current.value in h.registered && h.round.current.value !in h.round.left)
    && forall id :: id in h.clients ==>
         h.clients[id].producer ==
         if h.round.Offering? && h.round.current == Some(id) then Pushing(Frame(h.round.notification)) else Idle
  }

  lemma OwnKeepsProducer(s: State, e: Event)
    requires IsOwn(e)
    ensures Next(s, e).producer == s.producer && Next(s, e).accepted == s.accepted
    ensures s.disconnected ==> Next(s, e).disconnected
  {
  }

  lemma AfterIsCoherent(h: Hub, step: Step)
    requires Coherent(h)
    ensures Coherent(After(h, step))
  {
    if Possible(h, step) && step.Own? {
      OwnKeepsProducer(h.clients[step.id], step.event);
    }
  }

  lemma {:induction false} HistoryIsCoherent(steps: seq<Step>)
    ensures Coherent(History(steps))
  {
    if steps == [] {
    } else {
      HistoryIsCoherent(steps[..|steps| - 1]);
      AfterIsCoherent(History(steps[..|steps| - 1]), steps[|steps| - 1]);
    }
  }

  /** Every client that is not left was offered the message in one go, and the disconnected ones are forgotten. */
  ghost function Reached(h: Hub, notification: string, left: set<ClientId>): Hub
    requires Coherent(h)
  {
    var clients := map id | id in h.clients ::
      if id in h.registered && id !in left then SseQueue.Offered(h.clients[id], notification) else h.clients[id];
    var registered := set id | id in h.registered && (id in left || !h.clients[id].disconnected);
    Hub(clients, registered, Offering(notification, left, None))
  }

  lemma ReachedOneMore(h: Hub, notification: string, left: set<ClientId>, id: ClientId)
    requires Coherent(h) && left <= h.registered && id in left
    ensures var h' := Reached(h, notification, left);
            && id in h'.clients && h'.clients[id] == h.clients[id]
            && Reached(h, notification, left - {id}) ==
               Hub(h'.clients[id := SseQueue.Offered(h.clients[id], notification)],
                   if h.clients[id].disconnected then h'.registered - {id} else h'.registered,
                   Offering(notification, left - {id}, None))
  {
  }

  // ----- the code -----

  /** The class holds its sinks; a sink is the shared state it works on. */
  class SseStream {
    var clients: map<ClientId, State>
    var registered: set<ClientId>
    var round: Round

    ghost function Now(): Hub
      reads this
    {
      Hub(clients, registered, round)
    }

    constructor ()
      ensures Now() == EMPTY
    {
      clients, registered, round := map[], {}, Quiet;
    }

    method AddClient(id: ClientId)
      requires Possible(Now(), Join(id))
      modifies this
      ensures Now() == After(old(Now()), Join(id))
    {
      clients := clients[id := INITIAL];
      registered := registered + {id};
    }

    method RemoveClient(id: ClientId)
      requires Possible(Now(), Leave(id))
      modifies this
      ensures Now() == After(old(Now()), Leave(id))
    {
      registered := registered - {id};
    }

    /** The sink of one client up to its lock; if it says no, the client is erased. */
    method OfferTo(id: ClientId)
      requires Possible(Now(), Offer(id))
      modifies this
      ensures Now() == After(old(Now()), Offer(id))
    {
      var s, notification := clients[id], round.notification;
      clients := clients[id := Next(s, SinkCall(notification))];
      round := round.(left := round.left - {id});
      if s.disconnected {
        registered := registered - {id};
        round := round.(current := None);
      } else {
        round := round.(current := Some(id));
      }
    }

    /** The rest of the sink. */
    method PutCurrent()
      requires Possible(Now(), Put)
      modifies this
      ensures Now() == After(old(Now()), Put)
    {
      var id := round.current.value;
      clients := clients[id := Next(clients[id], SinkPush)];
      round := round.(current := None);
    }

    /** One round of the loop with nothing in between: the whole call of one sink. */
    method CallSink(id: ClientId)
      requires Coherent(Now()) && Possible(Now(), Offer(id))
      modifies this
      ensures Coherent(Now()) && round == old(round).(left := old(round).left - {id})
      ensures registered == if old(clients[id].disconnected) then old(registered) - {id} else old(registered)
      ensures clients == old(clients)[id := SseQueue.Offered(old(clients[id]), old(round.notification))]
    {
      AfterIsCoherent(Now(), Offer(id));
      OfferTo(id);
      if round.current.Some? {
        AfterIsCoherent(Now(), Put);
        PutCurrent();
      }
    }

    /** The whole loop with nothing in between: every registered client is offered the message once, and exactly
        the disconnected ones are forgotten, in any order of iteration. */
    method Broadcast(notification: string)
      requires Coherent(Now()) && round.Quiet?
      modifies this
      ensures Coherent(Now()) && round.Quiet?
      ensures registered == set id | id in old(registered) && !old(clients)[id].disconnected
      ensures clients == map id | id in old(clients) ::
                if id in old(registered) then SseQueue.Offered(old(clients)[id], notification) else old(clients)[id]
    {
      ghost var before := Now();
      round := Offering(notification, registered, None);
      assert Now() == Reached(before, notification, registered);
      while round.left != {}
        invariant Coherent(Now()) && round.Offering? && round.left <= before.registered
        invariant Now() == Reached(before, notification, round.left)
        decreases round.left
      {
        var id :| id in round.left;
        ReachedOneMore(before, notification, round.left, id);
        CallSink(id);
      }
      round := Quiet;
    }
  }

  // ----- every client runs on its own -----

  /** What a step is to one client. */
  ghost function ActionOn(h: Hub, step: Step, id: ClientId): seq<Event> {
    if !Possible(h, step) then []
    else match step
      case Offer(k) => if k == id then [SinkCall(h.round.notification)] else []
      case Put => if h.round.current == Some(id) then [SinkPush] else []
      case Own(k, e) => if k == id then [e] else []
      case _ => []
  }

  /** The events of one client, in order. */
  ghost function EventsOf(steps: seq<Step>, id: ClientId): seq<Event> {
    if steps == [] then []
    else
      var front, last := steps[..|steps| - 1], steps[|steps| - 1];
      EventsOf(front, id) + ActionOn(History(front), last, id)
  }

  lemma StepOfOne(h: Hub, step: Step, id: ClientId)
    ensures id in After(h, step).clients <==> id in h.clients || (Possible(h, step) && step == Join(id))
    ensures id in h.clients ==>
              After(h, step).clients[id] ==
              if ActionOn(h, step, id) == [] then h.clients[id] else Next(h.clients[id], ActionOn(h, step, id)[0])
    ensures id in After(h, step).clients && id !in h.clients ==> After(h, step).clients[id] == INITIAL
    ensures id !in h.clients ==> ActionOn(h, step, id) == []
    ensures |ActionOn(h, step, id)| <= 1
  {
  }

  lemma RunSnoc(es: seq<Event>, action: seq<Event>)
    requires |action| <= 1
    ensures Run(es + action) == if action == [] then Run(es) else Next(Run(es), action[0])
  {
    if action == [] {
      assert es + action == es;
    } else {
      assert (es + action)[..|es|] == es;
    }
  }

  /** However broadcasts and connections interleave, each client's state is what its own events make of it: so what
      is proved of one queue holds of every client of the stream. */
  lemma {:induction false} ClientsRunOnTheirOwn(steps: seq<Step>, id: ClientId)
    ensures id !in History(steps).clients ==> EventsOf(steps, id) == []
    ensures id in History(steps).clients ==> History(steps).clients[id] == Run(EventsOf(steps, id))
  {
    if steps == [] {
    } else {
      var front, last := steps[..|steps| - 1], steps[|steps| - 1];
      ClientsRunOnTheirOwn(front, id);
      StepOfOne(History(front), last, id);
      RunSnoc(EventsOf(front, id), ActionOn(History(front), last, id));
    }
  }

  // ----- who is registered -----

  /** The step takes the client off the list: it leaves, or its sink says no. */
  ghost predicate Drops(h: Hub, step: Step, id: ClientId) {
    Possible(h, step) && (step == Leave(id) || (step == Offer(id) && h.clients[id].disconnected))
  }

  ghost predicate DroppedAt(steps: seq<Step>, j: nat, id: ClientId) {
    j < |steps| && Drops(History(steps[..j]), steps[j], id)
  }

  /** The client joined at position i and was not taken off the list afterwards. */
  ghost predicate JoinedSince(steps: seq<Step>, i: nat, id: ClientId) {
    && i < |steps| && steps[i] == Join(id) && Possible(History(steps[..i]), steps[i])
    && forall j: nat :: i < j < |steps| ==> !DroppedAt(steps, j, id)
  }

  lemma DroppedEarlier(front: seq<Step>, step: Step, j: nat, id: ClientId)
    requires j < |front|
    ensures DroppedAt(front + [step], j, id) <==> DroppedAt(front, j, id)
  {
    assert (front + [step])[..j] == front[..j] && (front + [step])[j] == front[j];
  }

  lemma DroppedLast(front: seq<Step>, step: Step, id: ClientId)
    ensures DroppedAt(front + [step], |front|, id) <==> Drops(History(front), step, id)
  {
    assert (front + [step])[..|front|] == front;
  }

  lemma JoinedEarlier(front: seq<Step>, step: Step, i: nat, id: ClientId)
    requires i < |front|
    ensures JoinedSince(front + [step], i, id) <==> JoinedSince(front, i, id) && !Drops(History(front), step, id)
  {
    var steps := front + [step];
    assert steps[..i] == front[..i] && steps[i] == front[i];
    DroppedLast(front, step, id);
    forall j: nat | j < |front| ensures DroppedAt(steps, j, id) <==> DroppedAt(front, j, id) {
      DroppedEarlier(front, step, j, id);
    }
  }

  lemma JoinedLast(front: seq<Step>, step: Step, id: ClientId)
    ensures JoinedSince(front + [step], |front|, id) <==> step == Join(id) && Possible(History(front), step)
  {
    assert (front + [step])[..|front|] == front;
  }

  lemma RegisteredAfter(h: Hub, step: Step, id: ClientId)
    requires Coherent(h)
    ensures id in After(h, step).registered <==>
            (step == Join(id) && Possible(h, step)) || (id in h.registered && !Drops(h, step, id))
  {
  }

  /** In every interleaving the list holds exactly the clients that joined and have neither left nor been found
      disconnected by a broadcast since. */
  lemma {:induction false} RegisteredIffJoined(steps: seq<Step>, id: ClientId)
    ensures id in History(steps).registered <==> exists i :: JoinedSince(steps, i, id)
  {
    if steps == [] {
    } else {
      var front, step := steps[..|steps| - 1], steps[|steps| - 1];
      assert steps == front + [step];
      RegisteredIffJoined(front, id);
      HistoryIsCoherent(front);
      RegisteredAfter(History(front), step, id);
      JoinedLast(front, step, id);
      forall i: nat | i < |front|
        ensures JoinedSince(steps, i, id) <==> JoinedSince(front, i, id) && !Drops(History(front), step, id)
      {
        JoinedEarlier(front, step, i, id);
      }
    }
  }

  // ----- one broadcast -----

  /** Position b starts a broadcast of the message, and it has not ended yet. */
  ghost predicate Broadcasting(steps: seq<Step>, b: nat, notification: string) {
    && b < |steps| && steps[b] == Start(notification) && History(steps[..b]).round.Quiet?
    && forall k :: b < k < |steps| ==> !steps[k].End?
  }

  /** What the broadcast has done to one client so far. */
  ghost predicate OfferedSoFar(h0: Hub, h: Hub, notification: string, id: ClientId) {
    && h.round.Offering? && h.round.notification == notification
    && (id in h.clients <==> id in h0.clients)
    && (id in h.registered ==> id in h0.registered)
    && (id in h0.registered && id !in h.registered ==> id !in h.round.left)
    && (id in h0.clients && id in h.clients ==>
          h.clients[id].accepted ==
          if id in h.registered && id !in h.round.left && h.round.current != Some(id)
          then h0.clients[id].accepted + [Frame(notification)] else h0.clients[id].accepted)
  }

  lemma OfferedSoFarStep(h0: Hub, h: Hub, step: Step, notification: string, id: ClientId)
    requires Coherent(h) && OfferedSoFar(h0, h, notification, id) && !step.End?
    ensures OfferedSoFar(h0, After(h, step), notification, id)
  {
    if Possible(h, step) && step.Own? {
      OwnKeepsProducer(h.clients[step.id], step.event);
    }
  }

  lemma {:induction false} BroadcastSoFar(steps: seq<Step>, b: nat, notification: string, id: ClientId)
    requires Broadcasting(steps, b, notification)
    ensures OfferedSoFar(History(steps[..b]), History(steps), notification, id)
  {
    var front, last := steps[..|steps| - 1], steps[|steps| - 1];
    HistoryIsCoherent(front);
    if b == |steps| - 1 {
    } else {
      assert front[..b] == steps[..b];
      BroadcastSoFar(front, b, notification, id);
      OfferedSoFarStep(History(steps[..b]), History(front), last, notification, id);
    }
  }

  /** At position i the loop reaches this client, and its sink answers by its flag. */
  ghost predicate CheckedAt(steps: seq<Step>, i: nat, id: ClientId, connected: bool) {
    && i < |steps| && steps[i] == Offer(id) && Possible(History(steps[..i]), steps[i])
    && History(steps[..i]).clients[id].disconnected == !connected
  }

  lemma CheckedLater(front: seq<Step>, last: Step, i: nat, id: ClientId, connected: bool)
    requires CheckedAt(front, i, id, connected)
    ensures CheckedAt(front + [last], i, id, connected)
  {
    assert (front + [last])[..i] == front[..i];
  }

  lemma {:induction false} CheckDecides(steps: seq<Step>, b: nat, notification: string, id: ClientId) returns (i: nat)
    requires Broadcasting(steps, b, notification) && id in History(steps[..b]).registered
    requires History(steps).round.Offering? && id !in History(steps).round.left
    ensures b < i && CheckedAt(steps, i, id, id in History(steps).registered)
  {
    var front, last := steps[..|steps| - 1], steps[|steps| - 1];
    assert steps == front + [last];
    HistoryIsCoherent(front);
    if b == |steps| - 1 {
      assert false;
    } else {
      assert front[..b] == steps[..b];
      BroadcastSoFar(front, b, notification, id);
      if id in History(front).round.left {
        i := |steps| - 1;
      } else {
        i := CheckDecides(front, b, notification, id);
        CheckedLater(front, last, i, id, id in History(front).registered);
      }
    }
  }

  /** When a broadcast is over, whatever the connections did meanwhile: every client that was registered was reached,
      and kept if and only if its disconnected flag was down at that moment; a kept client has accepted exactly this
      one message more, and every other client nothing. */
  lemma BroadcastReachesEveryClient(steps: seq<Step>, b: nat, notification: string, id: ClientId)
    requires Broadcasting(steps, b, notification) && Possible(History(steps), End)
    ensures var h0, h := History(steps[..b]), After(History(steps), End);
            && (id in h.clients <==> id in h0.clients)
            && (id in h.registered ==> id in h0.registered)
            && (id in h0.clients && id in h.clients ==>
                  h.clients[id].accepted ==
                  h0.clients[id].accepted + if id in h.registered then [Frame(notification)] else [])
            && (id in h0.registered ==> exists i :: b < i && CheckedAt(steps, i, id, id in h.registered))
  {
    BroadcastSoFar(steps, b, notification, id);
    if id in History(steps[..b]).registered {
      var i := CheckDecides(steps, b, notification, id);
    }
  }

  lemma LaterHistory(steps: seq<Step>, step: Step) returns (h: Hub)
    ensures h == History(steps + [step]) == After(History(steps), step)
  {
    h := History(steps + [step]);
    assert (steps + [step])[..|steps|] == steps;
  }

  /** The loop does race with the connections: a client that disconnects after a broadcast began, but before the loop
      reaches it, is forgotten and accepts nothing. */
  lemma DisconnectWhileBroadcasting(id: ClientId, notification: string)
    ensures var h := History([Join(id), Start(notification), Own(id, Disconnect), Offer(id), End]);
            && h.round.Quiet? && id in h.clients && id !in h.registered && h.clients[id].accepted == []
  {
    var one := [Join(id)];
    var two := one + [Start(notification)];
    var three := two + [Own(id, Disconnect)];
    var four := three + [Offer(id)];
    assert [] + one == one;
    var h1 := LaterHistory([], Join(id));
    var h2 := LaterHistory(one, Start(notification));
    var h3 := LaterHistory(two, Own(id, Disconnect));
    var h4 := LaterHistory(three, Offer(id));
    var h5 := LaterHistory(four, End);
    assert h3 == Hub(map[id := INITIAL.(disconnected := true)], {id}, Offering(notification, {id}, None));
    assert h4.round.left == {};
    assert four + [End] == [Join(id), Start(notification), Own(id, Disconnect), Offer(id), End];
  }
}
