/** Merge requests. Executing one is not atomic: the approval is checked under the lock, the merge runs with
    the lock released, and the outcome is written under the lock again. */
module MergeCoordinator {
  import opened Identifiers
  import opened Sets
  import opened Wrappers

  datatype MergeStrategy = Merge | Rebase | Squash

  datatype Status = Pending | Approved | Rejected | Completed | Failed

  datatype MergeRequest = MergeRequest(
    id: Id,
    sourceBranch: string,
    targetBranch: string,
    requester: string,
    strategy: MergeStrategy,
    status: Status,
    review: string,
    result: string)

  /** A call of execute_merge past its check: the copied request, and the outcome once the merge ran. */
  datatype Execution = Execution(request: MergeRequest, outcome: Option<bool>)

  /** What happened to requests, oldest first. */
  datatype Entry =
    | WasApproved(id: Id, reviewer: string)
    | WasRejected(id: Id, reviewer: string)
    | WasBegun(id: Id)
    | WasPerformed(id: Id, ok: bool)
    | WasFinished(id: Id, ok: bool)

  /** Executions in flight are named by the thread that runs them. */
  datatype State = State(requests: map<Id, MergeRequest>, inFlight: map<nat, Execution>, log: seq<Entry>)

  datatype Event =
    | Request(id: Id, source: string, target: string, requester: string, strategy: MergeStrategy)
    | Approve(id: Id, reviewer: string)
    | Reject(id: Id, reviewer: string, reason: string)
    | Begin(thread: nat, id: Id)
    | Perform(thread: nat, ok: bool)
    | Finish(thread: nat)

  const INITIAL := State(map[], map[], [])

  /** New ids are fresh, and a thread runs one execution at a time, in order. */
  predicate Enabled(s: State, e: Event) {
    match e
    case Request(id, _, _, _, _) => id !in s.requests
    case Begin(t, _) => t !in s.inFlight
    case Perform(t, _) => t in s.inFlight && s.inFlight[t].outcome.None?
    case Finish(t) => t in s.inFlight && s.inFlight[t].outcome.Some?
    case _ => true
  }

  predicate HasStatus(s: State, id: Id, status: Status) {
    id in s.requests && s.requests[id].status == status
  }

  function OutcomeOf(r: MergeRequest, ok: bool): MergeRequest {
    r.(status := if ok then Completed else Failed,
       result := if ok then "merged successfully" else "merge conflict or error")
  }

  function Decide(s: State, id: Id, decided: MergeRequest, e: Entry): State {
    s.(requests := s.requests[id := decided], log := s.log + [e])
  }

  function Begun(s: State, t: nat, id: Id): State
    requires id in s.requests
  {
    s.(inFlight := s.inFlight[t := Execution(s.requests[id], None)], log := s.log + [WasBegun(id)])
  }

  function Performed(s: State, t: nat, ok: bool): State
    requires t in s.inFlight
  {
    s.(inFlight := s.inFlight[t := s.inFlight[t].(outcome := Some(ok))],
       log := s.log + [WasPerformed(s.inFlight[t].request.id, ok)])
  }

  /** The write-back looks the request up again and gives up silently if it is gone. */
  function Finished(s: State, t: nat): State
    requires t in s.inFlight && s.inFlight[t].outcome.Some?
  {
    var id, ok := s.inFlight[t].request.id, s.inFlight[t].outcome.value;
    if id !in s.requests then s.(inFlight := s.inFlight - {t})
    else s.(requests := s.requests[id := OutcomeOf(s.requests[id], ok)],
            inFlight := s.inFlight - {t},
            log := s.log + [WasFinished(id, ok)])
  }

  function Next(s: State, e: Event): State {
    if !Enabled(s, e) then s
    else match e
      case Request(id, source, target, requester, strategy) =>
        s.(requests := s.requests[id := MergeRequest(id, source, target, requester, strategy, Pending, "", "")])
      case Approve(id, reviewer) =>
        if !HasStatus(s, id, Pending) then s
        else Decide(s, id, s.requests[id].(status := Approved, review := reviewer), WasApproved(id, reviewer))
      case Reject(id, reviewer, reason) =>
        if !HasStatus(s, id, Pending) then s
        else Decide(s, id, s.requests[id].(status := Rejected, review := reviewer, result := reason),
                    WasRejected(id, reviewer))
      case Begin(t, id) => if !HasStatus(s, id, Approved) then s else Begun(s, t, id)
      case Perform(t, ok) => Performed(s, t, ok)
      case Finish(t) => Finished(s, t)
  }

  ghost function Run(es: seq<Event>): State {
    if es == [] then INITIAL else Next(Run(es[..|es| - 1]), es[|es| - 1])
  }

  // ----- the code -----

  class Coordinator {
    var requests: map<Id, MergeRequest>
    var inFlight: map<nat, Execution>
    ghost var log: seq<Entry>

    ghost function Now(): State
      reads this
    {
      State(requests, inFlight, log)
    }

    constructor ()
      ensures Now() == INITIAL
    {
      requests, inFlight, log := map[], map[], [];
    }

    method RequestMerge(id: Id, source: string, target: string, requester: string, strategy: MergeStrategy)
      requires Enabled(Now(), Request(id, source, target, requester, strategy))
      modifies this
      ensures Now() == Next(old(Now()), Request(id, source, target, requester, strategy))
    {
      requests := requests[id := MergeRequest(id, source, target, requester, strategy, Pending, "", "")];
    }

    method ApproveMerge(id: Id, reviewer: string) returns (ok: bool)
      modifies this
      ensures Now() == Next(old(Now()), Approve(id, reviewer))
      ensures ok == HasStatus(old(Now()), id, Pending)
    {
      if id !in requests { return false; }
      if requests[id].status != Pending { return false; }
      requests := requests[id := requests[id].(status := Approved)];
      requests := requests[id := requests[id].(review := reviewer)];
      log := log + [WasApproved(id, reviewer)];
      return true;
    }

    method RejectMerge(id: Id, reviewer: string, reason: string) returns (ok: bool)
      modifies this
      ensures Now() == Next(old(Now()), Reject(id, reviewer, reason))
      ensures ok == HasStatus(old(Now()), id, Pending)
    {
      if id !in requests { return false; }
      if requests[id].status != Pending { return false; }
      requests := requests[id := requests[id].(status := Rejected, review := reviewer, result := reason)];
      log := log + [WasRejected(id, reviewer)];
      return true;
    }

    /** The check of execute_merge: copies the request if it may be executed. */
    method BeginExecute(thread: nat, id: Id) returns (ok: bool)
      requires Enabled(Now(), Begin(thread, id))
      modifies this
      ensures Now() == Next(old(Now()), Begin(thread, id))
      ensures ok == HasStatus(old(Now()), id, Approved)
    {
      if id !in requests { return false; }
      if requests[id].status != Approved { return false; }
      inFlight := inFlight[thread := Execution(requests[id], None)];
      log := log + [WasBegun(id)];
      return true;
    }

    /** The merge itself, without the lock; git decides whether it works. */
    method PerformMerge(thread: nat, ok: bool)
      requires Enabled(Now(), Perform(thread, ok))
      modifies this
      ensures Now() == Next(old(Now()), Perform(thread, ok))
    {
      log := log + [WasPerformed(inFlight[thread].request.id, ok)];
      inFlight := inFlight[thread := inFlight[thread].(outcome := Some(ok))];
    }

    /** The write-back of execute_merge. In every run the request is still there (InFlightIsDecided). */
    method FinishExecute(thread: nat) returns (ok: bool)
      requires Enabled(Now(), Finish(thread))
      modifies this
      ensures Now() == Next(old(Now()), Finish(thread))
      ensures ok == (old(inFlight[thread].request.id in requests) && old(inFlight[thread].outcome.value))
    {
      var id := inFlight[thread].request.id;
      ok := inFlight[thread].outcome.value;
      inFlight := inFlight - {thread};
      if id !in requests { return false; }
      requests := requests[id := requests[id].(
        status := if ok then Completed else Failed,
        result := if ok then "merged successfully" else "merge conflict or error")];
      log := log + [WasFinished(id, ok)];
    }
  }

  // ----- the invariant -----

  /** The part of the log about one request. */
  ghost function About(log: seq<Entry>, id: Id): seq<Entry> {
    if log == [] then []
    else
      var last := log[|log| - 1];
      About(log[..|log| - 1], id) + if last.id == id then [last] else []
  }

  ghost predicate ExecutionEntry(e: Entry) {
    e.WasBegun? || e.WasPerformed? || e.WasFinished?
  }

  ghost predicate Decided(status: Status) {
    status == Approved || status == Completed || status == Failed
  }

  function Lookup(s: State, id: Id): Option<MergeRequest> {
    if id in s.requests then Some(s.requests[id]) else None
  }

  /** What the history of a request looks like in each status. */
  ghost predicate HistoryFits(r: Option<MergeRequest>, h: seq<Entry>, id: Id) {
    if r.None? || r.value.status == Pending then h == []
    else if r.value.status == Rejected then h == [WasRejected(id, r.value.review)]
    else
      && h != [] && h[0] == WasApproved(id, r.value.review)
      && forall k :: 1 <= k < |h| ==> ExecutionEntry(h[k])
  }

  ghost predicate SameRequest(copy: MergeRequest, r: MergeRequest) {
    copy.(status := r.status, result := r.result) == r
  }

  ghost predicate ExecutionFits(s: State, x: Execution) {
    && x.request.id in s.requests
    && x.request.status == Approved
    && SameRequest(x.request, s.requests[x.request.id])
    && Decided(s.requests[x.request.id].status)
  }

  ghost function InFlightOf(m: map<nat, Execution>, id: Id): set<nat> {
    set t | t in m && m[t].request.id == id
  }

  ghost function PerformedInFlight(m: map<nat, Execution>, id: Id): set<nat> {
    set t | t in m && m[t].request.id == id && m[t].outcome.Some?
  }

  datatype Counts = Counts(begun: nat, performed: nat, finished: nat)

  ghost function Counted(c: Counts, e: Entry): Counts {
    Counts(c.begun + if e.WasBegun? then 1 else 0,
           c.performed + if e.WasPerformed? then 1 else 0,
           c.finished + if e.WasFinished? then 1 else 0)
  }

  ghost function Count(h: seq<Entry>): Counts {
    if h == [] then Counts(0, 0, 0) else Counted(Count(h[..|h| - 1]), h[|h| - 1])
  }

  /** Each begun execution is finished or in flight, and each performed one is finished or about to be. */
  ghost predicate CountsFit(r: Option<MergeRequest>, c: Counts, running: nat, performed: nat) {
    && c.begun == c.finished + running
    && c.performed == c.finished + performed
    && (r.Some? && r.value.status in {Completed, Failed} <==> c.finished > 0)
  }

  ghost predicate Fits(s: State, id: Id) {
    && HistoryFits(Lookup(s, id), About(s.log, id), id)
    && CountsFit(Lookup(s, id), Count(About(s.log, id)),
                 |InFlightOf(s.inFlight, id)|, |PerformedInFlight(s.inFlight, id)|)
  }

  ghost predicate Inv(s: State) {
    && (forall id :: id in s.requests ==> s.requests[id].id == id)
    && (forall t :: t in s.inFlight ==> ExecutionFits(s, s.inFlight[t]))
    && (forall id :: Fits(s, id))
  }

  lemma AboutSnoc(log: seq<Entry>, e: Entry, id: Id)
    ensures About(log + [e], id) == About(log, id) + if e.id == id then [e] else []
    ensures Count(About(log, id) + [e]) == Counted(Count(About(log, id)), e)
  {
    assert (log + [e])[..|log|] == log;
    var h := About(log, id);
    assert (h + [e])[..|h|] == h;
  }

  lemma AddExecution(m: map<nat, Execution>, t: nat, x: Execution, id: Id)
    requires t !in m
    ensures |InFlightOf(m[t := x], id)| == |InFlightOf(m, id)| + if x.request.id == id then 1 else 0
    ensures x.outcome.None? ==> |PerformedInFlight(m[t := x], id)| == |PerformedInFlight(m, id)|
  {
    if x.request.id == id {
      assert InFlightOf(m[t := x], id) == InFlightOf(m, id) + {t};
    } else {
      assert InFlightOf(m[t := x], id) == InFlightOf(m, id);
    }
    if x.outcome.None? {
      assert PerformedInFlight(m[t := x], id) == PerformedInFlight(m, id);
    }
  }

  lemma PerformExecution(m: map<nat, Execution>, t: nat, ok: bool, id: Id)
    requires t in m && m[t].outcome.None?
    ensures var m' := m[t := m[t].(outcome := Some(ok))];
            && |InFlightOf(m', id)| == |InFlightOf(m, id)|
            && |PerformedInFlight(m', id)| == |PerformedInFlight(m, id)| + if m[t].request.id == id then 1 else 0
  {
    var m' := m[t := m[t].(outcome := Some(ok))];
    assert InFlightOf(m', id) == InFlightOf(m, id);
    if m[t].request.id == id {
      assert PerformedInFlight(m', id) == PerformedInFlight(m, id) + {t};
    } else {
      assert PerformedInFlight(m', id) == PerformedInFlight(m, id);
    }
  }

  lemma RemoveRunning(m: map<nat, Execution>, t: nat, id: Id)
    requires t in m
    ensures |InFlightOf(m - {t}, id)| == |InFlightOf(m, id)| - if m[t].request.id == id then 1 else 0
  {
    assert InFlightOf(m - {t}, id) == InFlightOf(m, id) - {t};
    if m[t].request.id == id {
      SizeWithout(InFlightOf(m, id), t);
    } else {
      assert InFlightOf(m, id) - {t} == InFlightOf(m, id);
    }
  }

  lemma RemovePerformed(m: map<nat, Execution>, t: nat, id: Id)
    requires t in m && m[t].outcome.Some?
    ensures |PerformedInFlight(m - {t}, id)| == |PerformedInFlight(m, id)| - if m[t].request.id == id then 1 else 0
  {
    assert PerformedInFlight(m - {t}, id) == PerformedInFlight(m, id) - {t};
    if m[t].request.id == id {
      SizeWithout(PerformedInFlight(m, id), t);
    } else {
      assert PerformedInFlight(m, id) - {t} == PerformedInFlight(m, id);
    }
  }

  lemma ExecutionExtendsHistory(r: MergeRequest, r': MergeRequest, h: seq<Entry>, e: Entry, id: Id)
    requires HistoryFits(Some(r), h, id) && Decided(r.status) && ExecutionEntry(e)
    requires Decided(r'.status) && r'.review == r.review
    ensures HistoryFits(Some(r'), h + [e], id)
  {
  }

  lemma RequestFits(s: State, id: Id, r: MergeRequest, k: Id)
    requires id !in s.requests && r.status == Pending && Fits(s, k)
    ensures Fits(s.(requests := s.requests[id := r]), k)
  {
  }

  lemma DecisionFits(s: State, id: Id, decided: MergeRequest, e: Entry, k: Id)
    requires HasStatus(s, id, Pending) && Fits(s, k) && e.id == id
    requires (decided.status == Approved && e == WasApproved(id, decided.review)) ||
             (decided.status == Rejected && e == WasRejected(id, decided.review))
    ensures Fits(Decide(s, id, decided, e), k)
  {
    AboutSnoc(s.log, e, k);
    assert k != id ==> About(s.log + [e], k) == About(s.log, k);
  }

  lemma BeginFits(s: State, t: nat, id: Id, k: Id)
    requires t !in s.inFlight && HasStatus(s, id, Approved) && s.requests[id].id == id && Fits(s, k)
    ensures Fits(Begun(s, t, id), k)
  {
    AboutSnoc(s.log, WasBegun(id), k);
    AddExecution(s.inFlight, t, Execution(s.requests[id], None), k);
    if k == id { ExecutionExtendsHistory(s.requests[k], s.requests[k], About(s.log, k), WasBegun(id), k); }
    assert k != id ==> About(s.log + [WasBegun(id)], k) == About(s.log, k);
  }

  lemma PerformFits(s: State, t: nat, ok: bool, k: Id)
    requires Enabled(s, Perform(t, ok)) && ExecutionFits(s, s.inFlight[t]) && Fits(s, k)
    ensures Fits(Performed(s, t, ok), k)
  {
    var e := WasPerformed(s.inFlight[t].request.id, ok);
    AboutSnoc(s.log, e, k);
    PerformExecution(s.inFlight, t, ok, k);
    if k == e.id { ExecutionExtendsHistory(s.requests[k], s.requests[k], About(s.log, k), e, k); }
    assert Lookup(Performed(s, t, ok), k) == Lookup(s, k);
    assert k != e.id ==> About(s.log + [e], k) == About(s.log, k);
  }

  lemma FinishFits(s: State, t: nat, k: Id)
    requires Enabled(s, Finish(t)) && ExecutionFits(s, s.inFlight[t]) && Fits(s, k)
    ensures Fits(Finished(s, t), k)
  {
    var e := WasFinished(s.inFlight[t].request.id, s.inFlight[t].outcome.value);
    AboutSnoc(s.log, e, k);
    RemoveRunning(s.inFlight, t, k);
    RemovePerformed(s.inFlight, t, k);
    if k == e.id { ExecutionExtendsHistory(s.requests[k], OutcomeOf(s.requests[k], e.ok), About(s.log, k), e, k); }
    assert k != e.id ==> About(s.log + [e], k) == About(s.log, k);
  }

  lemma NextFits(s: State, e: Event, k: Id)
    requires Inv(s)
    ensures Fits(Next(s, e), k)
  {
    if Enabled(s, e) {
      match e
      case Request(id, _, _, _, _) => RequestFits(s, id, Next(s, e).requests[id], k);
      case Approve(id, reviewer) =>
        if HasStatus(s, id, Pending) {
          DecisionFits(s, id, Next(s, e).requests[id], WasApproved(id, reviewer), k);
        }
      case Reject(id, reviewer, _) =>
        if HasStatus(s, id, Pending) {
          DecisionFits(s, id, Next(s, e).requests[id], WasRejected(id, reviewer), k);
        }
      case Begin(t, id) => if HasStatus(s, id, Approved) { BeginFits(s, t, id, k); }
      case Perform(t, ok) => PerformFits(s, t, ok, k);
      case Finish(t) => FinishFits(s, t, k);
    }
  }

  lemma NextKeepsInv(s: State, e: Event)
    requires Inv(s)
    ensures Inv(Next(s, e))
  {
    forall k ensures Fits(Next(s, e), k) {
      NextFits(s, e, k);
    }
  }

  lemma {:induction false} RunKeepsInv(es: seq<Event>)
    ensures Inv(Run(es))
  {
    if es == [] {
      forall id ensures Fits(INITIAL, id) {
        assert InFlightOf(map[], id) == {} && PerformedInFlight(map[], id) == {};
      }
    } else {
      RunKeepsInv(es[..|es| - 1]);
      NextKeepsInv(Run(es[..|es| - 1]), es[|es| - 1]);
    }
  }

  // ----- what holds in every run -----

  /** An execution past its check belongs to a request that was approved and is approved, completed or failed,
      unchanged since the copy but for its status and result. */
  lemma InFlightIsDecided(es: seq<Event>, t: nat)
    requires t in Run(es).inFlight
    ensures var s := Run(es); var copy := s.inFlight[t].request;
            && copy.id in s.requests
            && copy.status == Approved
            && Decided(s.requests[copy.id].status)
            && SameRequest(copy, s.requests[copy.id])
  {
    RunKeepsInv(es);
    assert ExecutionFits(Run(es), Run(es).inFlight[t]);
  }

  /** How a request may change: its description never; once it is decided it is never pending again and its
      reviewer stays; once it is rejected it does not change at all. */
  ghost predicate Later(r: MergeRequest, r': MergeRequest) {
    && r'.(status := r.status, review := r.review, result := r.result) == r
    && (r.status != Pending ==> r'.status != Pending && r'.review == r.review)
    && (Decided(r.status) ==> Decided(r'.status))
    && (r.status == Rejected ==> r' == r)
  }

  lemma StepIsLater(s: State, e: Event, id: Id)
    requires Inv(s) && id in s.requests
    ensures id in Next(s, e).requests && Later(s.requests[id], Next(s, e).requests[id])
  {
    if e.Finish? && Enabled(s, e) {
      assert ExecutionFits(s, s.inFlight[e.thread]);
    }
  }

  /** Rejected is final, nothing returns to pending, and the reviewer is frozen by the decision. */
  lemma {:induction false} RequestsOnlyMoveForward(es: seq<Event>, n: nat, id: Id)
    requires n <= |es| && id in Run(es[..n]).requests
    ensures id in Run(es).requests && Later(Run(es[..n]).requests[id], Run(es).requests[id])
  {
    if n == |es| {
      assert es[..n] == es;
    } else {
      var front := es[..|es| - 1];
      assert front[..n] == es[..n];
      RequestsOnlyMoveForward(front, n, id);
      RunKeepsInv(front);
      StepIsLater(Run(front), es[|es| - 1], id);
    }
  }

  lemma {:induction false} AboutMembers(log: seq<Entry>, id: Id, e: Entry)
    ensures e in About(log, id) <==> e in log && e.id == id
  {
    if log == [] {
    } else {
      AboutMembers(log[..|log| - 1], id, e);
      assert log == log[..|log| - 1] + [log[|log| - 1]];
    }
  }

  lemma {:induction false} AboutPrefix(log: seq<Entry>, i: nat, id: Id)
    requires i <= |log|
    ensures About(log[..i], id) <= About(log, id)
    ensures i < |log| && log[i].id == id ==> About(log[..i], id) + [log[i]] <= About(log, id)
  {
    if i < |log| {
      var front := log[..|log| - 1];
      assert front[..i] == log[..i];
      AboutPrefix(front, i, id);
    } else {
      assert log[..i] == log;
    }
  }

  /** The first entry about a request comes before every other entry about it. */
  lemma FirstEntryComesFirst(log: seq<Entry>, id: Id, i: nat)
    requires i < |log| && log[i].id == id
    ensures About(log, id) != [] && (About(log, id)[0] == log[i] || About(log, id)[0] in log[..i])
  {
    AboutPrefix(log, i, id);
    var before := About(log[..i], id);
    if before != [] {
      assert About(log, id)[0] == before[0];
      AboutMembers(log[..i], id, before[0]);
    }
  }

  lemma HistoryOfExecuted(r: Option<MergeRequest>, h: seq<Entry>, id: Id, e: Entry)
    requires HistoryFits(r, h, id) && e in h && ExecutionEntry(e)
    ensures r.Some? && h[0] == WasApproved(id, r.value.review)
    ensures forall x :: x in h ==> !x.WasRejected?
  {
  }

  /** Every merge that ran was approved before, by the reviewer the request still names, and its request was
      never rejected. */
  lemma PerformedWasApproved(es: seq<Event>, i: nat)
    requires i < |Run(es).log| && Run(es).log[i].WasPerformed?
    ensures var s := Run(es); var id := s.log[i].id;
            && id in s.requests
            && WasApproved(id, s.requests[id].review) in s.log[..i]
            && (forall e :: e in s.log && e.id == id ==> !e.WasRejected?)
  {
    RunKeepsInv(es);
    var s := Run(es);
    var id := s.log[i].id;
    assert Fits(s, id);
    AboutMembers(s.log, id, s.log[i]);
    HistoryOfExecuted(Lookup(s, id), About(s.log, id), id, s.log[i]);
    FirstEntryComesFirst(s.log, id, i);
    forall e | e in s.log && e.id == id ensures !e.WasRejected? {
      AboutMembers(s.log, id, e);
    }
  }

  // ----- where a request's fields come from -----

  /** Position i is the request that was made under this id. */
  ghost predicate RequestedAt(es: seq<Event>, i: nat, id: Id, r: MergeRequest) {
    && i < |es| && Enabled(Run(es[..i]), es[i])
    && es[i] == Request(id, r.sourceBranch, r.targetBranch, r.requester, r.strategy)
  }

  /** Position i decided the request: it was pending, and the reviewer and the reason are those given. */
  ghost predicate DecidedAt(es: seq<Event>, i: nat, id: Id, r: MergeRequest) {
    && i < |es| && HasStatus(Run(es[..i]), id, Pending)
    && es[i] == if r.status == Rejected then Reject(id, r.review, r.result) else Approve(id, r.review)
  }

  /** Position i wrote the outcome: the merge of a copy of this request had run with it. */
  ghost predicate WrittenAt(es: seq<Event>, i: nat, id: Id, r: MergeRequest) {
    && i < |es| && es[i].Finish? && Enabled(Run(es[..i]), es[i])
    && Run(es[..i]).inFlight[es[i].thread].request.id == id
    && Run(es[..i]).inFlight[es[i].thread].outcome == Some(r.status == Completed)
    && r.result == if r.status == Completed then "merged successfully" else "merge conflict or error"
  }

  ghost predicate Accounted(es: seq<Event>, id: Id, r: MergeRequest) {
    && (exists i :: RequestedAt(es, i, id, r))
    && (r.status != Pending ==> exists i :: DecidedAt(es, i, id, r))
    && (r.status == Pending ==> r.review == "" && r.result == "")
    && (r.status == Approved ==> r.result == "")
    && (r.status in {Completed, Failed} ==> exists i :: WrittenAt(es, i, id, r))
  }

  lemma PositionsStay(front: seq<Event>, e: Event, i: nat, id: Id, r: MergeRequest)
    requires i < |front|
    ensures RequestedAt(front, i, id, r) ==> RequestedAt(front + [e], i, id, r)
    ensures DecidedAt(front, i, id, r) ==> DecidedAt(front + [e], i, id, r)
    ensures WrittenAt(front, i, id, r) ==> WrittenAt(front + [e], i, id, r)
  {
    assert (front + [e])[..i] == front[..i] && (front + [e])[i] == front[i];
  }

  lemma AccountedStays(front: seq<Event>, e: Event, id: Id, r: MergeRequest)
    requires Accounted(front, id, r)
    ensures Accounted(front + [e], id, r)
  {
    var i :| RequestedAt(front, i, id, r);
    PositionsStay(front, e, i, id, r);
    if r.status != Pending {
      var j :| DecidedAt(front, j, id, r);
      PositionsStay(front, e, j, id, r);
    }
    if r.status in {Completed, Failed} {
      var j :| WrittenAt(front, j, id, r);
      PositionsStay(front, e, j, id, r);
    }
  }

  /** The request and the decision stay what they were when only the outcome is written. */
  lemma SameOrigin(es: seq<Event>, id: Id, r: MergeRequest, r': MergeRequest)
    requires Accounted(es, id, r) && SameRequest(r, r') && r.status != Pending && r.status != Rejected
    requires r'.status != Pending && r'.status != Rejected
    ensures exists i :: RequestedAt(es, i, id, r')
    ensures exists i :: DecidedAt(es, i, id, r')
  {
    var i :| RequestedAt(es, i, id, r);
    assert RequestedAt(es, i, id, r');
    var j :| DecidedAt(es, j, id, r);
    assert DecidedAt(es, j, id, r');
  }

  lemma NewRequestIsAccounted(front: seq<Event>, e: Event)
    requires e.Request? && Enabled(Run(front), e)
    ensures e.id in Next(Run(front), e).requests && Accounted(front + [e], e.id, Next(Run(front), e).requests[e.id])
  {
    var es, r := front + [e], Next(Run(front), e).requests[e.id];
    assert es[..|front|] == front && es[|front|] == e;
    assert RequestedAt(es, |front|, e.id, r);
  }

  lemma DecisionIsAccounted(front: seq<Event>, e: Event)
    requires (e.Approve? || e.Reject?) && HasStatus(Run(front), e.id, Pending)
    requires Accounted(front, e.id, Run(front).requests[e.id])
    ensures e.id in Next(Run(front), e).requests && Accounted(front + [e], e.id, Next(Run(front), e).requests[e.id])
  {
    var es, r, r' := front + [e], Run(front).requests[e.id], Next(Run(front), e).requests[e.id];
    assert es[..|front|] == front && es[|front|] == e;
    var i :| RequestedAt(front, i, e.id, r);
    PositionsStay(front, e, i, e.id, r);
    assert RequestedAt(es, i, e.id, r');
    assert DecidedAt(es, |front|, e.id, r');
  }

  lemma OutcomeIsAccounted(front: seq<Event>, e: Event)
    requires Inv(Run(front)) && e.Finish? && Enabled(Run(front), e)
    requires var id := Run(front).inFlight[e.thread].request.id;
             id in Run(front).requests ==> Accounted(front, id, Run(front).requests[id])
    ensures var id := Run(front).inFlight[e.thread].request.id;
            id in Next(Run(front), e).requests && Accounted(front + [e], id, Next(Run(front), e).requests[id])
  {
    var x := Run(front).inFlight[e.thread];
    var id := x.request.id;
    assert ExecutionFits(Run(front), x);
    var es, r, r' := front + [e], Run(front).requests[id], Next(Run(front), e).requests[id];
    assert es[..|front|] == front && es[|front|] == e;
    AccountedStays(front, e, id, r);
    SameOrigin(es, id, r, r');
    assert WrittenAt(es, |front|, id, r');
  }

  /** The one id whose stored request an event changes. */
  ghost function Changed(s: State, e: Event): Option<Id> {
    if !Enabled(s, e) then None
    else match e
      case Request(id, _, _, _, _) => Some(id)
      case Approve(id, _) => if HasStatus(s, id, Pending) then Some(id) else None
      case Reject(id, _, _) => if HasStatus(s, id, Pending) then Some(id) else None
      case Begin(_, _) => None
      case Perform(_, _) => None
      case Finish(t) => Some(s.inFlight[t].request.id)
  }

  lemma OthersAreUnchanged(s: State, e: Event, id: Id)
    requires Changed(s, e) != Some(id)
    ensures Lookup(Next(s, e), id) == Lookup(s, id)
  {
  }

  /** After any run every stored request is what was asked for under its id, decided as the event says that decided it,
      with the outcome of a merge of it that ran. */
  lemma {:induction false} RequestsAreAccounted(es: seq<Event>, id: Id)
    requires id in Run(es).requests
    ensures Accounted(es, id, Run(es).requests[id])
  {
    if es == [] {
      assert false;
    } else {
      var front, e := es[..|es| - 1], es[|es| - 1];
      assert es == front + [e];
      RunKeepsInv(front);
      if id in Run(front).requests { RequestsAreAccounted(front, id); }
      if Changed(Run(front), e) != Some(id) {
        OthersAreUnchanged(Run(front), e, id);
        AccountedStays(front, e, id, Run(front).requests[id]);
      } else if e.Request? {
        NewRequestIsAccounted(front, e);
      } else if e.Finish? {
        OutcomeIsAccounted(front, e);
      } else {
        DecisionIsAccounted(front, e);
      }
    }
  }

  /** And what an execution in flight merges is the very request that was made. */
  lemma InFlightIsAsRequested(es: seq<Event>, t: nat)
    requires t in Run(es).inFlight
    ensures var copy := Run(es).inFlight[t].request;
            && (exists i :: RequestedAt(es, i, copy.id, copy))
            && Approve(copy.id, copy.review) in es
  {
    RunKeepsInv(es);
    var s := Run(es);
    var copy := s.inFlight[t].request;
    assert ExecutionFits(s, s.inFlight[t]);
    var r := s.requests[copy.id];
    RequestsAreAccounted(es, copy.id);
    var i :| RequestedAt(es, i, copy.id, r);
    assert RequestedAt(es, i, copy.id, copy);
    var j :| DecidedAt(es, j, copy.id, r);
  }

  // ----- overlapping executions -----

  ghost function CountsOf(es: seq<Event>, id: Id): Counts {
    Count(About(Run(es).log, id))
  }

  ghost function Running(es: seq<Event>, id: Id): set<nat> {
    InFlightOf(Run(es).inFlight, id)
  }

  /** At no point of the run are two executions of the request in flight at once. */
  ghost predicate NeverOverlaps(es: seq<Event>, id: Id) {
    |Running(es, id)| <= 1 && (es != [] ==> NeverOverlaps(es[..|es| - 1], id))
  }

  lemma LogGrowsByOne(s: State, e: Event)
    requires Inv(s)
    ensures var log := Next(s, e).log;
            log == s.log || exists x :: log == s.log + [x] && (x.WasBegun? ==> HasStatus(s, x.id, Approved))
  {
  }

  lemma StepCounts(s: State, e: Event, id: Id)
    requires Inv(s)
    ensures var c, c' := Count(About(s.log, id)), Count(About(Next(s, e).log, id));
            && c.begun <= c'.begun <= c.begun + 1
            && c.finished <= c'.finished
            && (c'.begun > c.begun ==> c.finished == c'.finished == 0)
  {
    assert Fits(s, id);
    LogGrowsByOne(s, e);
    if Next(s, e).log != s.log {
      var x :| Next(s, e).log == s.log + [x] && (x.WasBegun? ==> HasStatus(s, x.id, Approved));
      AboutSnoc(s.log, x, id);
      assert x.id != id ==> About(s.log + [x], id) == About(s.log, id);
    }
  }

  /** A request is begun at most once if and only if its executions never overlap; then it is also performed at
      most once and written back at most once. */
  lemma {:induction false} BegunOnceIffNoOverlap(es: seq<Event>, id: Id)
    ensures CountsOf(es, id).begun <= 1 <==> NeverOverlaps(es, id)
    ensures NeverOverlaps(es, id) ==> CountsOf(es, id).performed <= 1 && CountsOf(es, id).finished <= 1
  {
    RunKeepsInv(es);
    assert Fits(Run(es), id);
    assert PerformedInFlight(Run(es).inFlight, id) <= Running(es, id);
    SubsetSize(PerformedInFlight(Run(es).inFlight, id), Running(es, id));
    if es == [] {
    } else {
      var front := es[..|es| - 1];
      BegunOnceIffNoOverlap(front, id);
      RunKeepsInv(front);
      StepCounts(Run(front), es[|es| - 1], id);
    }
  }

  // ----- when a written outcome is final -----

  lemma AlsoRun(es: seq<Event>, e: Event) returns (longer: seq<Event>)
    ensures longer == es + [e] && Run(longer) == Next(Run(es), e)
  {
    longer := es + [e];
    assert longer[..|es|] == es;
  }

  /** The text written with each outcome. */
  ghost predicate ResultFits(r: MergeRequest) {
    r.status in {Completed, Failed} ==> r == OutcomeOf(r, r.status == Completed)
  }

  lemma ResultFitsStep(s: State, e: Event, id: Id)
    requires Inv(s) && id in Next(s, e).requests && (id in s.requests ==> ResultFits(s.requests[id]))
    ensures ResultFits(Next(s, e).requests[id])
  {
  }

  lemma {:induction false} ResultsFit(es: seq<Event>, id: Id)
    requires id in Run(es).requests
    ensures ResultFits(Run(es).requests[id])
  {
    if es == [] {
      assert false;
    } else {
      var front := es[..|es| - 1];
      RunKeepsInv(front);
      if id in Run(front).requests { ResultsFit(front, id); }
      ResultFitsStep(Run(front), es[|es| - 1], id);
    }
  }

  ghost predicate HasOutcome(s: State, id: Id) {
    id in s.requests && s.requests[id].status in {Completed, Failed}
  }

  /** Every execution in flight has already run, with the very outcome that is written. */
  ghost predicate AllAgree(s: State, id: Id)
    requires id in s.requests
  {
    forall t :: t in InFlightOf(s.inFlight, id) ==>
      s.inFlight[t].outcome == Some(s.requests[id].status == Completed)
  }

  lemma AgreementStep(s: State, e: Event, id: Id)
    requires Inv(s) && HasOutcome(s, id) && AllAgree(s, id) && ResultFits(s.requests[id])
    ensures var s' := Next(s, e);
            id in s'.requests && s'.requests[id] == s.requests[id] && AllAgree(s', id)
  {
    assert forall t :: t in s.inFlight && s.inFlight[t].request.id == id ==> t in InFlightOf(s.inFlight, id);
  }

  /** Then the request never changes again. */
  lemma {:induction false} AgreementStays(es: seq<Event>, more: seq<Event>, id: Id)
    requires HasOutcome(Run(es), id) && AllAgree(Run(es), id)
    ensures var s, s' := Run(es), Run(es + more);
            id in s'.requests && s'.requests[id] == s.requests[id] && AllAgree(s', id)
    decreases |more|
  {
    if more == [] {
      assert es + more == es;
    } else {
      var front, e := more[..|more| - 1], more[|more| - 1];
      AgreementStays(es, front, id);
      RunKeepsInv(es + front);
      ResultsFit(es, id);
      AgreementStep(Run(es + front), e, id);
      var longer := AlsoRun(es + front, e);
      assert longer == es + more;
    }
  }

  lemma DissentStep(s: State, t: nat, id: Id)
    requires Inv(s) && HasOutcome(s, id) && t in InFlightOf(s.inFlight, id)
    ensures var done := s.requests[id].status == Completed;
            && (s.inFlight[t].outcome == Some(!done) ==>
                  HasStatus(Next(s, Finish(t)), id, if done then Failed else Completed))
            && (s.inFlight[t].outcome == None ==>
                  HasStatus(Next(Next(s, Perform(t, !done)), Finish(t)), id, if done then Failed else Completed))
  {
    assert s.inFlight[t].request.id == id;
  }

  /** An execution in flight that has not run, or ran with the other outcome, can still overturn what is written. */
  lemma DissentOverturns(es: seq<Event>, id: Id) returns (more: seq<Event>)
    requires HasOutcome(Run(es), id) && !AllAgree(Run(es), id)
    ensures HasOutcome(Run(es + more), id) && Run(es + more).requests[id].status != Run(es).requests[id].status
  {
    var s := Run(es);
    var done := s.requests[id].status == Completed;
    var t :| t in InFlightOf(s.inFlight, id) && s.inFlight[t].outcome != Some(done);
    RunKeepsInv(es);
    DissentStep(s, t, id);
    if s.inFlight[t].outcome == None {
      more := [Perform(t, !done), Finish(t)];
      var mid := AlsoRun(es, Perform(t, !done));
      var end := AlsoRun(mid, Finish(t));
      assert end == es + more;
    } else {
      more := [Finish(t)];
      var end := AlsoRun(es, Finish(t));
    }
  }

  ghost predicate StaysForGood(es: seq<Event>, id: Id)
    requires id in Run(es).requests
  {
    forall more :: id in Run(es + more).requests && Run(es + more).requests[id].status == Run(es).requests[id].status
  }

  /** After any run, a written outcome is final if and only if every execution of the request still in flight has
      already run with that very outcome; then not only the status but the whole request stays. */
  lemma OutcomeIsFinalIff(es: seq<Event>, id: Id)
    requires HasOutcome(Run(es), id)
    ensures StaysForGood(es, id) <==> AllAgree(Run(es), id)
    ensures AllAgree(Run(es), id) ==>
              forall more :: id in Run(es + more).requests && Run(es + more).requests[id] == Run(es).requests[id]
  {
    if AllAgree(Run(es), id) {
      forall more ensures id in Run(es + more).requests && Run(es + more).requests[id] == Run(es).requests[id] {
        AgreementStays(es, more, id);
      }
    } else {
      var more := DissentOverturns(es, id);
    }
  }

  lemma SettledStep(s: State, e: Event, id: Id)
    requires Inv(s) && HasOutcome(s, id) && InFlightOf(s.inFlight, id) == {}
    ensures HasOutcome(Next(s, e), id) && InFlightOf(Next(s, e).inFlight, id) == {}
  {
    assert forall t :: t in s.inFlight && s.inFlight[t].request.id == id ==> t in InFlightOf(s.inFlight, id);
  }

  lemma {:induction false} NothingReturns(es: seq<Event>, n: nat, id: Id)
    requires n <= |es| && HasOutcome(Run(es[..n]), id) && Running(es[..n], id) == {}
    ensures HasOutcome(Run(es), id) && Running(es, id) == {}
  {
    if n == |es| {
      assert es[..n] == es;
    } else {
      var front := es[..|es| - 1];
      assert front[..n] == es[..n];
      NothingReturns(front, n, id);
      RunKeepsInv(front);
      SettledStep(Run(front), es[|es| - 1], id);
    }
  }

  /** In particular a written outcome with nothing left in flight stays for good. */
  lemma SettledStays(es: seq<Event>, n: nat, id: Id)
    requires n <= |es| && HasOutcome(Run(es[..n]), id) && Running(es[..n], id) == {}
    ensures id in Run(es).requests && Run(es).requests[id] == Run(es[..n]).requests[id] && Running(es, id) == {}
  {
    NothingReturns(es, n, id);
    AgreementStays(es[..n], es[n..], id);
    assert es[..n] + es[n..] == es;
  }

  lemma {:induction false} NeverOverlapsPrefix(es: seq<Event>, n: nat, id: Id)
    requires NeverOverlaps(es, id) && n <= |es|
    ensures NeverOverlaps(es[..n], id)
  {
    if n == |es| {
      assert es[..n] == es;
    } else {
      assert es[..|es| - 1][..n] == es[..n];
      NeverOverlapsPrefix(es[..|es| - 1], n, id);
    }
  }

  /** If executions of a request never overlap, its first written outcome is final. */
  lemma OutcomeIsFinal(es: seq<Event>, n: nat, id: Id)
    requires NeverOverlaps(es, id) && n <= |es| && id in Run(es[..n]).requests
    requires Run(es[..n]).requests[id].status in {Completed, Failed}
    ensures id in Run(es).requests && Run(es).requests[id] == Run(es[..n]).requests[id]
  {
    NeverOverlapsPrefix(es, n, id);
    BegunOnceIffNoOverlap(es[..n], id);
    RunKeepsInv(es[..n]);
    assert Fits(Run(es[..n]), id);
    SettledStays(es, n, id);
  }

  /** Both threads past the check, in any state where the request is approved and the threads are free. */
  lemma BothBegin(s: State, id: Id, t: nat, u: nat)
    requires Inv(s) && HasStatus(s, id, Approved) && t !in s.inFlight && u !in s.inFlight && t != u
    ensures var s' := Next(Next(s, Begin(t, id)), Begin(u, id)); var x := Execution(s.requests[id], None);
            && s'.requests == s.requests
            && t in s'.inFlight && u in s'.inFlight && s'.inFlight[t] == x && s'.inFlight[u] == x
  {
  }

  lemma PerformAndFinish(s: State, t: nat, ok: bool)
    requires t in s.inFlight && s.inFlight[t].outcome.None? && s.inFlight[t].request.id in s.requests
    ensures var s' := Next(Next(s, Perform(t, ok)), Finish(t)); var id := s.inFlight[t].request.id;
            && HasStatus(s', id, if ok then Completed else Failed)
            && WasPerformed(id, ok) in s'.log
            && forall u :: u in s.inFlight && u != t ==> u in s'.inFlight && s'.inFlight[u] == s.inFlight[u]
  {
    var s1 := Next(s, Perform(t, ok));
    assert s1.log[|s.log|] == WasPerformed(s.inFlight[t].request.id, ok);
    assert Next(s1, Finish(t)).log[|s.log|] == s1.log[|s.log|];
  }

  /** Without that condition it fails, from every state with an approved request and two free threads: both pass
      the check, both merge, and the second write turns the completed request into a failed one. */
  lemma OverlapLosesTheOutcome(s: State, id: Id, t: nat, u: nat)
    requires Inv(s) && HasStatus(s, id, Approved) && t !in s.inFlight && u !in s.inFlight && t != u
    ensures var both := Next(Next(s, Begin(t, id)), Begin(u, id));
            var first := Next(Next(both, Perform(t, true)), Finish(t));
            var second := Next(Next(first, Perform(u, false)), Finish(u));
            && HasStatus(first, id, Completed) && WasPerformed(id, true) in first.log
            && HasStatus(second, id, Failed) && WasPerformed(id, false) in second.log
  {
    BothBegin(s, id, t, u);
    var both := Next(Next(s, Begin(t, id)), Begin(u, id));
    PerformAndFinish(both, t, true);
    PerformAndFinish(Next(Next(both, Perform(t, true)), Finish(t)), u, false);
  }

  /** Such a state is reached by requesting and approving a merge. */
  lemma OverlapIsReachable() returns (es: seq<Event>)
    ensures HasStatus(Run(es), "m", Approved) && Run(es).inFlight == map[]
  {
    es := AlsoRun([], Request("m", "topic", "main", "ann", Merge));
    es := AlsoRun(es, Approve("m", "bob"));
  }
}
