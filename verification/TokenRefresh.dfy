/** Refreshing a token is three separate calls, each under its own lock: the old token is validated, it is revoked,
    and a new one is issued. Other operations, and other refreshes of the same token, can come in between. */
module TokenRefresh {
  import opened AuthTokens
  import opened Sets
  import opened Wrappers

  /** A refresh past its check: the token it found, and whether it has revoked it yet. */
  datatype Refresh = Refresh(existing: AuthToken, revoked: bool)

  datatype Entry = Passed(id: string) | Renewed(id: string, token: AuthToken)

  /** The provider with the operations so far, the refreshes under way, named by their thread, and what became of
      refreshes, oldest first. */
  datatype Server = Server(state: State, ops: seq<Op>, refreshing: map<nat, Refresh>, log: seq<Entry>)

  datatype Event =
    | Do(op: Op)
    | Check(thread: nat, s: string, now: int)
    | RevokeOld(thread: nat)
    | IssueNew(thread: nat, newId: string, now: int, ttl: int)

  const FRESH := Server(State(map[], {}), [], map[], [])

  /** A thread runs one refresh at a time, in order. */
  predicate Possible(v: Server, e: Event) {
    match e
    case Do(_) => true
    case Check(t, _, _) => t !in v.refreshing
    case RevokeOld(t) => t in v.refreshing && !v.refreshing[t].revoked
    case IssueNew(t, _, _, _) => t in v.refreshing && v.refreshing[t].revoked
  }

  function Done(v: Server, op: Op): Server {
    v.(state := Apply(v.state, op), ops := v.ops + [op])
  }

  function Checked(v: Server, t: nat, found: Option<AuthToken>): Server {
    if found.None? then v
    else v.(refreshing := v.refreshing[t := Refresh(found.value, false)], log := v.log + [Passed(found.value.tokenId)])
  }

  function RevokedOld(v: Server, t: nat): Server
    requires t in v.refreshing
  {
    var r := v.refreshing[t];
    Done(v, Revoke(r.existing.tokenId)).(refreshing := v.refreshing[t := r.(revoked := true)])
  }

  function IssuedNew(v: Server, t: nat, token: AuthToken): Server
    requires t in v.refreshing
  {
    Done(v, Issue(token)).(refreshing := v.refreshing - {t},
                           log := v.log + [Renewed(v.refreshing[t].existing.tokenId, token)])
  }

  function Next(sign: string -> string, v: Server, e: Event): Server {
    if !Possible(v, e) then v
    else match e
      case Do(op) => Done(v, op)
      case Check(t, s, now) => Checked(v, t, Validate(sign, v.state, s, now))
      case RevokeOld(t) => RevokedOld(v, t)
      case IssueNew(t, newId, now, ttl) =>
        IssuedNew(v, t, Replacement(sign, v.refreshing[t].existing, newId, now, ttl))
  }

  ghost function After(sign: string -> string, es: seq<Event>): Server {
    if es == [] then FRESH else Next(sign, After(sign, es[..|es| - 1]), es[|es| - 1])
  }

  // ----- the invariant -----

  ghost function InFlight(m: map<nat, Refresh>, id: string): set<nat> {
    set t | t in m && m[t].existing.tokenId == id
  }

  ghost function Passes(log: seq<Entry>, id: string): nat {
    if log == [] then 0
    else Passes(log[..|log| - 1], id) + if log[|log| - 1] == Passed(id) then 1 else 0
  }

  ghost function Renewals(log: seq<Entry>, id: string): nat {
    if log == [] then 0
    else
      var e := log[|log| - 1];
      Renewals(log[..|log| - 1], id) + if e.Renewed? && e.id == id then 1 else 0
  }

  /** Each refresh that passed its check is under way or has issued its token, and it issues only after revoking. */
  ghost predicate Fits(v: Server, id: string) {
    && Passes(v.log, id) == Renewals(v.log, id) + |InFlight(v.refreshing, id)|
    && (Renewals(v.log, id) > 0 ==> Revoke(id) in v.ops)
  }

  /** The state is what the operations make of it, and a refresh has revoked its token when it says so. */
  ghost predicate Tracks(v: Server) {
    && v.state == Run(v.ops)
    && forall t :: t in v.refreshing && v.refreshing[t].revoked ==> Revoke(v.refreshing[t].existing.tokenId) in v.ops
  }

  ghost predicate Inv(v: Server) {
    Tracks(v) && forall id :: Fits(v, id)
  }

  lemma LogSnoc(log: seq<Entry>, e: Entry, id: string)
    ensures Passes(log + [e], id) == Passes(log, id) + if e == Passed(id) then 1 else 0
    ensures Renewals(log + [e], id) == Renewals(log, id) + if e.Renewed? && e.id == id then 1 else 0
  {
    assert (log + [e])[..|log|] == log;
  }

  lemma PutInFlight(m: map<nat, Refresh>, t: nat, r: Refresh, id: string)
    requires t !in m
    ensures |InFlight(m[t := r], id)| == |InFlight(m, id)| + if r.existing.tokenId == id then 1 else 0
  {
    if r.existing.tokenId == id {
      assert InFlight(m[t := r], id) == InFlight(m, id) + {t};
    } else {
      assert InFlight(m[t := r], id) == InFlight(m, id);
    }
  }

  lemma ReplaceInFlight(m: map<nat, Refresh>, t: nat, r: Refresh, id: string)
    requires t in m && m[t].existing == r.existing
    ensures InFlight(m[t := r], id) == InFlight(m, id)
  {
  }

  lemma TakeOutOfFlight(m: map<nat, Refresh>, t: nat, id: string)
    requires t in m
    ensures |InFlight(m - {t}, id)| == |InFlight(m, id)| - if m[t].existing.tokenId == id then 1 else 0
  {
    assert InFlight(m - {t}, id) == InFlight(m, id) - {t};
    if m[t].existing.tokenId == id {
      SizeWithout(InFlight(m, id), t);
    } else {
      assert InFlight(m, id) - {t} == InFlight(m, id);
    }
  }

  lemma CheckedFits(v: Server, t: nat, found: AuthToken, id: string)
    requires Fits(v, id) && t !in v.refreshing
    ensures Fits(Checked(v, t, Some(found)), id)
  {
    LogSnoc(v.log, Passed(found.tokenId), id);
    PutInFlight(v.refreshing, t, Refresh(found, false), id);
  }

  lemma RevokedOldFits(v: Server, t: nat, id: string)
    requires Fits(v, id) && t in v.refreshing
    ensures Fits(RevokedOld(v, t), id)
  {
    ReplaceInFlight(v.refreshing, t, v.refreshing[t].(revoked := true), id);
  }

  lemma IssuedNewFits(v: Server, t: nat, token: AuthToken, id: string)
    requires Fits(v, id) && t in v.refreshing && Revoke(v.refreshing[t].existing.tokenId) in v.ops
    ensures Fits(IssuedNew(v, t, token), id)
  {
    LogSnoc(v.log, Renewed(v.refreshing[t].existing.tokenId, token), id);
    TakeOutOfFlight(v.refreshing, t, id);
  }

  lemma StepFits(sign: string -> string, v: Server, e: Event, id: string)
    requires Inv(v) && Possible(v, e)
    ensures Fits(Next(sign, v, e), id)
  {
    assert Fits(v, id);
    match e
    case Do(_) =>
    case Check(t, s, now) =>
      var found := Validate(sign, v.state, s, now);
      if found.Some? { CheckedFits(v, t, found.value, id); }
    case RevokeOld(t) => RevokedOldFits(v, t, id);
    case IssueNew(t, newId, now, ttl) =>
      IssuedNewFits(v, t, Replacement(sign, v.refreshing[t].existing, newId, now, ttl), id);
  }

  lemma DoneTracks(v: Server, op: Op)
    requires Tracks(v)
    ensures Tracks(Done(v, op))
  {
    RunSnoc(v.ops, op);
    assert forall x :: x in v.ops ==> x in v.ops + [op];
  }

  lemma RevokedOldTracks(v: Server, t: nat)
    requires Tracks(v) && t in v.refreshing
    ensures Tracks(RevokedOld(v, t))
  {
    var op := Revoke(v.refreshing[t].existing.tokenId);
    DoneTracks(v, op);
    assert op in v.ops + [op];
  }

  lemma IssuedNewTracks(v: Server, t: nat, token: AuthToken)
    requires Tracks(v) && t in v.refreshing
    ensures Tracks(IssuedNew(v, t, token))
  {
    DoneTracks(v, Issue(token));
  }

  lemma NextTracks(sign: string -> string, v: Server, e: Event)
    requires Tracks(v) && Possible(v, e)
    ensures Tracks(Next(sign, v, e))
  {
    match e
    case Do(op) => DoneTracks(v, op);
    case Check(_, _, _) =>
    case RevokeOld(t) => RevokedOldTracks(v, t);
    case IssueNew(t, newId, now, ttl) =>
      IssuedNewTracks(v, t, Replacement(sign, v.refreshing[t].existing, newId, now, ttl));
  }

  lemma NextKeepsInv(sign: string -> string, v: Server, e: Event)
    requires Inv(v)
    ensures Inv(Next(sign, v, e))
  {
    if Possible(v, e) {
      NextTracks(sign, v, e);
      forall id ensures Fits(Next(sign, v, e), id) {
        StepFits(sign, v, e, id);
      }
    }
  }

  lemma {:induction false} AfterKeepsInv(sign: string -> string, es: seq<Event>)
    ensures Inv(After(sign, es))
  {
    if es == [] {
      forall id ensures Fits(FRESH, id) {
        assert InFlight(map[], id) == {};
      }
    } else {
      AfterKeepsInv(sign, es[..|es| - 1]);
      NextKeepsInv(sign, After(sign, es[..|es| - 1]), es[|es| - 1]);
    }
  }

  // ----- at most one replacement -----

  ghost function PassesIn(sign: string -> string, es: seq<Event>, id: string): nat {
    Passes(After(sign, es).log, id)
  }

  ghost function UnderWay(sign: string -> string, es: seq<Event>, id: string): set<nat> {
    InFlight(After(sign, es).refreshing, id)
  }

  /** At no point of the run are two refreshes of the token under way at once. */
  ghost predicate NeverOverlap(sign: string -> string, es: seq<Event>, id: string) {
    |UnderWay(sign, es, id)| <= 1 && (es != [] ==> NeverOverlap(sign, es[..|es| - 1], id))
  }

  lemma RevokedNeverPasses(sign: string -> string, v: Server, e: Event, id: string)
    requires Inv(v)
    ensures Passes(v.log, id) <= Passes(Next(sign, v, e).log, id) <= Passes(v.log, id) + 1
    ensures Revoke(id) in v.ops ==> Passes(Next(sign, v, e).log, id) == Passes(v.log, id)
  {
    RevokedAre(v.ops, id);
    var v' := Next(sign, v, e);
    if v'.log != v.log {
      LogSnoc(v.log, v'.log[|v.log|], id);
    }
  }

  /** However refreshes interleave, the check passes at most once for a token if and only if no two refreshes of it
      are ever under way at once; then at most one replacement is issued. */
  lemma {:induction false} RefreshedOnceIffNoOverlap(sign: string -> string, es: seq<Event>, id: string)
    ensures PassesIn(sign, es, id) <= 1 <==> NeverOverlap(sign, es, id)
    ensures NeverOverlap(sign, es, id) ==> Renewals(After(sign, es).log, id) <= 1
  {
    AfterKeepsInv(sign, es);
    assert Fits(After(sign, es), id);
    if es == [] {
    } else {
      var front := es[..|es| - 1];
      RefreshedOnceIffNoOverlap(sign, front, id);
      AfterKeepsInv(sign, front);
      assert Fits(After(sign, front), id);
      RevokedNeverPasses(sign, After(sign, front), es[|es| - 1], id);
    }
  }

  // ----- two replacements -----

  /** Both refreshes past their check, then each finishes on its own. */
  function BothRefresh(sign: string -> string, v: Server, s: string, t: nat, u: nat, e: Event, f: Event,
                       checked: int, checked': int): Server
  {
    var both := Next(sign, Next(sign, v, Check(t, s, checked)), Check(u, s, checked'));
    Next(sign, Next(sign, Next(sign, Next(sign, both, RevokeOld(t)), e), RevokeOld(u)), f)
  }

  lemma BothRefreshOps(sign: string -> string, v: Server, s: string, existing: AuthToken, t: nat, u: nat,
                       checked: int, checked': int, e: Event, f: Event)
    requires t !in v.refreshing && u !in v.refreshing && t != u
    requires Validate(sign, v.state, s, checked) == Validate(sign, v.state, s, checked') == Some(existing)
    requires e.IssueNew? && e.thread == t && f.IssueNew? && f.thread == u
    ensures BothRefresh(sign, v, s, t, u, e, f, checked, checked').ops ==
            v.ops + [Revoke(existing.tokenId)] + [Issue(Replacement(sign, existing, e.newId, e.now, e.ttl))] +
            [Revoke(existing.tokenId)] + [Issue(Replacement(sign, existing, f.newId, f.now, f.ttl))]
  {
  }

  lemma TwoIssued(sign: string -> string, ops: seq<Op>, id: string, a: AuthToken, b: AuthToken)
    requires Proper(sign, ops) && Genuine(sign, a) && Genuine(sign, b)
    requires Unused(ops, a.tokenId) && Unused(ops, b.tokenId)
    requires a.tokenId != b.tokenId && a.tokenId != id && b.tokenId != id
    ensures var all := ops + [Revoke(id)] + [Issue(a)] + [Revoke(id)] + [Issue(b)];
            && Proper(sign, all)
            && Issue(a) in all && Revoke(a.tokenId) !in all && Issue(b) in all && Revoke(b.tokenId) !in all
  {
    ProperSnoc(sign, ops, Revoke(id));
    UnusedSnoc(ops, Revoke(id), a.tokenId);
    UnusedSnoc(ops, Revoke(id), b.tokenId);
    var one := ops + [Revoke(id)];
    ProperSnoc(sign, one, Issue(a));
    UnusedSnoc(one, Issue(a), b.tokenId);
    var two := one + [Issue(a)];
    ProperSnoc(sign, two, Revoke(id));
    UnusedSnoc(two, Revoke(id), b.tokenId);
    var three := two + [Revoke(id)];
    ProperSnoc(sign, three, Issue(b));
  }

  lemma BothRefreshKeepsInv(sign: string -> string, v: Server, s: string, t: nat, u: nat, e: Event, f: Event,
                            checked: int, checked': int)
    requires Inv(v)
    ensures Inv(BothRefresh(sign, v, s, t, u, e, f, checked, checked'))
  {
    var v1 := Next(sign, v, Check(t, s, checked));
    var v2 := Next(sign, v1, Check(u, s, checked'));
    var v3 := Next(sign, v2, RevokeOld(t));
    var v4 := Next(sign, v3, e);
    var v5 := Next(sign, v4, RevokeOld(u));
    NextKeepsInv(sign, v, Check(t, s, checked));
    NextKeepsInv(sign, v1, Check(u, s, checked'));
    NextKeepsInv(sign, v2, RevokeOld(t));
    NextKeepsInv(sign, v3, e);
    NextKeepsInv(sign, v4, RevokeOld(u));
    NextKeepsInv(sign, v5, f);
  }

  lemma BothAreLive(sign: string -> string, ops: seq<Op>, existing: AuthToken, a: AuthToken, b: AuthToken, later: int)
    requires SignsWithoutDots(sign) && Proper(sign, ops) && Genuine(sign, a) && Genuine(sign, b)
    requires Issue(existing) in ops && Unused(ops, a.tokenId) && Unused(ops, b.tokenId) && a.tokenId != b.tokenId
    ensures var id := existing.tokenId;
            var end := Run(ops + [Revoke(id)] + [Issue(a)] + [Revoke(id)] + [Issue(b)]);
            && (later <= a.expiresAt ==> Validate(sign, end, a.tokenString, later) == Some(a))
            && (later <= b.expiresAt ==> Validate(sign, end, b.tokenString, later) == Some(b))
  {
    var id := existing.tokenId;
    TwoIssued(sign, ops, id, a, b);
    var all := ops + [Revoke(id)] + [Issue(a)] + [Revoke(id)] + [Issue(b)];
    ValidatesIff(sign, all, a.tokenString, later, a);
    ValidatesIff(sign, all, b.tokenString, later, b);
  }

  /** Without that condition it fails, from every state in which the string validates and two threads are free: both
      refreshes pass the check, and both new tokens are valid until they expire. */
  lemma OverlapIssuesTwo(sign: string -> string, v: Server, s: string, existing: AuthToken, t: nat, u: nat,
                         checked: int, checked': int, e: Event, f: Event, later: int)
    requires SignsWithoutDots(sign) && Inv(v) && Proper(sign, v.ops)
    requires t !in v.refreshing && u !in v.refreshing && t != u
    requires Validate(sign, v.state, s, checked) == Validate(sign, v.state, s, checked') == Some(existing)
    requires e.IssueNew? && e.thread == t && f.IssueNew? && f.thread == u && e.newId != f.newId
    requires ':' !in e.newId && ':' !in f.newId && Unused(v.ops, e.newId) && Unused(v.ops, f.newId)
    ensures var a := Replacement(sign, existing, e.newId, e.now, e.ttl);
            var b := Replacement(sign, existing, f.newId, f.now, f.ttl);
            var end := BothRefresh(sign, v, s, t, u, e, f, checked, checked').state;
            && (later <= a.expiresAt ==> Validate(sign, end, a.tokenString, later) == Some(a))
            && (later <= b.expiresAt ==> Validate(sign, end, b.tokenString, later) == Some(b))
  {
    var a := Replacement(sign, existing, e.newId, e.now, e.ttl);
    var b := Replacement(sign, existing, f.newId, f.now, f.ttl);
    ActiveAreIssued(v.ops, s);
    ReplacementIsGenuine(sign, existing, e.newId, e.now, e.ttl);
    ReplacementIsGenuine(sign, existing, f.newId, f.now, f.ttl);
    BothAreLive(sign, v.ops, existing, a, b, later);
    BothRefreshOps(sign, v, s, existing, t, u, checked, checked', e, f);
    BothRefreshKeepsInv(sign, v, s, t, u, e, f, checked, checked');
  }

  /** Such a state is reached by issuing a token. */
  lemma OverlapIsReachable(sign: string -> string, ttl: nat) returns (es: seq<Event>, token: AuthToken)
    requires SignsWithoutDots(sign)
    ensures var v := After(sign, es);
            && v.refreshing == map[] && Proper(sign, v.ops)
            && Validate(sign, v.state, token.tokenString, 0) == Some(token)
  {
    token := NewToken(sign, "id", "agent", Worker, "swarm", 0, ttl);
    es := [Do(Issue(token))];
    assert es[..0] == [];
    assert After(sign, es).ops == [Issue(token)];
    IssuedIsGenuine(sign, "id", "agent", Worker, "swarm", 0, ttl);
    ProperSnoc(sign, [], Issue(token));
    assert [] + [Issue(token)] == [Issue(token)];
    AfterKeepsInv(sign, es);
    ValidatesIff(sign, [Issue(token)], token.tokenString, 0, token);
  }

  // ----- one refresh alone -----

  /** With nothing in between, the three steps are one call of refresh_token: the same state, and the answer is the
      token the last step issued. */
  lemma AloneIsRefreshToken(sign: string -> string, v: Server, t: nat, s: string, checked: int, newId: string,
                            now: int, ttl: int)
    requires t !in v.refreshing
    ensures var end := Next(sign, Next(sign, Next(sign, v, Check(t, s, checked)), RevokeOld(t)),
                            IssueNew(t, newId, now, ttl));
            var after := Refreshed(sign, v.state, s, checked, newId, now, ttl);
            && end.state == after.0 && end.refreshing == v.refreshing
            && (after.1.None? ==> end.log == v.log && end.ops == v.ops)
            && (after.1.Some? ==>
                  exists id :: && end.log == v.log + [Passed(id)] + [Renewed(id, after.1.value)]
                               && end.ops == v.ops + [Revoke(id)] + [Issue(after.1.value)])
  {
    var was := Validate(sign, v.state, s, checked);
    if was.Some? {
      var id := was.value.tokenId;
      var v1 := Next(sign, v, Check(t, s, checked));
      var v2 := Next(sign, v1, RevokeOld(t));
      assert v1.refreshing[t] == Refresh(was.value, false);
      assert v2.refreshing[t] == Refresh(was.value, true);
      var end := Next(sign, v2, IssueNew(t, newId, now, ttl));
      var token := Replacement(sign, was.value, newId, now, ttl);
      assert end.log == v.log + [Passed(id)] + [Renewed(id, token)];
      assert end.ops == v.ops + [Revoke(id)] + [Issue(token)];
      assert end.refreshing == v.refreshing;
    }
  }
}
