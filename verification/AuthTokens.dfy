/** Access tokens: issuing, validating, revoking and refreshing. The keyed hash is a parameter, a function from
    payloads to signatures written without dots (hexadecimal digits). */
module AuthTokens {
  import opened Arithmetic
  import opened Wrappers

  datatype Role = Coordinator | Worker | Observer

  function RoleStr(r: Role): string {
    match r
    case Coordinator => "coordinator"
    case Worker => "worker"
    case Observer => "observer"
  }

  datatype AuthToken = AuthToken(
    tokenId: string,
    agentId: string,
    role: Role,
    swarmId: string,
    issuedAt: int,
    expiresAt: int,
    tokenString: string)

  function Digit(n: nat): char
    requires n < 10
  {
    ('0' as int + n) as char
  }

  function Digits(n: nat): string {
    if n < 10 then [Digit(n)] else Digits(n / 10) + [Digit(n % 10)]
  }

  function Decimal(n: int): string {
    if n < 0 then "-" + Digits(-n) else Digits(n)
  }

  function Payload(id: string, agent: string, role: Role, swarm: string, expiresAt: int): string {
    id + ":" + agent + ":" + RoleStr(role) + ":" + swarm + ":" + Decimal(TruncDiv(expiresAt, NANOS_PER_MILLI))
  }

  function Signed(payload: string, signature: string): string {
    payload + "." + signature
  }

  function NewToken(sign: string -> string, id: string, agent: string, role: Role, swarm: string,
                    now: int, ttl: int): AuthToken {
    var expiresAt := now + ttl * NANOS_PER_SECOND;
    var payload := Payload(id, agent, role, swarm, expiresAt);
    AuthToken(id, agent, role, swarm, now, expiresAt, Signed(payload, sign(payload)))
  }

  /** The position of the last dot. */
  function LastDot(s: string): (r: Option<nat>)
    ensures r.None? ==> forall k :: 0 <= k < |s| ==> s[k] != '.'
    ensures r.Some? ==> r.value < |s| && s[r.value] == '.' && forall k :: r.value < k < |s| ==> s[k] != '.'
  {
    if s == "" then None
    else if s[|s| - 1] == '.' then Some(|s| - 1)
    else LastDot(s[..|s| - 1])
  }

  datatype State = State(active: map<string, AuthToken>, revoked: set<string>)

  /** What stands after the last dot is the signature of what stands before it. */
  predicate PassesSignature(sign: string -> string, s: string) {
    var dot := LastDot(s);
    dot.Some? && s[dot.value + 1..] == sign(s[..dot.value])
  }

  function Validate(sign: string -> string, st: State, s: string, now: int): Option<AuthToken> {
    if !PassesSignature(sign, s) then None
    else if s !in st.active then None
    else if st.active[s].tokenId in st.revoked then None
    else if now > st.active[s].expiresAt then None
    else Some(st.active[s])
  }

  /** The steps that change the provider: a token is stored, or an id is revoked. */
  datatype Op = Issue(token: AuthToken) | Revoke(id: string)

  function Apply(st: State, op: Op): State {
    match op
    case Issue(token) => st.(active := st.active[token.tokenString := token])
    case Revoke(id) =>
      State(map s | s in st.active && st.active[s].tokenId != id :: st.active[s], st.revoked + {id})
  }

  /** The token a refresh issues: for the same agent, role and swarm. */
  function Replacement(sign: string -> string, was: AuthToken, newId: string, now: int, ttl: int): AuthToken {
    NewToken(sign, newId, was.agentId, was.role, was.swarmId, now, ttl)
  }

  /** A refresh with nothing in between: if the string validates, its token is revoked and one for the same agent,
      role and swarm is issued. */
  function Refreshed(sign: string -> string, st: State, s: string, checkedAt: int, newId: string, now: int, ttl: int):
      (State, Option<AuthToken>)
  {
    var was := Validate(sign, st, s, checkedAt);
    if was.None? then (st, None)
    else
      var renewed := Replacement(sign, was.value, newId, now, ttl);
      (Apply(Apply(st, Revoke(was.value.tokenId)), Issue(renewed)), Some(renewed))
  }

  class AuthProvider {
    const sign: string -> string
    var activeTokens: map<string, AuthToken>
    var revokedTokenIds: set<string>

    ghost function Now(): State
      reads this
    {
      State(activeTokens, revokedTokenIds)
    }

    constructor (sign: string -> string)
      ensures this.sign == sign && Now() == State(map[], {})
    {
      this.sign := sign;
      activeTokens, revokedTokenIds := map[], {};
    }

    method IssueToken(id: string, agent: string, role: Role, swarm: string, now: int, ttl: int)
      returns (token: AuthToken)
      modifies this
      ensures token == NewToken(sign, id, agent, role, swarm, now, ttl)
      ensures Now() == Apply(old(Now()), Issue(token))
    {
      var expiresAt := now + ttl * NANOS_PER_SECOND;
      var payload := Payload(id, agent, role, swarm, expiresAt);
      var signature := sign(payload);
      token := AuthToken(id, agent, role, swarm, now, expiresAt, Signed(payload, signature));
      activeTokens := activeTokens[token.tokenString := token];
    }

    method ValidateToken(s: string, now: int) returns (token: Option<AuthToken>)
      ensures token == Validate(sign, Now(), s, now)
    {
      var dot := LastDot(s);
      if dot.None? { return None; }
      var payload, signature := s[..dot.value], s[dot.value + 1..];
      if signature != sign(payload) { return None; }
      if s !in activeTokens { return None; }
      if activeTokens[s].tokenId in revokedTokenIds { return None; }
      if now > activeTokens[s].expiresAt { return None; }
      return Some(activeTokens[s]);
    }

    method RevokeToken(id: string)
      modifies this
      ensures Now() == Apply(old(Now()), Revoke(id))
    {
      revokedTokenIds := revokedTokenIds + {id};
      var left := activeTokens.Keys;
      while left != {}
        invariant left <= activeTokens.Keys <= old(activeTokens).Keys
        invariant revokedTokenIds == old(revokedTokenIds) + {id}
        invariant forall s :: s in activeTokens ==> activeTokens[s] == old(activeTokens)[s]
        invariant forall s :: s in old(activeTokens) ==>
          (s in activeTokens <==> s in left || old(activeTokens)[s].tokenId != id)
        decreases left
      {
        var s :| s in left;
        left := left - {s};
        if activeTokens[s].tokenId == id {
          activeTokens := activeTokens - {s};
        }
      }
    }

    /** The three calls with nothing in between; TokenRefresh has what can come between them. */
    method RefreshToken(s: string, checkedAt: int, newId: string, now: int, ttl: int)
      returns (token: Option<AuthToken>)
      modifies this
      ensures (Now(), token) == Refreshed(sign, old(Now()), s, checkedAt, newId, now, ttl)
    {
      var existing := ValidateToken(s, checkedAt);
      if existing.None? { return None; }
      RevokeToken(existing.value.tokenId);
      var issued := IssueToken(newId, existing.value.agentId, existing.value.role, existing.value.swarmId, now, ttl);
      return Some(issued);
    }
  }

  // ----- token strings -----

  lemma LastDotIs(s: string, k: nat)
    requires k < |s| && s[k] == '.' && forall j :: k < j < |s| ==> s[j] != '.'
    ensures LastDot(s) == Some(k)
  {
  }

  /** A signature has no dot, so the last dot separates payload and signature, whatever the payload holds. */
  lemma LastDotSplits(payload: string, signature: string)
    requires '.' !in signature
    ensures LastDot(Signed(payload, signature)) == Some(|payload|)
  {
    var s := Signed(payload, signature);
    forall j | |payload| < j < |s| ensures s[j] != '.' {
      assert s[j] == signature[j - |payload| - 1];
    }
    LastDotIs(s, |payload|);
  }

  lemma SignedParts(payload: string, signature: string)
    ensures Signed(payload, signature)[..|payload|] == payload
    ensures Signed(payload, signature)[|payload| + 1..] == signature
  {
  }

  ghost predicate SignsWithoutDots(sign: string -> string) {
    forall payload :: '.' !in sign(payload)
  }

  lemma SignedPasses(sign: string -> string, payload: string)
    requires SignsWithoutDots(sign)
    ensures PassesSignature(sign, Signed(payload, sign(payload)))
  {
    LastDotSplits(payload, sign(payload));
    SignedParts(payload, sign(payload));
  }

  /** Two strings cut at their first colon. */
  lemma ColonDeterminesFront(a: string, b: string, x: string, y: string)
    requires ':' !in a && ':' !in b && a + ":" + x == b + ":" + y
    ensures a == b && x == y
  {
    var s := a + ":" + x;
    assert s[|a|] == ':' && s[|b|] == (b + ":" + y)[|b|] == ':';
    assert forall k :: 0 <= k < |a| ==> s[k] == a[k] && a[k] in a;
    assert forall k :: 0 <= k < |b| ==> s[k] == b[k] && b[k] in b;
    assert s[..|a|] == a && s[..|b|] == b;
    assert s[|a| + 1..] == x && s[|b| + 1..] == y;
  }

  ghost predicate HasOwnString(sign: string -> string, token: AuthToken) {
    var payload := Payload(token.tokenId, token.agentId, token.role, token.swarmId, token.expiresAt);
    token.tokenString == Signed(payload, sign(payload))
  }

  /** What issue_token makes: an id without colons (a UUID) and the signed string of the token's own fields. */
  ghost predicate Genuine(sign: string -> string, token: AuthToken) {
    ':' !in token.tokenId && HasOwnString(sign, token)
  }

  /** A genuine string passes the signature check. */
  lemma GenuinePasses(sign: string -> string, token: AuthToken)
    requires SignsWithoutDots(sign) && HasOwnString(sign, token)
    ensures PassesSignature(sign, token.tokenString)
  {
    SignedPasses(sign, Payload(token.tokenId, token.agentId, token.role, token.swarmId, token.expiresAt));
  }

  /** An issued token carries its own fields in its signed string. */
  lemma IssuedIsGenuine(sign: string -> string, id: string, agent: string, role: Role, swarm: string,
                        now: int, ttl: int)
    requires SignsWithoutDots(sign)
    ensures var token := NewToken(sign, id, agent, role, swarm, now, ttl);
            && HasOwnString(sign, token)
            && PassesSignature(sign, token.tokenString)
            && token.tokenId == id && token.agentId == agent && token.role == role && token.swarmId == swarm
            && token.issuedAt == now && token.expiresAt == now + ttl * 1_000_000_000
  {
    var token := NewToken(sign, id, agent, role, swarm, now, ttl);
    assert HasOwnString(sign, token);
    GenuinePasses(sign, token);
  }

  lemma StringStartsWithId(sign: string -> string, token: AuthToken) returns (rest: string)
    requires HasOwnString(sign, token)
    ensures token.tokenString == token.tokenId + ":" + rest
  {
    rest := token.tokenString[|token.tokenId| + 1..];
  }

  /** The id is what stands before the first colon, so two genuine tokens with one string have one id. */
  lemma StringDeterminesId(sign: string -> string, a: AuthToken, b: AuthToken)
    requires Genuine(sign, a) && Genuine(sign, b) && a.tokenString == b.tokenString
    ensures a.tokenId == b.tokenId
  {
    var x := StringStartsWithId(sign, a);
    var y := StringStartsWithId(sign, b);
    ColonDeterminesFront(a.tokenId, b.tokenId, x, y);
  }

  lemma {:induction false} NoDot(s: string)
    requires '.' !in s
    ensures LastDot(s) == None
  {
    if s == "" {
    } else {
      NoDot(s[..|s| - 1]);
    }
  }

  /** Whatever the provider holds, a string without a dot, or whose part after the last dot is not the signature of the
      part before it, does not validate. */
  lemma ForgedNeverValidates(sign: string -> string, st: State, payload: string, signature: string, now: int)
    requires '.' !in signature && signature != sign(payload)
    ensures Validate(sign, st, Signed(payload, signature), now) == None
    ensures Validate(sign, st, signature, now) == None
  {
    LastDotSplits(payload, signature);
    SignedParts(payload, signature);
    NoDot(signature);
  }

  // ----- what a string tells -----

  ghost function NumberOf(s: string): int {
    if s == "" then 0 else NumberOf(s[..|s| - 1]) * 10 + (s[|s| - 1] as int - '0' as int)
  }

  lemma {:induction false} DigitsTellTheNumber(n: nat)
    ensures Digits(n) != "" && Digits(n)[0] != '-' && NumberOf(Digits(n)) == n
  {
    if n < 10 {
      assert Digits(n)[..0] == "" && Digits(n) == [Digit(n)];
    } else {
      DigitsTellTheNumber(n / 10);
      assert Digits(n)[..|Digits(n)| - 1] == Digits(n / 10);
    }
  }

  ghost function SignedNumberOf(s: string): int {
    if s != "" && s[0] == '-' then -NumberOf(s[1..]) else NumberOf(s)
  }

  lemma SignedNumbers(digits: string)
    requires digits != "" && digits[0] != '-'
    ensures SignedNumberOf("-" + digits) == -NumberOf(digits) && SignedNumberOf(digits) == NumberOf(digits)
  {
    assert ("-" + digits)[1..] == digits;
  }

  lemma DecimalTellsTheNumber(n: int)
    ensures SignedNumberOf(Decimal(n)) == n
  {
    var m: nat := if n < 0 then -n else n;
    var digits := Digits(m);
    DigitsTellTheNumber(m);
    SignedNumbers(digits);
    assert Decimal(n) == if n < 0 then "-" + digits else digits;
  }

  lemma RoleStrTellsTheRole(r: Role, q: Role)
    ensures ':' !in RoleStr(r) && (RoleStr(r) == RoleStr(q) <==> r == q)
  {
    assert RoleStr(Coordinator)[0] == 'c' && RoleStr(Worker)[0] == 'w' && RoleStr(Observer)[0] == 'o';
  }

  function AfterId(agent: string, role: Role, swarm: string, expiresAt: int): string {
    agent + ":" + RoleStr(role) + ":" + swarm + ":" + Decimal(TruncDiv(expiresAt, NANOS_PER_MILLI))
  }

  lemma AfterIdParts(agent: string, role: Role, swarm: string, expiresAt: int)
    ensures AfterId(agent, role, swarm, expiresAt) ==
            agent + ":" + (RoleStr(role) + ":" + (swarm + ":" + Decimal(TruncDiv(expiresAt, NANOS_PER_MILLI))))
  {
  }

  lemma AfterIdTellsTheFields(x: AuthToken, y: AuthToken)
    requires ':' !in x.agentId && ':' !in x.swarmId && ':' !in y.agentId && ':' !in y.swarmId
    requires AfterId(x.agentId, x.role, x.swarmId, x.expiresAt) == AfterId(y.agentId, y.role, y.swarmId, y.expiresAt)
    ensures x.agentId == y.agentId && x.role == y.role && x.swarmId == y.swarmId
    ensures TruncDiv(x.expiresAt, NANOS_PER_MILLI) == TruncDiv(y.expiresAt, NANOS_PER_MILLI)
  {
    var i, j := TruncDiv(x.expiresAt, NANOS_PER_MILLI), TruncDiv(y.expiresAt, NANOS_PER_MILLI);
    var a, b := x.swarmId + ":" + Decimal(i), y.swarmId + ":" + Decimal(j);
    AfterIdParts(x.agentId, x.role, x.swarmId, x.expiresAt);
    AfterIdParts(y.agentId, y.role, y.swarmId, y.expiresAt);
    ColonDeterminesFront(x.agentId, y.agentId, RoleStr(x.role) + ":" + a, RoleStr(y.role) + ":" + b);
    RoleStrTellsTheRole(x.role, y.role);
    RoleStrTellsTheRole(y.role, x.role);
    ColonDeterminesFront(RoleStr(x.role), RoleStr(y.role), a, b);
    ColonDeterminesFront(x.swarmId, y.swarmId, Decimal(i), Decimal(j));
    DecimalTellsTheNumber(i);
    DecimalTellsTheNumber(j);
  }

  lemma SameSignedPayload(p: string, q: string, s: string, t: string)
    requires '.' !in s && '.' !in t && Signed(p, s) == Signed(q, t)
    ensures p == q
  {
    LastDotSplits(p, s);
    LastDotSplits(q, t);
    SignedParts(p, s);
    SignedParts(q, t);
  }

  lemma PayloadParts(x: AuthToken)
    ensures Payload(x.tokenId, x.agentId, x.role, x.swarmId, x.expiresAt) ==
            x.tokenId + ":" + AfterId(x.agentId, x.role, x.swarmId, x.expiresAt)
  {
  }

  /** As long as names hold no colon, the string of an issued token tells everything the token says: id, agent, role,
      swarm, and the expiry to the millisecond. */
  lemma StringDeterminesFields(sign: string -> string, x: AuthToken, y: AuthToken)
    requires SignsWithoutDots(sign) && Genuine(sign, x) && Genuine(sign, y) && x.tokenString == y.tokenString
    requires ':' !in x.agentId && ':' !in x.swarmId && ':' !in y.agentId && ':' !in y.swarmId
    ensures x.tokenId == y.tokenId && x.agentId == y.agentId && x.role == y.role && x.swarmId == y.swarmId
    ensures TruncDiv(x.expiresAt, 1_000_000) == TruncDiv(y.expiresAt, 1_000_000)
  {
    var p := Payload(x.tokenId, x.agentId, x.role, x.swarmId, x.expiresAt);
    var q := Payload(y.tokenId, y.agentId, y.role, y.swarmId, y.expiresAt);
    SameSignedPayload(p, q, sign(p), sign(q));
    PayloadParts(x);
    PayloadParts(y);
    ColonDeterminesFront(x.tokenId, y.tokenId, AfterId(x.agentId, x.role, x.swarmId, x.expiresAt),
                         AfterId(y.agentId, y.role, y.swarmId, y.expiresAt));
    AfterIdTellsTheFields(x, y);
  }

  // ----- every run -----

  ghost function Run(ops: seq<Op>): State {
    if ops == [] then State(map[], {}) else Apply(Run(ops[..|ops| - 1]), ops[|ops| - 1])
  }

  /** Only genuine tokens are stored, and no id is issued twice. */
  ghost predicate Proper(sign: string -> string, ops: seq<Op>) {
    && (forall token :: Issue(token) in ops ==> Genuine(sign, token))
    && forall i, j :: 0 <= i < j < |ops| && ops[i].Issue? && ops[j].Issue? ==>
         ops[i].token.tokenId != ops[j].token.tokenId
  }

  /** An id that no issued token has and that was not revoked. */
  ghost predicate Unused(ops: seq<Op>, id: string) {
    && Revoke(id) !in ops
    && forall i :: 0 <= i < |ops| && ops[i].Issue? ==> ops[i].token.tokenId != id
  }

  lemma ProperSnoc(sign: string -> string, ops: seq<Op>, op: Op)
    requires Proper(sign, ops)
    requires op.Issue? ==> Genuine(sign, op.token) && Unused(ops, op.token.tokenId)
    ensures Proper(sign, ops + [op])
  {
    var longer := ops + [op];
    forall token | Issue(token) in longer ensures Genuine(sign, token) {
      assert Issue(token) in ops || op == Issue(token);
    }
    assert forall i :: 0 <= i < |ops| ==> longer[i] == ops[i];
  }

  lemma UnusedSnoc(ops: seq<Op>, op: Op, id: string)
    requires Unused(ops, id) && op != Revoke(id) && (op.Issue? ==> op.token.tokenId != id)
    ensures Unused(ops + [op], id)
  {
  }

  lemma {:induction false} RevokedAre(ops: seq<Op>, id: string)
    ensures id in Run(ops).revoked <==> Revoke(id) in ops
  {
    if ops == [] {
    } else {
      RevokedAre(ops[..|ops| - 1], id);
      assert ops == ops[..|ops| - 1] + [ops[|ops| - 1]];
    }
  }

  lemma {:induction false} ActiveAreIssued(ops: seq<Op>, s: string)
    requires s in Run(ops).active
    ensures Run(ops).active[s].tokenString == s && Issue(Run(ops).active[s]) in ops
  {
    var front, last := ops[..|ops| - 1], ops[|ops| - 1];
    assert ops == front + [last];
    if last.Issue? && last.token.tokenString == s {
    } else {
      ActiveAreIssued(front, s);
    }
  }

  lemma NewStringIsNew(sign: string -> string, front: seq<Op>, last: AuthToken, token: AuthToken)
    requires Proper(sign, front + [Issue(last)]) && Issue(token) in front
    ensures last.tokenString != token.tokenString
  {
    var ops := front + [Issue(last)];
    var i :| 0 <= i < |front| && front[i] == Issue(token);
    assert ops[i] == Issue(token) && ops[|front|] == Issue(last);
    if last.tokenString == token.tokenString {
      StringDeterminesId(sign, last, token);
      assert false;
    }
  }

  lemma ProperPrefix(sign: string -> string, front: seq<Op>, last: Op)
    requires Proper(sign, front + [last])
    ensures Proper(sign, front)
  {
    assert forall i :: 0 <= i < |front| ==> (front + [last])[i] == front[i];
    assert forall token :: Issue(token) in front ==> Issue(token) in front + [last];
  }

  lemma {:induction false} IssuedStaysActive(sign: string -> string, ops: seq<Op>, token: AuthToken)
    requires Proper(sign, ops) && Issue(token) in ops && Revoke(token.tokenId) !in ops
    ensures token.tokenString in Run(ops).active && Run(ops).active[token.tokenString] == token
  {
    var front, last := ops[..|ops| - 1], ops[|ops| - 1];
    assert ops == front + [last];
    if last == Issue(token) {
    } else {
      ProperPrefix(sign, front, last);
      IssuedStaysActive(sign, front, token);
      if last.Issue? { NewStringIsNew(sign, front, last.token, token); }
    }
  }

  /** The token was issued, and its id not revoked afterwards. */
  ghost predicate HeldSince(ops: seq<Op>, i: nat, token: AuthToken) {
    i < |ops| && ops[i] == Issue(token) && forall j :: i < j < |ops| ==> ops[j] != Revoke(token.tokenId)
  }

  ghost predicate Held(ops: seq<Op>, token: AuthToken) {
    exists i :: HeldSince(ops, i, token)
  }

  lemma HeldSnoc(front: seq<Op>, op: Op, token: AuthToken)
    ensures Held(front + [op], token) <==>
            op == Issue(token) || (op != Revoke(token.tokenId) && Held(front, token))
  {
    var ops := front + [op];
    forall i: nat | i < |front|
      ensures HeldSince(ops, i, token) <==> op != Revoke(token.tokenId) && HeldSince(front, i, token)
    {
      assert forall j :: 0 <= j < |front| ==> ops[j] == front[j];
      assert ops[|front|] == op;
    }
    assert HeldSince(ops, |front|, token) <==> op == Issue(token);
  }

  /** The store holds exactly the tokens that were issued and not revoked since: revoking forgets them. */
  lemma {:induction false} StoredIffHeld(sign: string -> string, ops: seq<Op>, token: AuthToken)
    requires Proper(sign, ops)
    ensures (token.tokenString in Run(ops).active && Run(ops).active[token.tokenString] == token) <==> Held(ops, token)
  {
    if ops == [] {
    } else {
      var front, last := ops[..|ops| - 1], ops[|ops| - 1];
      assert ops == front + [last];
      ProperPrefix(sign, front, last);
      StoredIffHeld(sign, front, token);
      HeldSnoc(front, last, token);
      if Held(front, token) {
        var i :| HeldSince(front, i, token);
        assert Issue(token) in front;
        if last.Issue? { NewStringIsNew(sign, front, last.token, token); }
      }
    }
  }

  /** A string validates, and as which token, exactly when this provider issued it as that token, the token's id
      was never revoked in the whole run (not even before it was issued), and it has not expired. */
  lemma ValidatesIff(sign: string -> string, ops: seq<Op>, s: string, now: int, token: AuthToken)
    requires SignsWithoutDots(sign) && Proper(sign, ops)
    ensures Validate(sign, Run(ops), s, now) == Some(token) <==>
            && Issue(token) in ops && token.tokenString == s
            && Revoke(token.tokenId) !in ops
            && now <= token.expiresAt
  {
    RevokedAre(ops, token.tokenId);
    if Validate(sign, Run(ops), s, now) == Some(token) {
      ActiveAreIssued(ops, s);
    }
    if Issue(token) in ops && token.tokenString == s && Revoke(token.tokenId) !in ops {
      IssuedStaysActive(sign, ops, token);
      assert Genuine(sign, token);
      GenuinePasses(sign, token);
    }
  }

  /** Every operation of a run in which a refresh revokes the old token and issues the new one. */
  ghost function WithRefresh(ops: seq<Op>, between: seq<Op>, was: AuthToken, between': seq<Op>, renewed: AuthToken,
                             after: seq<Op>): seq<Op>
  {
    ops + between + [Revoke(was.tokenId)] + between' + [Issue(renewed)] + after
  }

  /** Refreshing kills the old string for good, and the token it starts, made for the same agent, role and swarm,
      is valid until it expires or is revoked, whatever other operations come between its three steps and after. */
  lemma RefreshReplaces(sign: string -> string, ops: seq<Op>, s: string, checkedAt: int, existing: AuthToken,
                        newId: string, now: int, ttl: int, between: seq<Op>, between': seq<Op>, after: seq<Op>,
                        later: int)
    requires SignsWithoutDots(sign)
    requires Validate(sign, Run(ops), s, checkedAt) == Some(existing)
    requires Proper(sign, WithRefresh(ops, between, existing, between',
                                      Replacement(sign, existing, newId, now, ttl), after))
    ensures var renewed := Replacement(sign, existing, newId, now, ttl);
            var all := WithRefresh(ops, between, existing, between', renewed, after);
            && Validate(sign, Run(all), s, later) == None
            && (Validate(sign, Run(all), renewed.tokenString, later) == Some(renewed) <==>
                Revoke(newId) !in all && later <= renewed.expiresAt)
            && renewed.tokenId == newId && renewed.agentId == existing.agentId && renewed.role == existing.role
            && renewed.swarmId == existing.swarmId && renewed.expiresAt == now + ttl * 1_000_000_000
  {
    var renewed := Replacement(sign, existing, newId, now, ttl);
    var all := WithRefresh(ops, between, existing, between', renewed, after);
    assert Revoke(existing.tokenId) in all && Issue(renewed) in all;
    ValidatesIff(sign, all, renewed.tokenString, later, renewed);
    ActiveAreIssued(ops, s);
    assert Issue(existing) in all;
    var result := Validate(sign, Run(all), s, later);
    if result.Some? {
      ValidatesIff(sign, all, s, later, result.value);
      assert Genuine(sign, existing) && Genuine(sign, result.value);
      StringDeterminesId(sign, existing, result.value);
    }
  }

  // ----- one refresh -----

  lemma ReplacementIsGenuine(sign: string -> string, was: AuthToken, newId: string, now: int, ttl: int)
    requires SignsWithoutDots(sign) && ':' !in newId
    ensures var token := Replacement(sign, was, newId, now, ttl);
            && token.tokenId == newId && token.agentId == was.agentId && token.role == was.role
            && token.swarmId == was.swarmId
            && token.issuedAt == now && token.expiresAt == now + ttl * 1_000_000_000
            && Genuine(sign, token)
  {
    IssuedIsGenuine(sign, newId, was.agentId, was.role, was.swarmId, now, ttl);
  }

  lemma RunSnoc(ops: seq<Op>, op: Op)
    ensures Run(ops + [op]) == Apply(Run(ops), op)
  {
    assert (ops + [op])[..|ops|] == ops;
  }

  lemma RefreshedIsProper(sign: string -> string, ops: seq<Op>, was: AuthToken, renewed: AuthToken)
    requires Proper(sign, ops) && Genuine(sign, renewed) && Unused(ops, renewed.tokenId) && Issue(was) in ops
    ensures var all := ops + [Revoke(was.tokenId)] + [Issue(renewed)];
            && Proper(sign, all) && Run(all) == Apply(Apply(Run(ops), Revoke(was.tokenId)), Issue(renewed))
            && Revoke(renewed.tokenId) !in all
            && all == WithRefresh(ops, [], was, [], renewed, [])
  {
    ProperSnoc(sign, ops, Revoke(was.tokenId));
    UnusedSnoc(ops, Revoke(was.tokenId), renewed.tokenId);
    ProperSnoc(sign, ops + [Revoke(was.tokenId)], Issue(renewed));
    RunSnoc(ops, Revoke(was.tokenId));
    RunSnoc(ops + [Revoke(was.tokenId)], Issue(renewed));
    assert ops + [] == ops && ops + [Revoke(was.tokenId)] + [] == ops + [Revoke(was.tokenId)];
    assert ops + [Revoke(was.tokenId)] + [Issue(renewed)] + [] == ops + [Revoke(was.tokenId)] + [Issue(renewed)];
  }

  /** What a caller of refresh_token gets, after any proper run and with a fresh id: nothing, and nothing changed,
      exactly when the string does not validate; otherwise a new token for the same agent, role and swarm that
      validates as itself until it expires, while the old string validates no more. */
  lemma RefreshIsExact(sign: string -> string, ops: seq<Op>, s: string, checkedAt: int, newId: string, now: int,
                       ttl: int, later: int)
    requires SignsWithoutDots(sign) && Proper(sign, ops) && Unused(ops, newId) && ':' !in newId
    ensures var was := Validate(sign, Run(ops), s, checkedAt);
            var after := Refreshed(sign, Run(ops), s, checkedAt, newId, now, ttl);
            && (after.1 == None <==> was == None)
            && (was == None ==> after.0 == Run(ops))
            && (was.Some? && after.1.Some? ==>
                  var token := after.1.value;
                  && token.tokenId == newId && token.agentId == was.value.agentId && token.role == was.value.role
                  && token.swarmId == was.value.swarmId
                  && token.issuedAt == now && token.expiresAt == now + ttl * 1_000_000_000
                  && (Validate(sign, after.0, token.tokenString, later) == Some(token) <==> later <= token.expiresAt)
                  && Validate(sign, after.0, s, later) == None)
  {
    var was := Validate(sign, Run(ops), s, checkedAt);
    if was.Some? {
      var renewed := Replacement(sign, was.value, newId, now, ttl);
      ReplacementIsGenuine(sign, was.value, newId, now, ttl);
      ActiveAreIssued(ops, s);
      RefreshedIsProper(sign, ops, was.value, renewed);
      RefreshReplaces(sign, ops, s, checkedAt, was.value, newId, now, ttl, [], [], [], later);
    }
  }
}
