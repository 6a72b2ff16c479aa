/** The expiring "view as user" sessions (backend/internal/api/impersonation_store.go). */
module ImpersonationStore {
  import opened Wrappers

  type Token = string
  /** Nanoseconds, as Go's durations. */
  type Time = int

  datatype Session = Session(adminDID: string, targetDID: string, orgID: string, expiresAt: Time)

  datatype Error = AdminDIDRequired | TargetDIDRequired | OrgIDRequired | NoRandomness | NotFound

  datatype Minted = Minted(token: Token, expiresAt: Time)

  type Sessions = map<Token, Session>

  const DEFAULT_TTL: Time := 3_600_000_000_000

  // ----- The operations as functions -----

  function Ttl(ttl: Time): Time {
    if ttl <= 0 then DEFAULT_TTL else ttl
  }

  /** random is the token the random source yields, if it does. */
  function MintResult(random: Option<Token>, session: Session, ttl: Time, now: Time): Result<Minted, Error> {
    if session.adminDID == "" then Err(AdminDIDRequired)
    else if session.targetDID == "" then Err(TargetDIDRequired)
    else if session.orgID == "" then Err(OrgIDRequired)
    else match random
      case None => Err(NoRandomness)
      case Some(token) => Ok(Minted(token, now + Ttl(ttl)))
  }

  /** Nobody is missing, and there is randomness. */
  predicate Mintable(random: Option<Token>, session: Session) {
    session.adminDID != "" && session.targetDID != "" && session.orgID != "" && random.Some?
  }

  function Found(sessions: Sessions, token: Token, now: Time): Result<Session, Error> {
    if token == "" || token !in sessions || now > sessions[token].expiresAt then Err(NotFound)
    else Ok(sessions[token])
  }

  function Swept(sessions: Sessions, now: Time): Sessions {
    map t | t in sessions && now <= sessions[t].expiresAt :: sessions[t]
  }

  /**
   * The steps that write the map, each at its instant now. Drop is the second half of a lookup that found an entry
   * expiring at expiresAt in the past: other steps may come in between.
   */
  datatype Op = Mint(random: Option<Token>, session: Session, ttl: Time, now: Time)
              | Revoke(token: Token, now: Time)
              | Sweep(now: Time)
              | Drop(token: Token, expiresAt: Time, now: Time)

  /** What op mints, if anything. */
  function MintedBy(op: Op): Option<(Token, Session)> {
    if op.Mint? then
      match MintResult(op.random, op.session, op.ttl, op.now)
      case Ok(m) => Some((m.token, op.session.(expiresAt := m.expiresAt)))
      case Err(_) => None
    else None
  }

  /** A store that does not delete ignores sweeps and drops. */
  function Step(sessions: Sessions, op: Op, deletes: bool): Sessions {
    match op
    case Mint(_, _, _, _) =>
      (match MintedBy(op)
       case Some(m) => sessions[m.0 := m.1]
       case None => sessions)
    case Revoke(token, _) => if token == "" then sessions else sessions - {token}
    case Sweep(now) => if deletes then Swept(sessions, now) else sessions
    case Drop(token, expiresAt, now) =>
      if deletes && now > expiresAt && token in sessions && sessions[token].expiresAt == expiresAt
      then sessions - {token}
      else sessions
  }

  // ----- The code -----

  class MemoryStore {
    var sessions: Sessions

    constructor ()
      ensures sessions == map[]
    {
      sessions := map[];
    }

    method Mint(random: Option<Token>, session: Session, ttl: Time, now: Time) returns (r: Result<Minted, Error>)
      modifies this
      ensures r == MintResult(random, session, ttl, now)
      ensures sessions == Step(old(sessions), Op.Mint(random, session, ttl, now), true)
      ensures r == Err(AdminDIDRequired) <==> session.adminDID == ""
      ensures r == Err(TargetDIDRequired) <==> session.adminDID != "" && session.targetDID == ""
      ensures r == Err(OrgIDRequired) <==> session.adminDID != "" && session.targetDID != "" && session.orgID == ""
      ensures r.Ok? <==> Mintable(random, session)
      ensures r.Ok? ==> r.value == Minted(random.value, now + if ttl > 0 then ttl else 3_600_000_000_000)
      ensures r.Ok? ==> sessions == old(sessions)[r.value.token := session.(expiresAt := r.value.expiresAt)]
      ensures r.Err? ==> sessions == old(sessions)
    {
      if session.adminDID == "" {
        return Err(AdminDIDRequired);
      }
      if session.targetDID == "" {
        return Err(TargetDIDRequired);
      }
      if session.orgID == "" {
        return Err(OrgIDRequired);
      }
      var life := ttl;
      if life <= 0 {
        life := DEFAULT_TTL;
      }
      if random == None {
        return Err(NoRandomness);
      }
      var token := random.value;
      var expiresAt := now + life;
      sessions := sessions[token := session.(expiresAt := expiresAt)];
      r := Ok(Minted(token, expiresAt));
    }

    /** A lookup nothing interferes with. */
    method Lookup(token: Token, now: Time) returns (r: Result<Session, Error>)
      modifies this
      ensures r == Found(old(sessions), token, now)
      ensures exists e :: sessions == Step(old(sessions), Drop(token, e, now), true)
      ensures r.Ok? ==> sessions == old(sessions)
      ensures if token != "" && token in old(sessions) && now <= old(sessions)[token].expiresAt
              then r == Ok(old(sessions)[token]) else r == Err(NotFound)
      ensures sessions == if token != "" && token in old(sessions) && now > old(sessions)[token].expiresAt
                          then old(sessions) - {token} else old(sessions)
    {
      assert sessions == Step(sessions, Drop(token, now, now), true);
      if token == "" {
        return Err(NotFound);
      }
      if token !in sessions {
        return Err(NotFound);
      }
      var session := sessions[token];
      if now > session.expiresAt {
        assert sessions - {token} == Step(sessions, Drop(token, session.expiresAt, now), true);
        if token in sessions && sessions[token].expiresAt == session.expiresAt {
          sessions := sessions - {token};
        }
        return Err(NotFound);
      }
      r := Ok(session);
    }

    method Revoke(token: Token, now: Time)
      modifies this
      ensures sessions == Step(old(sessions), Op.Revoke(token, now), true)
      ensures sessions == if token == "" then old(sessions) else old(sessions) - {token}
    {
      if token == "" {
        return;
      }
      sessions := sessions - {token};
    }

    method SweepExpired(now: Time)
      modifies this
      ensures sessions == Step(old(sessions), Sweep(now), true)
      ensures forall t :: t in sessions <==> t in old(sessions) && now <= old(sessions)[t].expiresAt
      ensures forall t :: t in sessions ==> sessions[t] == old(sessions)[t]
    {
      var rest := sessions.Keys;
      while rest != {}
        invariant rest <= sessions.Keys <= old(sessions).Keys
        invariant forall t :: t in sessions ==> sessions[t] == old(sessions)[t]
        invariant forall t :: t in old(sessions) && t !in rest
                              ==> (t in sessions <==> now <= old(sessions)[t].expiresAt)
      {
        var token :| token in rest;
        if now > sessions[token].expiresAt {
          sessions := sessions - {token};
        }
        rest := rest - {token};
      }
    }
  }

  // ----- Timed runs -----

  function After(ops: seq<Op>, deletes: bool): Sessions
    decreases |ops|
  {
    if ops == [] then map[] else Step(After(ops[..|ops| - 1], deletes), ops[|ops| - 1], deletes)
  }

  /** The operations happen in order and none after now. */
  predicate InOrder(ops: seq<Op>, now: Time) {
    && (forall i, j :: 0 <= i <= j < |ops| ==> ops[i].now <= ops[j].now)
    && (forall i :: 0 <= i < |ops| ==> ops[i].now <= now)
  }

  /** The swept store lacks at most entries that are past their expiry at now. */
  predicate Hidden(swept: Sessions, full: Sessions, now: Time) {
    && (forall t :: t in swept ==> t in full && swept[t] == full[t])
    && (forall t :: t in full && t !in swept ==> full[t].expiresAt < now)
  }

  lemma {:induction false} HiddenRun(ops: seq<Op>, now: Time)
    requires InOrder(ops, now)
    ensures Hidden(After(ops, true), After(ops, false), now)
    decreases |ops|
  {
    if ops != [] {
      var init, last := ops[..|ops| - 1], ops[|ops| - 1];
      HiddenRun(init, last.now);
    }
  }

  // ----- The history alone -----

  /** The i-th operation minted token for session, and nothing since has revoked or re-minted it. */
  predicate MintedAt(ops: seq<Op>, i: nat, token: Token, session: Session) {
    && i < |ops| && MintedBy(ops[i]) == Some((token, session))
    && forall j :: i < j < |ops| ==> !Changes(ops[j], token)
  }

  predicate Changes(op: Op, token: Token) {
    || (op.Revoke? && op.token == token && token != "")
    || (MintedBy(op).Some? && MintedBy(op).value.0 == token)
  }

  predicate Standing(ops: seq<Op>, token: Token, session: Session) {
    exists i :: 0 <= i < |ops| && MintedAt(ops, i, token, session)
  }

  lemma StandingStep(ops: seq<Op>, op: Op, token: Token, session: Session)
    ensures Standing(ops + [op], token, session)
            <==> MintedBy(op) == Some((token, session))
                 || (Standing(ops, token, session) && !Changes(op, token))
  {
    hide MintedBy;
    var all := ops + [op];
    assert all[|ops|] == op;
    if MintedBy(op) == Some((token, session)) {
      assert MintedAt(all, |ops|, token, session);
    } else if Standing(ops, token, session) && !Changes(op, token) {
      var i :| 0 <= i < |ops| && MintedAt(ops, i, token, session);
      forall j | i < j < |all| ensures !Changes(all[j], token) {
        assert j < |ops| ==> all[j] == ops[j];
      }
      assert MintedAt(all, i, token, session);
    }
    if Standing(all, token, session) && MintedBy(op) != Some((token, session)) {
      var i :| 0 <= i < |all| && MintedAt(all, i, token, session);
      assert i < |ops| && !Changes(all[|ops|], token);
      forall j | i < j < |ops| ensures !Changes(ops[j], token) {
        assert all[j] == ops[j];
      }
      assert MintedAt(ops, i, token, session);
    }
  }

  lemma {:induction false} FullExactly(ops: seq<Op>, token: Token, session: Session)
    ensures (token in After(ops, false) && After(ops, false)[token] == session) <==> Standing(ops, token, session)
    decreases |ops|
  {
    if ops != [] {
      var init, last := ops[..|ops| - 1], ops[|ops| - 1];
      assert ops == init + [last];
      FullExactly(init, token, session);
      StandingStep(init, last, token, session);
      hide Standing, MintedBy;
    }
  }

  /** The operation mints the token: nobody is missing, and this is what the random source yields. */
  predicate Mints(op: Op, token: Token) {
    op.Mint? && Mintable(op.random, op.session) && op.random.value == token
  }

  /** The i-th operation mints the token for the session's identities, and none after it revokes or mints it again. */
  predicate MintedFor(ops: seq<Op>, i: nat, token: Token, session: Session) {
    && i < |ops| && Mints(ops[i], token)
    && session.adminDID == ops[i].session.adminDID && session.targetDID == ops[i].session.targetDID
    && session.orgID == ops[i].session.orgID
    && session.expiresAt == ops[i].now + (if ops[i].ttl > 0 then ops[i].ttl else 3_600_000_000_000)
    && forall j :: i < j < |ops| ==> !RevokesOrMints(ops[j], token)
  }

  predicate RevokesOrMints(op: Op, token: Token) {
    op == Op.Revoke(token, op.now) || Mints(op, token)
  }

  lemma MintedAtMeans(ops: seq<Op>, i: nat, token: Token, session: Session)
    requires token != ""
    ensures MintedAt(ops, i, token, session) <==> MintedFor(ops, i, token, session)
  {
    forall j | 0 <= j < |ops| ensures Changes(ops[j], token) == RevokesOrMints(ops[j], token) {
    }
    hide Changes, RevokesOrMints;
  }

  /**
   * In every timed run, whatever sweeps and delayed drops it contains, a lookup succeeds exactly if some request minted
   * the token, it has not been revoked or minted again since and its time to live, an hour if none was asked for, is not
   * over; and it returns the identities asked for.
   */
  lemma LookupExactly(ops: seq<Op>, token: Token, now: Time, session: Session)
    requires InOrder(ops, now)
    ensures Found(After(ops, true), token, now) == Ok(session)
            <==> token != "" && now <= session.expiresAt
                 && exists i :: 0 <= i < |ops| && MintedFor(ops, i, token, session)
  {
    HiddenRun(ops, now);
    FullExactly(ops, token, session);
    hide MintedAt, MintedFor;
    if token != "" {
      forall i | 0 <= i < |ops| ensures MintedAt(ops, i, token, session) <==> MintedFor(ops, i, token, session) {
        MintedAtMeans(ops, i, token, session);
      }
    }
  }

  /** A minted session carries the requested identities, all non-empty, and expires after its mint. */
  lemma StandingSession(ops: seq<Op>, token: Token, session: Session)
    requires Standing(ops, token, session)
    ensures exists i :: 0 <= i < |ops| && ops[i].Mint? && ops[i].random == Some(token)
                        && session == ops[i].session.(expiresAt := session.expiresAt)
                        && session.adminDID != "" && session.targetDID != "" && session.orgID != ""
                        && ops[i].now < session.expiresAt
                        && (ops[i].ttl > 0 ==> session.expiresAt == ops[i].now + ops[i].ttl)
  {
    var i :| 0 <= i < |ops| && MintedAt(ops, i, token, session);
    assert ops[i].Mint?;
  }
}
