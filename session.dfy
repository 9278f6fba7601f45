/**
 * The server-side sessions of helpers/auth.py: a process-wide table from
 * session id to `Session`, and `auth_required`, which accepts a session id
 * only when it names a stored session that is at most seven days old.
 *
 * Time is an integer count of microseconds (the resolution of Python's
 * `timedelta`), passed in as `now` instead of read from the clock.
 */
module Sessions {
  import opened Wrappers

  /** `timedelta(days=7)` in microseconds. */
  const SessionTtl: int := 7 * 24 * 60 * 60 * 1_000_000

  datatype Session = Session(userId: string, createdAt: int)

  /** What `auth_required` does: return the stored session, or raise HTTP 401. */
  datatype AuthResult = Authorized(session: Session) | Unauthorized

  /** The expiry test: strictly older than the time to live. */
  predicate Expired(session: Session, now: int)
  {
    now - session.createdAt > SessionTtl
  }

  /** The outcome of `auth_required(sessionId)` at time `now` against the table `store`. */
  function Lookup(store: map<string, Session>, sessionId: Option<string>, now: int): (r: AuthResult)
    ensures r.Authorized? ==>
      && sessionId.Some? && sessionId.value in store
      && r.session == store[sessionId.value] && !Expired(r.session, now)
  {
    if sessionId.None? then Unauthorized
    else if sessionId.value !in store then Unauthorized
    else if Expired(store[sessionId.value], now) then Unauthorized
    else Authorized(store[sessionId.value])
  }

  /** `session_store`: the table of live sessions. */
  class SessionStore {
    var sessions: map<string, Session>

    constructor ()
      ensures sessions == map[]
    {
      sessions := map[];
    }

    /** Stores `session` under `id`; the source has no such operation yet, it only sets up tables. */
    method Insert(id: string, session: Session)
      modifies this
      ensures sessions == old(sessions)[id := session]
    {
      sessions := sessions[id := session];
    }

    /**
     * `auth_required`: no id, an unknown id and an expired session are all
     * rejected; otherwise the stored session is returned as it is. The table
     * is only read: an expired entry stays where it was.
     */
    method AuthRequired(sessionId: Option<string>, now: int) returns (r: AuthResult)
      ensures r == Lookup(sessions, sessionId, now)
      ensures r.Authorized? ==>
                sessionId.Some? && sessionId.value in sessions && r.session == sessions[sessionId.value]
    {
      if sessionId.None? {
        return Unauthorized;
      }
      var id := sessionId.value;
      if id !in sessions {
        return Unauthorized;
      }
      var session := sessions[id];
      if now - session.createdAt > SessionTtl {
        return Unauthorized;
      }
      return Authorized(session);
    }
  }

  /**
   * `auth_required` succeeds exactly when the id is present, names a stored
   * session and that session is not older than the time to live; the session
   * it returns is the stored one.
   */
  lemma LookupCases(store: map<string, Session>, sessionId: Option<string>, now: int, session: Session)
    ensures Lookup(store, sessionId, now) == Authorized(session) <==>
              sessionId.Some? && sessionId.value in store && store[sessionId.value] == session
              && now - session.createdAt <= SessionTtl
    ensures Lookup(store, sessionId, now) == Unauthorized <==>
              sessionId.None? || sessionId.value !in store || Expired(store[sessionId.value], now)
  {
  }

  /** A session exactly seven days old is still accepted; one microsecond later it is not. */
  lemma TtlBoundary(store: map<string, Session>, id: string)
    requires id in store
    ensures Lookup(store, Some(id), store[id].createdAt + SessionTtl) == Authorized(store[id])
    ensures Lookup(store, Some(id), store[id].createdAt + SessionTtl + 1) == Unauthorized
  {
  }

  /** Against the same table, once a lookup is rejected every later lookup of that id is rejected too. */
  lemma RejectionIsFinal(store: map<string, Session>, sessionId: Option<string>, now: int, later: int)
    requires now <= later
    requires Lookup(store, sessionId, now) == Unauthorized
    ensures Lookup(store, sessionId, later) == Unauthorized
  {
  }

  /** A session looked up at the moment it was created is accepted and returned as stored. */
  lemma FreshSessionAccepted(store: map<string, Session>, id: string, userId: string, createdAt: int)
    ensures Lookup(store[id := Session(userId, createdAt)], Some(id), createdAt)
      == Authorized(Session(userId, createdAt))
  {
  }

  /** Storing a session under one id does not change what a lookup of another id gives. */
  lemma InsertElsewhere(store: map<string, Session>, id: string, session: Session, other: string, now: int)
    requires other != id
    ensures Lookup(store[id := session], Some(other), now) == Lookup(store, Some(other), now)
  {
  }

  /**
   * A session's life against one table: accepted when created and at exactly
   * seven days, rejected after that, and rejected again on a second lookup
   * because the expired entry is still in the table, never removed.
   */
  method Lifecycle(id: string, userId: string, createdAt: int)
    returns (atCreation: AuthResult, atTtl: AuthResult, expired: AuthResult, again: AuthResult, kept: bool)
    ensures atCreation == Authorized(Session(userId, createdAt)) && atTtl == atCreation
    ensures expired == Unauthorized && again == Unauthorized
    ensures kept
  {
    var store := new SessionStore();
    store.Insert(id, Session(userId, createdAt));
    atCreation := store.AuthRequired(Some(id), createdAt);
    atTtl := store.AuthRequired(Some(id), createdAt + SessionTtl);
    expired := store.AuthRequired(Some(id), createdAt + SessionTtl + 1);
    again := store.AuthRequired(Some(id), createdAt + SessionTtl + 2);
    kept := id in store.sessions && store.sessions[id] == Session(userId, createdAt);
  }
}
