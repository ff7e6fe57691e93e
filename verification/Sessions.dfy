/**
Session handles on a module that never reuses one (internal/pkcs11/session.go, base.go,
tokenlogin.go): opening, use within a budget, closing, the janitor's sweep, the anchor login
and the adapter's own shutdown, in any interleaving of their locked regions.
*/
module Sessions {
  import opened Clock
  import opened Wrappers

  type Handle = nat

  const DEFAULT_IDLE_TIMEOUT: Span := 15 * MINUTE
  const DEFAULT_MAX_TTL: Span := 8 * HOUR

  datatype SessionError = SessionClosed | SessionExpired

  // A session's own state.
  datatype Budget = Budget(openedAt: Instant, lastUsedAt: Instant, idle: Span, ttl: Span, loggedIn: bool, closed: bool)

  function OrDefaultSpan(w: Span, default: Span): Span {
    if w <= 0 then default else w
  }

  function OpenedWith(idle: Span, ttl: Span, now: Instant): Budget {
    Budget(now, now, OrDefaultSpan(idle, DEFAULT_IDLE_TIMEOUT), OrDefaultSpan(ttl, DEFAULT_MAX_TTL), false, false)
  }

  predicate Exceeded(b: Budget, now: Instant) {
    now - b.openedAt > b.ttl || now - b.lastUsedAt > b.idle
  }

  function Marked(b: Budget): Budget {
    b.(closed := true, loggedIn := false)
  }

  function TouchError(b: Budget, now: Instant): Option<SessionError> {
    if b.closed then Some(SessionClosed) else if Exceeded(b, now) then Some(SessionExpired) else None
  }

  function AfterTouch(b: Budget, now: Instant): Budget {
    if b.closed then b else if Exceeded(b, now) then Marked(b) else b.(lastUsedAt := now)
  }

  class Session {
    const openedAt: Instant
    const idleTimeout: Span
    const maxTtl: Span
    var lastUsedAt: Instant
    var loggedIn: bool
    var closed: bool

    function State(): Budget
      reads this
    {
      Budget(openedAt, lastUsedAt, idleTimeout, maxTtl, loggedIn, closed)
    }

    constructor (idle: Span, ttl: Span, now: Instant)
      ensures State() == OpenedWith(idle, ttl, now)
      ensures idleTimeout == (if idle <= 0 then 15 * MINUTE else idle) && maxTtl == (if ttl <= 0 then 8 * HOUR else ttl)
      ensures openedAt == lastUsedAt == now && !closed && !loggedIn
    {
      openedAt, lastUsedAt := now, now;
      idleTimeout := OrDefaultSpan(idle, DEFAULT_IDLE_TIMEOUT);
      maxTtl := OrDefaultSpan(ttl, DEFAULT_MAX_TTL);
      loggedIn, closed := false, false;
    }

    /** Fails closed once the budget is exceeded, and counts as use otherwise. */
    method Touch(now: Instant) returns (err: Option<SessionError>)
      modifies this
      ensures err == TouchError(old(State()), now) && State() == AfterTouch(old(State()), now)
      ensures err == Some(SessionClosed) <==> old(closed)
      ensures err == None <==> !old(closed) && now - openedAt <= maxTtl && now - old(lastUsedAt) <= idleTimeout
      ensures err == None ==> lastUsedAt == now && !closed && loggedIn == old(loggedIn)
      ensures err != None ==> closed && lastUsedAt == old(lastUsedAt) && (err == Some(SessionExpired) ==> !loggedIn)
    {
      if closed {
        return Some(SessionClosed);
      }
      if now - openedAt > maxTtl || now - lastUsedAt > idleTimeout {
        closed := true;
        loggedIn := false;
        return Some(SessionExpired);
      }
      lastUsedAt := now;
      err := None;
    }

    method Expired(now: Instant) returns (over: bool)
      ensures over <==> closed || now - openedAt > maxTtl || now - lastUsedAt > idleTimeout
    {
      if closed {
        return true;
      }
      over := now - openedAt > maxTtl || now - lastUsedAt > idleTimeout;
    }

    method MarkClosed()
      modifies this
      ensures State() == Marked(old(State()))
      ensures closed && !loggedIn && lastUsedAt == old(lastUsedAt)
    {
      closed := true;
      loggedIn := false;
    }

    method SetLoggedIn(v: bool)
      modifies this`loggedIn
      ensures State() == old(State()).(loggedIn := v)
    {
      loggedIn := v;
    }
  }

  // Searches.

  // A search the module has begun: what it found and has not handed over yet.
  class ModuleSearch {
    var left: seq<Handle>
    ghost var failed: bool

    constructor (found: seq<Handle>)
      ensures left == found && !failed
    {
      left := found;
      failed := false;
    }

    // Up to max of them, in any number but none while some are left.
    method Next(max: nat) returns (batch: Option<seq<Handle>>)
      requires max > 0
      modifies this
      ensures batch.Some? ==> |batch.value| <= max && old(left) == batch.value + left && (old(left) != [] ==> batch.value != [])
      ensures batch.None? ==> left == old(left)
      ensures batch.None? ==> failed
      ensures batch.Some? ==> failed == old(failed)
    {
      var fails: bool, n: nat := *, *;
      if fails {
        failed := true;
        return None;
      }
      var size := if n > max then max else n;
      size := if size == 0 then 1 else size;
      size := if size > |left| then |left| else size;
      batch := Some(left[..size]);
      left := left[size..];
    }
  }

  const FIND_OBJECTS_BATCH: nat := 50

  /** The batch loop returns everything the search found, in order, whatever the batches' sizes. */
  method FindObjects(search: ModuleSearch) returns (out: Option<seq<Handle>>)
    requires !search.failed
    modifies search
    ensures out.None? <==> search.failed
    ensures out.Some? ==> out.value == old(search.left) && search.left == []
  {
    var found: seq<Handle> := [];
    while true
      invariant found + search.left == old(search.left) && !search.failed
      decreases |search.left|
    {
      var batch := search.Next(FIND_OBJECTS_BATCH);
      if batch.None? {
        return None;
      }
      if |batch.value| == 0 {
        break;
      }
      for i := 0 to |batch.value|
        invariant found + batch.value[i..] + search.left == old(search.left)
      {
        found := found + [batch.value[i]];
      }
    }
    out := Some(found);
  }
}
