/**
The strict promise on the OCSP side: once a revocation has returned, no request that starts
later is told good. Invalidate leaves nothing an answer already under way would notice
(internal/responder/responder.go), so the promise fails exactly when such an answer is
still to be cached. This module says which, and proves both directions.
*/
module StrictRevocation {
  import opened Clock
  import opened Ocsp
  import opened RevocationSafety
  import opened RevocationService
  import opened RevocationSteps
  import opened Store
  import opened Wrappers

  // Certificates have identities: one that is still to be installed is not any that was.

  function CertOf(r: Request): Option<nat> {
    match r
    case Probed(_, _, current) => if current.Some? then Some(current.value.id) else None
    case Looked(_, _, cert, _) => Some(cert.id)
    case Signed(answer) => Some(answer.response.cert.id)
    case _ => None
  }

  function PendingCert(r: Request): Option<nat> {
    if r.Renewing? || r.Recorded? then Some(r.cert.id) else None
  }

  // An identity not yet handed to anyone who signs.
  ghost predicate Unused(s: State, id: nat) {
    && (s.responder.cert.Some? ==> s.responder.cert.value.id != id)
    && (forall u <- s.requests :: CertOf(s.requests[u]) != Some(id))
  }

  ghost predicate FreshIds(s: State) {
    forall id: nat | id >= s.nextCert :: Unused(s, id)
  }

  ghost predicate PendingIdsUnused(s: State) {
    forall t <- s.requests :: PendingCert(s.requests[t]).Some? ==>
      PendingCert(s.requests[t]).value < s.nextCert && Unused(s, PendingCert(s.requests[t]).value)
  }

  ghost predicate PendingIdsDiffer(s: State) {
    forall t <- s.requests, u <- s.requests ::
      t != u && PendingCert(s.requests[t]).Some? && PendingCert(s.requests[u]).Some? ==>
        PendingCert(s.requests[t]).value != PendingCert(s.requests[u]).value
  }

  ghost predicate CertInv(s: State) {
    FreshIds(s) && PendingIdsUnused(s) && PendingIdsDiffer(s)
  }

  // A request that goes on to sign uses the certificate in use, or the one it used.
  lemma BroughtCertOf(cfg: Config, s: State, a: Action, id: nat)
    requires Enabled(cfg, s, a) && (a.Probe? || a.Look? || a.Sign?) && Unused(s, id)
    ensures
      var t, s' := Subject(s, a), Apply(cfg, s, a);
      t in s'.requests ==> CertOf(s'.requests[t]) != Some(id)
  {
    assert CertOf(s.requests[Subject(s, a)]) != Some(id);
  }

  lemma UnusedStays(cfg: Config, s: State, a: Action, id: nat)
    requires Enabled(cfg, s, a) && Unused(s, id)
    requires a.SwapResponder? ==> s.requests[a.t].cert.id != id
    ensures Unused(Apply(cfg, s, a), id)
  {
    var s' := Apply(cfg, s, a);
    if s'.responder.cert.Some? {
      CurrentComesFrom(cfg, s, a);
    }
    forall u | u in s'.requests ensures CertOf(s'.requests[u]) != Some(id) {
      StepMovesOne(cfg, s, a, u);
      if a.Probe? || a.Look? || a.Sign? {
        BroughtCertOf(cfg, s, a, id);
      }
    }
  }

  lemma RecordPends(cfg: Config, s: State, t: nat)
    requires Enabled(cfg, s, RecordResponder(t))
    ensures
      var s' := Apply(cfg, s, RecordResponder(t));
      t in s'.requests ==> PendingCert(s'.requests[t]) == PendingCert(s.requests[t])
  {
  }

  lemma IssuePends(cfg: Config, s: State, serial: int)
    requires Enabled(cfg, s, IssueResponder(serial))
    ensures
      var s' := Apply(cfg, s, IssueResponder(serial));
      && s.nextRequest in s'.requests && PendingCert(s'.requests[s.nextRequest]) == Some(s.nextCert)
      && s'.nextCert == s.nextCert + 1
  {
  }

  lemma PendingComesFrom(cfg: Config, s: State, a: Action, t: nat)
    requires LockInv(s) && Enabled(cfg, s, a)
    requires t in Apply(cfg, s, a).requests && PendingCert(Apply(cfg, s, a).requests[t]).Some?
    ensures t in s.requests ==> PendingCert(s.requests[t]) == PendingCert(Apply(cfg, s, a).requests[t])
    ensures t !in s.requests ==>
              PendingCert(Apply(cfg, s, a).requests[t]) == Some(s.nextCert) && t == s.nextRequest
              && Apply(cfg, s, a).nextCert == s.nextCert + 1 && a.IssueResponder?
    ensures s.nextCert <= Apply(cfg, s, a).nextCert
  {
    NamesFrame(cfg, s, a);
    StepMovesOne(cfg, s, a, t);
    if a.RecordResponder? && t == a.t {
      RecordPends(cfg, s, t);
    } else if a.IssueResponder? && t == s.nextRequest {
      IssuePends(cfg, s, a.serial);
    } else {
      assert t in s.requests && Apply(cfg, s, a).requests[t] == s.requests[t];
    }
  }

  lemma StepKeepsCerts(cfg: Config, s: State, a: Action)
    requires LockInv(s) && CertInv(s) && Enabled(cfg, s, a)
    ensures CertInv(Apply(cfg, s, a))
  {
    var s' := Apply(cfg, s, a);
    NamesFrame(cfg, s, a);
    forall id: nat | id >= s'.nextCert ensures Unused(s', id) {
      if a.SwapResponder? {
        assert PendingCert(s.requests[a.t]).Some?;
      }
      UnusedStays(cfg, s, a, id);
    }
    forall t | t in s'.requests && PendingCert(s'.requests[t]).Some?
      ensures PendingCert(s'.requests[t]).value < s'.nextCert && Unused(s', PendingCert(s'.requests[t]).value)
    {
      PendingComesFrom(cfg, s, a, t);
      if a.SwapResponder? {
        assert PendingCert(s.requests[a.t]).Some?;
      }
      UnusedStays(cfg, s, a, PendingCert(s'.requests[t]).value);
    }
    forall t, u | t in s'.requests && u in s'.requests && t != u
                  && PendingCert(s'.requests[t]).Some? && PendingCert(s'.requests[u]).Some?
      ensures PendingCert(s'.requests[t]).value != PendingCert(s'.requests[u]).value
    {
      PendingComesFrom(cfg, s, a, t);
      PendingComesFrom(cfg, s, a, u);
    }
  }

  // What a request under way may still put in the cache as good for the serial: the answer's
  // own window end, under the certificate it is signed with.
  function GoodUnderWay(cfg: Config, r: Request, serial: int): Option<(ResponderCert, Instant)> {
    match r
    case Looked(about, now, cert, found) =>
      if about == serial && StatusOf(found) == Good then Some((cert, now + cfg.window)) else None
    case Signed(answer) =>
      if answer.response.serial == serial && answer.response.status == Good
      then Some((answer.response.cert, answer.nextUpdate)) else None
    case _ => None
  }

  // A good answer is under way, will be kept, and will still be fresh after instant c.
  predicate WillBeKept(cfg: Config, s: State, r: Request, serial: int, c: Instant) {
    var good := GoodUnderWay(cfg, r, serial);
    good.Some? && s.responder.cert == Some(good.value.0) && c < good.value.1
  }

  predicate ServesGood(e: Event, serial: int, t0: nat) {
    e.OcspServed? && e.request >= t0 && e.response.serial == serial && e.response.status == Good
  }

  predicate CacheSafe(s: State, serial: int, c: Instant) {
    serial in s.responder.cache && s.responder.cache[serial].response.status == Good ==>
      s.responder.cache[serial].nextUpdate <= c
  }

  predicate RequestSafe(cfg: Config, s: State, t: nat, r: Request, serial: int, t0: nat, c: Instant) {
    && (r.Asking? && t >= t0 ==> r.now >= c)
    && (GoodUnderWay(cfg, r, serial).Some? ==> t < t0)
    && !WillBeKept(cfg, s, r, serial, c)
  }

  // From here on, no request numbered t0 or later, which all start at c or later, can be
  // told the serial is good.
  ghost predicate NoWayBack(cfg: Config, s: State, serial: int, t0: nat, c: Instant) {
    && IsRevoked(s.store, serial) && c <= s.clock && t0 <= s.nextRequest
    && CacheSafe(s, serial, c)
    && (forall t <- s.requests :: RequestSafe(cfg, s, t, s.requests[t], serial, t0, c))
    && (forall e <- s.log :: !ServesGood(e, serial, t0))
  }

  lemma StepKeepsCacheSafe(cfg: Config, s: State, a: Action, serial: int, t0: nat, c: Instant)
    requires Enabled(cfg, s, a) && NoWayBack(cfg, s, serial, t0, c)
    ensures CacheSafe(Apply(cfg, s, a), serial, c)
  {
    if serial in Apply(cfg, s, a).responder.cache {
      CachedComesFrom(cfg, s, a, serial);
      if a.Keep? {
        assert RequestSafe(cfg, s, a.t, s.requests[a.t], serial, t0, c);
      }
    }
  }

  lemma SignKeepsGood(cfg: Config, s: State, t: nat, serial: int)
    requires Enabled(cfg, s, Sign(t))
    ensures
      var s' := Apply(cfg, s, Sign(t));
      t in s'.requests ==> GoodUnderWay(cfg, s'.requests[t], serial) == GoodUnderWay(cfg, s.requests[t], serial)
                           && CertOf(s.requests[t]).Some?
  {
  }

  // A look-up after the commit does not find the serial good.
  lemma LookFindsRevoked(cfg: Config, s: State, t: nat, serial: int)
    requires Enabled(cfg, s, Look(t)) && IsRevoked(s.store, serial)
    ensures
      var s' := Apply(cfg, s, Look(t));
      t in s'.requests ==> GoodUnderWay(cfg, s'.requests[t], serial).None?
  {
  }

  lemma GoodComesFrom(cfg: Config, s: State, a: Action, t: nat, serial: int)
    requires Enabled(cfg, s, a) && IsRevoked(s.store, serial)
    requires t in Apply(cfg, s, a).requests
    requires GoodUnderWay(cfg, Apply(cfg, s, a).requests[t], serial).Some?
    ensures t in s.requests && CertOf(s.requests[t]).Some?
    ensures GoodUnderWay(cfg, s.requests[t], serial) == GoodUnderWay(cfg, Apply(cfg, s, a).requests[t], serial)
  {
    StepMovesOne(cfg, s, a, t);
    if a == Sign(t) {
      SignKeepsGood(cfg, s, t, serial);
    } else if a == Look(t) {
      LookFindsRevoked(cfg, s, t, serial);
    }
  }

  // A certificate in use that is not current never becomes current again.
  lemma StaleStaysStale(cfg: Config, s: State, a: Action, cert: ResponderCert, t: nat)
    requires CertInv(s) && Enabled(cfg, s, a) && t in s.requests && CertOf(s.requests[t]) == Some(cert.id)
    requires s.responder.cert != Some(cert)
    ensures Apply(cfg, s, a).responder.cert != Some(cert)
  {
    if a.SwapResponder? {
      assert PendingCert(s.requests[a.t]).Some?;
    }
    if Apply(cfg, s, a).responder.cert.Some? {
      CurrentComesFrom(cfg, s, a);
    }
  }

  lemma WillBeKeptComesFrom(cfg: Config, s: State, a: Action, t: nat, serial: int, c: Instant)
    requires LockInv(s) && CertInv(s) && Enabled(cfg, s, a) && IsRevoked(s.store, serial) && StoreInv(s)
    requires t in Apply(cfg, s, a).requests
    requires WillBeKept(cfg, Apply(cfg, s, a), Apply(cfg, s, a).requests[t], serial, c)
    ensures t in s.requests && WillBeKept(cfg, s, s.requests[t], serial, c)
  {
    GoodComesFrom(cfg, s, a, t, serial);
    var cert := GoodUnderWay(cfg, s.requests[t], serial).value.0;
    if s.responder.cert != Some(cert) {
      StaleStaysStale(cfg, s, a, cert, t);
    }
  }

  lemma AskStartsNow(cfg: Config, s: State, serial: int)
    requires Enabled(cfg, s, Ask(serial))
    ensures
      var s' := Apply(cfg, s, Ask(serial));
      s.nextRequest in s'.requests && s'.requests[s.nextRequest] == Asking(serial, s.clock)
  {
  }

  lemma StepKeepsRequestSafe(cfg: Config, s: State, a: Action, serial: int, t0: nat, c: Instant, t: nat)
    requires StoreInv(s) && LockInv(s) && CertInv(s) && Enabled(cfg, s, a) && NoWayBack(cfg, s, serial, t0, c)
    requires t in Apply(cfg, s, a).requests
    ensures RequestSafe(cfg, Apply(cfg, s, a), t, Apply(cfg, s, a).requests[t], serial, t0, c)
  {
    var s' := Apply(cfg, s, a);
    StepMovesOne(cfg, s, a, t);
    if t in s.requests {
      assert RequestSafe(cfg, s, t, s.requests[t], serial, t0, c);
    }
    if a.Ask? {
      AskStartsNow(cfg, s, a.serial);
    }
    if GoodUnderWay(cfg, s'.requests[t], serial).Some? {
      GoodComesFrom(cfg, s, a, t, serial);
    }
    if WillBeKept(cfg, s', s'.requests[t], serial, c) {
      WillBeKeptComesFrom(cfg, s, a, t, serial, c);
    }
  }

  // An answer served now, of each kind.
  lemma ServedIsSafe(cfg: Config, s: State, a: Action, serial: int, t0: nat, c: Instant, e: Event)
    requires CacheInv(cfg, s) && Enabled(cfg, s, a) && NoWayBack(cfg, s, serial, t0, c)
    requires (a.Probe? || a.Sign? || a.Keep?) && e in Apply(cfg, s, a).log && e !in s.log
    ensures !ServesGood(e, serial, t0)
  {
    assert RequestSafe(cfg, s, a.t, s.requests[a.t], serial, t0, c);
  }

  lemma StepKeepsLogSafe(cfg: Config, s: State, a: Action, serial: int, t0: nat, c: Instant, e: Event)
    requires CacheInv(cfg, s) && Enabled(cfg, s, a) && NoWayBack(cfg, s, serial, t0, c)
    requires e in Apply(cfg, s, a).log
    ensures !ServesGood(e, serial, t0)
  {
    if e !in s.log && e.OcspServed? {
      NewEvent(cfg, s, a, e);
      ServedIsSafe(cfg, s, a, serial, t0, c, e);
    }
  }

  lemma StepKeepsNoWayBack(cfg: Config, s: State, a: Action, serial: int, t0: nat, c: Instant)
    requires StoreInv(s) && LockInv(s) && CacheInv(cfg, s) && CertInv(s) && Enabled(cfg, s, a)
    requires NoWayBack(cfg, s, serial, t0, c)
    ensures NoWayBack(cfg, Apply(cfg, s, a), serial, t0, c)
  {
    var s' := Apply(cfg, s, a);
    StepGrows(cfg, s, a);
    StepKeepsCacheSafe(cfg, s, a, serial, t0, c);
    forall t | t in s'.requests ensures RequestSafe(cfg, s', t, s'.requests[t], serial, t0, c) {
      StepKeepsRequestSafe(cfg, s, a, serial, t0, c, t);
    }
    forall e | e in s'.log ensures !ServesGood(e, serial, t0) {
      StepKeepsLogSafe(cfg, s, a, serial, t0, c, e);
    }
  }

  lemma {:induction false} RunKeepsNoWayBack(cfg: Config, s: State, run: seq<Action>, serial: int, t0: nat, c: Instant)
    requires ValidConfig(cfg) && Inv(cfg, s) && CertInv(s) && Executes(cfg, s, run)
    requires NoWayBack(cfg, s, serial, t0, c)
    ensures NoWayBack(cfg, After(cfg, s, run), serial, t0, c)
    decreases run
  {
    if run == [] {
    } else {
      StepKeepsInv(cfg, s, run[0]);
      StepKeepsCerts(cfg, s, run[0]);
      StepKeepsNoWayBack(cfg, s, run[0], serial, t0, c);
      RunKeepsNoWayBack(cfg, Apply(cfg, s, run[0]), run[1..], serial, t0, c);
    }
  }

  lemma {:induction false} RunKeepsCerts(cfg: Config, s: State, run: seq<Action>)
    requires ValidConfig(cfg) && Inv(cfg, s) && CertInv(s) && Executes(cfg, s, run)
    ensures CertInv(After(cfg, s, run))
    decreases run
  {
    if run == [] {
    } else {
      StepKeepsInv(cfg, s, run[0]);
      StepKeepsCerts(cfg, s, run[0]);
      RunKeepsCerts(cfg, Apply(cfg, s, run[0]), run[1..]);
    }
  }

  // An answer of good, found before the commit, that will be cached after the drop.
  ghost predicate Straddles(cfg: Config, s: State, serial: int) {
    exists t <- s.requests :: WillBeKept(cfg, s, s.requests[t], serial, s.clock)
  }

  ghost predicate CanServeGood(cfg: Config, s: State, serial: int) {
    exists run: seq<Action> ::
      Executes(cfg, s, run) && exists e <- After(cfg, s, run).log :: ServesGood(e, serial, s.nextRequest)
  }

  lemma FirstOfRun(cfg: Config, s: State, a: Action, rest: seq<Action>)
    requires Enabled(cfg, s, a)
    ensures Executes(cfg, s, [a] + rest) <==> Executes(cfg, Apply(cfg, s, a), rest)
    ensures Executes(cfg, Apply(cfg, s, a), rest) ==> After(cfg, s, [a] + rest) == After(cfg, Apply(cfg, s, a), rest)
  {
    assert ([a] + rest)[0] == a && ([a] + rest)[1..] == rest;
  }

  lemma ThreeSteps(cfg: Config, s: State, a: Action, b: Action, c: Action)
    requires Enabled(cfg, s, a) && Enabled(cfg, Apply(cfg, s, a), b) && Enabled(cfg, Apply(cfg, Apply(cfg, s, a), b), c)
    ensures Executes(cfg, s, [a, b, c])
    ensures After(cfg, s, [a, b, c]) == Apply(cfg, Apply(cfg, Apply(cfg, s, a), b), c)
  {
    var s1 := Apply(cfg, s, a);
    var s2 := Apply(cfg, s1, b);
    FirstOfRun(cfg, s2, c, []);
    FirstOfRun(cfg, s1, b, [c]);
    FirstOfRun(cfg, s, a, [b, c]);
    assert [c] + [] == [c] && [b] + [c] == [b, c] && [a] + [b, c] == [a, b, c];
  }

  // A kept answer is there to be hit by the next request.
  lemma KeptIsHit(cfg: Config, s: State, t: nat, serial: int)
    requires serial > 0 && t in s.requests && s.requests[t].Signed? && t < s.nextRequest
    requires WillBeKept(cfg, s, s.requests[t], serial, s.clock)
    ensures
      var s2 := Apply(cfg, Apply(cfg, s, Keep(t)), Ask(serial));
      && s2.nextRequest == s.nextRequest + 1
      && s.nextRequest in s2.requests && s2.requests[s.nextRequest] == Asking(serial, s.clock)
      && Hit(s2.responder, serial, s.clock) == Some(s.requests[t].answer)
  {
    assert Apply(cfg, s, Keep(t)).responder.cache[serial] == s.requests[t].answer;
  }

  lemma HitIsServed(cfg: Config, s: State, t: nat, answer: Cached)
    requires t in s.requests && s.requests[t].Asking? && Hit(s.responder, s.requests[t].serial, s.requests[t].now) == Some(answer)
    ensures OcspServed(t, s.requests[t].now, answer.response) in Apply(cfg, s, Probe(t)).log
  {
    var log := Apply(cfg, s, Probe(t)).log;
    assert log[|log| - 1] == OcspServed(t, s.requests[t].now, answer.response);
  }

  // The run that cashes a straddling answer in: sign it if need be, keep it, ask again.
  lemma StraddlerIsServed(cfg: Config, s: State, t: nat, serial: int)
    requires serial > 0 && t in s.requests && s.requests[t].Signed? && t < s.nextRequest
    requires WillBeKept(cfg, s, s.requests[t], serial, s.clock)
    ensures Executes(cfg, s, [Keep(t), Ask(serial), Probe(s.nextRequest)])
    ensures exists e <- After(cfg, s, [Keep(t), Ask(serial), Probe(s.nextRequest)]).log ::
              ServesGood(e, serial, s.nextRequest)
  {
    KeptIsHit(cfg, s, t, serial);
    var s2 := Apply(cfg, Apply(cfg, s, Keep(t)), Ask(serial));
    ThreeSteps(cfg, s, Keep(t), Ask(serial), Probe(s.nextRequest));
    HitIsServed(cfg, s2, s.nextRequest, s.requests[t].answer);
    assert ServesGood(OcspServed(s.nextRequest, s.clock, s.requests[t].answer.response), serial, s.nextRequest);
  }

  // A straddler not signed yet is signed first.
  lemma SignedStraddles(cfg: Config, s: State, t: nat, serial: int)
    requires Enabled(cfg, s, Sign(t)) && WillBeKept(cfg, s, s.requests[t], serial, s.clock)
    ensures
      var s1 := Apply(cfg, s, Sign(t));
      && t in s1.requests && s1.requests[t].Signed? && s1.nextRequest == s.nextRequest
      && WillBeKept(cfg, s1, s1.requests[t], serial, s1.clock)
  {
  }

  lemma StraddlingCanBeServed(cfg: Config, s: State, serial: int)
    requires LockInv(s) && serial > 0 && Straddles(cfg, s, serial)
    ensures CanServeGood(cfg, s, serial)
  {
    var t :| t in s.requests && WillBeKept(cfg, s, s.requests[t], serial, s.clock);
    if s.requests[t].Signed? {
      StraddlerIsServed(cfg, s, t, serial);
    } else {
      SignedStraddles(cfg, s, t, serial);
      var s1 := Apply(cfg, s, Sign(t));
      StraddlerIsServed(cfg, s1, t, serial);
      var rest := [Keep(t), Ask(serial), Probe(s1.nextRequest)];
      assert ([Sign(t)] + rest)[1..] == rest;
      assert Executes(cfg, s, [Sign(t)] + rest);
      assert After(cfg, s, [Sign(t)] + rest) == After(cfg, s1, rest);
    }
  }

  lemma NothingStraddlingIsSafe(cfg: Config, s: State, serial: int)
    requires ValidConfig(cfg) && Inv(cfg, s) && CertInv(s)
    requires IsRevoked(s.store, serial) && serial !in s.responder.cache && !Straddles(cfg, s, serial)
    ensures NoWayBack(cfg, s, serial, s.nextRequest, s.clock)
  {
    forall t | t in s.requests ensures RequestSafe(cfg, s, t, s.requests[t], serial, s.nextRequest, s.clock) {
      assert !WillBeKept(cfg, s, s.requests[t], serial, s.clock);
      assert t < s.nextRequest;
    }
    forall e | e in s.log ensures !ServesGood(e, serial, s.nextRequest) {
      assert e.OcspServed? ==> e.request < s.nextRequest;
    }
  }

  /**
  When the strict promise holds. With the serial revoked and its cached answer dropped, as
  they are when handleRevoke returns, some later request can still be told good exactly
  when an answer of good is on its way into the cache: looked up before the commit, signed
  or about to be under the certificate that is still current, and not yet past its window.
  */
  lemma StrictIffNothingStraddles(cfg: Config, s: State, serial: int)
    requires ValidConfig(cfg) && Inv(cfg, s) && CertInv(s)
    requires serial > 0 && IsRevoked(s.store, serial) && serial !in s.responder.cache
    ensures CanServeGood(cfg, s, serial) <==> Straddles(cfg, s, serial)
  {
    if Straddles(cfg, s, serial) {
      StraddlingCanBeServed(cfg, s, serial);
    } else {
      NothingStraddlingIsSafe(cfg, s, serial);
      forall run | Executes(cfg, s, run)
        ensures !exists e <- After(cfg, s, run).log :: ServesGood(e, serial, s.nextRequest)
      {
        RunKeepsNoWayBack(cfg, s, run, serial, s.nextRequest, s.clock);
      }
    }
  }

  /**
  Read off a run: at the moment a revocation returns in any execution of the service, the
  condition above is the whole answer.
  */
  lemma AfterARevocationReturns(cfg: Config, s0: State, run: seq<Action>, t: nat)
    requires ValidConfig(cfg) && Init(s0) && Executes(cfg, s0, run)
    requires Enabled(cfg, After(cfg, s0, run), DropOcsp(t)) && After(cfg, s0, run).requests[t].serial > 0
    ensures
      var serial := After(cfg, s0, run).requests[t].serial;
      var s := Apply(cfg, After(cfg, s0, run), DropOcsp(t));
      CanServeGood(cfg, s, serial) <==> Straddles(cfg, s, serial)
  {
    InitEstablishesInv(cfg, s0);
    RunKeepsInv(cfg, s0, run);
    RunKeepsCerts(cfg, s0, run);
    var s := After(cfg, s0, run);
    StepKeepsInv(cfg, s, DropOcsp(t));
    StepKeepsCerts(cfg, s, DropOcsp(t));
    StrictIffNothingStraddles(cfg, Apply(cfg, s, DropOcsp(t)), s.requests[t].serial);
  }

  // Runs are extended at their end.
  lemma {:induction false} Extend(cfg: Config, s: State, run: seq<Action>, a: Action)
    requires Executes(cfg, s, run) && Enabled(cfg, After(cfg, s, run), a)
    ensures Executes(cfg, s, run + [a]) && After(cfg, s, run + [a]) == Apply(cfg, After(cfg, s, run), a)
    decreases run
  {
    if run == [] {
      assert run + [a] == [a] && [a][1..] == [];
    } else {
      Extend(cfg, Apply(cfg, s, run[0]), run[1..], a);
      assert (run + [a])[0] == run[0] && (run + [a])[1..] == run[1..] + [a];
    }
  }

  /**
  The strict promise can fail. Certificate 1 is issued and a status request for it is looked
  up; it is revoked and the revocation returns; the request is signed and cached; a request
  that starts afterwards is told good.
  */
  lemma StrictPromiseCanFail(cfg: Config, s0: State) returns (run: seq<Action>, t: nat)
    requires ValidConfig(cfg) && cfg.profileValidity >= SECOND && Init(s0)
    ensures Executes(cfg, s0, run) && Enabled(cfg, After(cfg, s0, run), DropOcsp(t))
    ensures After(cfg, s0, run).requests[t].serial == 1
    ensures CanServeGood(cfg, Apply(cfg, After(cfg, s0, run), DropOcsp(t)), 1)
  {
    var n;
    run, n := RequestIsLookedUp(cfg, s0);
    t := After(cfg, s0, run).nextRequest;
    run := ExtendBy(cfg, s0, run, Revoke(1, 0, s0.clock));
    run := ExtendBy(cfg, s0, run, DropCrl(t));
    ItStraddles(cfg, Apply(cfg, After(cfg, s0, run), DropOcsp(t)), n);
    AfterARevocationReturns(cfg, s0, run, t);
  }

  // Request n found certificate 1 unrevoked and is about to sign under the current certificate.
  ghost predicate LookedUp(s: State, n: nat) {
    && n in s.requests && n < s.nextRequest && s.crlMu.None?
    && s.requests[n].Looked? && s.requests[n].serial == 1 && s.requests[n].now == s.clock
    && StatusOf(s.requests[n].found) == Good && s.responder.cert == Some(s.requests[n].cert)
    && MaySign(s.responder.cert, s.clock)
  }

  lemma ItStraddles(cfg: Config, s: State, n: nat)
    requires ValidConfig(cfg) && LookedUp(s, n)
    ensures Straddles(cfg, s, 1)
  {
    assert WillBeKept(cfg, s, s.requests[n], 1, s.clock);
  }

  lemma RequestIsLookedUp(cfg: Config, s0: State) returns (run: seq<Action>, n: nat)
    requires cfg.profileValidity >= SECOND && Init(s0)
    ensures Executes(cfg, s0, run) && After(cfg, s0, run).clock == s0.clock
    ensures LookedUp(After(cfg, s0, run), n)
    ensures 1 in After(cfg, s0, run).store && After(cfg, s0, run).store[1].status == Valid
    ensures After(cfg, s0, run).requests[n].cert.notAfter <= s0.clock + cfg.profileValidity
  {
    run := ResponderComesUp(cfg, s0);
    n := After(cfg, s0, run).nextRequest;
    run := ExtendBy(cfg, s0, run, Ask(1));
    run := ExtendBy(cfg, s0, run, Probe(n));
    run := ExtendBy(cfg, s0, run, Look(n));
  }

  // How long a looked-up request has been held, and how long its certificate had left when
  // it read the clock.
  function HeldFor(s: State, t: nat): Span
    requires t in s.requests && s.requests[t].Looked?
  {
    s.clock - s.requests[t].now
  }

  function LeftFor(s: State, t: nat): Span
    requires t in s.requests && s.requests[t].Looked?
  {
    s.requests[t].cert.notAfter - s.requests[t].now
  }

  // Every signature of a run is made inside the window of the certificate it is made under.
  ghost predicate SignsInWindow(cfg: Config, s: State, run: seq<Action>)
    requires Executes(cfg, s, run)
    decreases run
  {
    run == [] ||
    (&& (run[0].Sign? ==> MaySign(Some(s.requests[run[0].t].cert), s.clock))
     && SignsInWindow(cfg, Apply(cfg, s, run[0]), run[1..]))
  }

  // Every signature of a run is made before its request was held for longer than its
  // certificate had left.
  ghost predicate SignsInTime(cfg: Config, s: State, run: seq<Action>)
    requires Executes(cfg, s, run)
    decreases run
  {
    run == [] ||
    (&& (run[0].Sign? ==> HeldFor(s, run[0].t) <= LeftFor(s, run[0].t))
     && SignsInTime(cfg, Apply(cfg, s, run[0]), run[1..]))
  }

  // No request of a run is held past a bound, and each had at least the bound left.
  ghost predicate SignsPromptly(cfg: Config, s: State, run: seq<Action>, bound: Span)
    requires Executes(cfg, s, run)
    decreases run
  {
    run == [] ||
    (&& (run[0].Sign? ==> HeldFor(s, run[0].t) <= bound <= LeftFor(s, run[0].t))
     && SignsPromptly(cfg, Apply(cfg, s, run[0]), run[1..], bound))
  }

  // The check at the point of use has been made for a request about to sign.
  lemma LookedUpInWindow(cfg: Config, s: State, t: nat)
    requires Inv(cfg, s) && t in s.requests && s.requests[t].Looked?
    ensures HeldFor(s, t) >= 0 && MaySign(Some(s.requests[t].cert), s.requests[t].now)
    ensures MaySign(Some(s.requests[t].cert), s.clock) <==> HeldFor(s, t) <= LeftFor(s, t)
  {
    assert AskersInv(cfg, s);
  }

  lemma {:induction false} InWindowIffInTime(cfg: Config, s: State, run: seq<Action>)
    requires ValidConfig(cfg) && Inv(cfg, s) && Executes(cfg, s, run)
    ensures SignsInWindow(cfg, s, run) <==> SignsInTime(cfg, s, run)
    decreases run
  {
    if run == [] {
    } else {
      if run[0].Sign? {
        LookedUpInWindow(cfg, s, run[0].t);
      }
      StepKeepsInv(cfg, s, run[0]);
      InWindowIffInTime(cfg, Apply(cfg, s, run[0]), run[1..]);
    }
  }

  lemma {:induction false} PromptIsInTime(cfg: Config, s: State, run: seq<Action>, bound: Span)
    requires Executes(cfg, s, run) && SignsPromptly(cfg, s, run, bound)
    ensures SignsInTime(cfg, s, run)
    decreases run
  {
    if run == [] {
    } else {
      PromptIsInTime(cfg, Apply(cfg, s, run[0]), run[1..], bound);
    }
  }

  /**
  When every signature is inside its certificate's window, over every run of the service:
  exactly when no request is held, between the clock reading its check used and its
  signature, for longer than its certificate had left. Requests held for at most a bound
  meet that when each had the bound left.
  */
  lemma SignaturesInWindow(cfg: Config, s0: State, run: seq<Action>, bound: Span)
    requires ValidConfig(cfg) && Init(s0) && Executes(cfg, s0, run)
    ensures SignsInWindow(cfg, s0, run) <==> SignsInTime(cfg, s0, run)
    ensures SignsPromptly(cfg, s0, run, bound) ==> SignsInWindow(cfg, s0, run)
  {
    InitEstablishesInv(cfg, s0);
    InWindowIffInTime(cfg, s0, run);
    if SignsPromptly(cfg, s0, run, bound) {
      PromptIsInTime(cfg, s0, run, bound);
    }
  }

  /** The same at any point of any run, for a signature about to be made there. */
  lemma SignatureInWindow(cfg: Config, s0: State, run: seq<Action>, t: nat)
    requires ValidConfig(cfg) && Init(s0) && Executes(cfg, s0, run) && Enabled(cfg, After(cfg, s0, run), Sign(t))
    ensures
      var s := After(cfg, s0, run);
      MaySign(Some(s.requests[t].cert), s.clock) <==> HeldFor(s, t) <= LeftFor(s, t)
  {
    InitEstablishesInv(cfg, s0);
    RunKeepsInv(cfg, s0, run);
    LookedUpInWindow(cfg, After(cfg, s0, run), t);
  }

  // Whenever the request signs from now on, within the bound of its reading, it is in the window.
  ghost predicate SafeWithin(s: State, t: nat, bound: Span)
    requires t in s.requests && s.requests[t].Looked?
  {
    forall at: Instant :: s.clock <= at <= s.requests[t].now + bound ==> MaySign(Some(s.requests[t].cert), at)
  }

  /**
  The bound a caller can set: for any request looked up in any run and not yet held for the
  bound, signing within the bound is inside the window, whatever the delay, if and only if
  the request had at least the bound left when it was checked.
  */
  lemma HoldBoundIsExact(cfg: Config, s0: State, run: seq<Action>, t: nat, bound: Span)
    requires ValidConfig(cfg) && Init(s0) && Executes(cfg, s0, run) && Enabled(cfg, After(cfg, s0, run), Sign(t))
    requires HeldFor(After(cfg, s0, run), t) <= bound
    ensures SafeWithin(After(cfg, s0, run), t, bound) <==> bound <= LeftFor(After(cfg, s0, run), t)
    ensures forall delay: nat ::
              && Enabled(cfg, Apply(cfg, After(cfg, s0, run), Tick(delay)), Sign(t))
              && Apply(cfg, After(cfg, s0, run), Tick(delay)).clock == After(cfg, s0, run).clock + delay
  {
    InitEstablishesInv(cfg, s0);
    RunKeepsInv(cfg, s0, run);
    var s := After(cfg, s0, run);
    LookedUpInWindow(cfg, s, t);
    assert MaySign(Some(s.requests[t].cert), s.requests[t].now + bound) <==> bound <= LeftFor(s, t);
  }

  /**
  A failing input: a request looked up and then held for longer than a responder certificate
  lasts is about to sign outside its certificate's window.
  */
  lemma SigningCanBeLate(cfg: Config, s0: State, delay: nat) returns (run: seq<Action>, n: nat)
    requires cfg.profileValidity >= SECOND && Init(s0) && delay > cfg.profileValidity
    ensures Executes(cfg, s0, run) && Enabled(cfg, After(cfg, s0, run), Sign(n))
    ensures HeldFor(After(cfg, s0, run), n) == delay
    ensures !MaySign(Some(After(cfg, s0, run).requests[n].cert), After(cfg, s0, run).clock)
  {
    run, n := RequestIsLookedUp(cfg, s0);
    run := ExtendBy(cfg, s0, run, Tick(delay));
  }

  // Certificate 1 is on record, unrevoked, and the responder may sign.
  ghost predicate Up(cfg: Config, s: State) {
    && 1 in s.store && s.store[1].status == Valid
    && s.crlMu.None? && s.responder.cache == map[] && s.requests == map[]
    && MaySign(s.responder.cert, s.clock) && s.responder.cert.value.notAfter <= s.clock + cfg.profileValidity
  }

  // A responder certificate of this instant is issued and recorded.
  lemma CertificateIsRecorded(cfg: Config, s0: State) returns (run: seq<Action>)
    requires Init(s0)
    ensures Executes(cfg, s0, run)
    ensures
      var s, n := After(cfg, s0, run), s0.nextRequest;
      && s.clock == s0.clock && s.crlMu.None? && s.responder.cache == map[]
      && s.requests == map[n := Recorded(IssuedAt(s0.nextCert, 2, s0.clock, cfg.profileValidity))]
      && 1 in s.store && s.store[1].status == Valid
  {
    run := [];
    run := ExtendBy(cfg, s0, run, Issue(CertRecord(1, "", 0, Valid, ZERO_INSTANT, 0)));
    run := ExtendBy(cfg, s0, run, IssueResponder(2));
    run := ExtendBy(cfg, s0, run, RecordResponder(s0.nextRequest));
  }

  lemma ResponderComesUp(cfg: Config, s0: State) returns (run: seq<Action>)
    requires cfg.profileValidity >= SECOND && Init(s0)
    ensures Executes(cfg, s0, run) && Up(cfg, After(cfg, s0, run)) && After(cfg, s0, run).clock == s0.clock
  {
    run := CertificateIsRecorded(cfg, s0);
    ghost var cert := IssuedAt(s0.nextCert, 2, s0.clock, cfg.profileValidity);
    assert MaySign(Some(cert), s0.clock) && cert.notAfter <= s0.clock + cfg.profileValidity;
    run := ExtendBy(cfg, s0, run, SwapResponder(s0.nextRequest));
  }

  lemma ExtendBy(cfg: Config, s: State, run: seq<Action>, a: Action) returns (longer: seq<Action>)
    requires Executes(cfg, s, run) && Enabled(cfg, After(cfg, s, run), a)
    ensures longer == run + [a] && Executes(cfg, s, longer)
    ensures After(cfg, s, longer) == Apply(cfg, After(cfg, s, run), a)
  {
    Extend(cfg, s, run, a);
    longer := run + [a];
  }
}
