/**
Which part of the service each action touches. An action moves one request; most leave the
log, the two caches, the counter and the lock alone. The invariants are kept action by
action where an action touches what they speak of, and by these facts everywhere else.
*/
module RevocationSteps {
  import opened Crl
  import opened Ocsp
  import opened RevocationService
  import opened Store
  import opened Wrappers

  predicate FetchAction(a: Action) {
    a.FetchHit? || a.FetchMiss? || a.FetchRead? || a.FetchNumber? || a.FetchBuild? || a.Fail?
  }

  predicate AnswerAction(a: Action) {
    a.Ask? || a.Probe? || a.Look? || a.Sign? || a.Keep?
  }

  predicate RenewAction(a: Action) {
    a.IssueResponder? || a.RecordResponder? || a.SwapResponder?
  }

  predicate RevokeAction(a: Action) {
    a.Revoke? || a.DropCrl? || a.DropOcsp?
  }

  predicate PlainAction(a: Action) {
    a.Tick? || a.Restart? || a.Issue?
  }

  // The request an action moves, or the number a new one gets.
  function Subject(s: State, a: Action): nat {
    match a
    case DropCrl(t) => t
    case DropOcsp(t) => t
    case FetchRead(t, _) => t
    case FetchNumber(t) => t
    case FetchBuild(t, _) => t
    case Fail(t) => t
    case Probe(t) => t
    case Look(t) => t
    case Sign(t) => t
    case Keep(t) => t
    case RecordResponder(t) => t
    case SwapResponder(t) => t
    case _ => s.nextRequest
  }

  // The phase a request is in names the action that brought it there.
  predicate Brings(a: Action, r: Request) {
    match r
    case Revoking(serial) => a.Revoke? && a.serial == serial
    case CrlDropped(_) => a.DropCrl?
    case Fetching(_) => a.FetchMiss?
    case Fetched(_, listing) => a.FetchRead? && a.listing == listing
    case Numbered(_, _, _) => a.FetchNumber?
    case Asking(_, _) => a.Ask?
    case Probed(_, _, _) => a.Probe?
    case Looked(_, _, _, _) => a.Look?
    case Signed(_) => a.Sign?
    case Renewing(_) => a.IssueResponder?
    case Recorded(_) => a.RecordResponder?
  }

  // A request after a step was there before as it is, or is the one the step moved.
  ghost predicate ComesFrom(s: State, a: Action, s': State, t: nat)
    requires t in s'.requests
  {
    || (t in s.requests && s'.requests[t] == s.requests[t])
    || (&& t == Subject(s, a) && Brings(a, s'.requests[t])
        && (t in s.requests || (t == s.nextRequest && t < s'.nextRequest)))
  }

  // A request before a step is there after it as it was, unless the step moved it.
  ghost predicate Stays(s: State, a: Action, s': State, t: nat)
    requires t in s.requests
  {
    t != Subject(s, a) && !a.Restart? ==> t in s'.requests && s'.requests[t] == s.requests[t]
  }

  ghost predicate MovesOne(s: State, a: Action, s': State, t: nat) {
    (t in s'.requests ==> ComesFrom(s, a, s', t)) && (t in s.requests ==> Stays(s, a, s', t))
  }

  lemma FetchMovesOne(cfg: Config, s: State, a: Action, t: nat)
    requires Enabled(cfg, s, a) && FetchAction(a)
    ensures MovesOne(s, a, Apply(cfg, s, a), t)
  {
  }

  lemma AnswerMovesOne(cfg: Config, s: State, a: Action, t: nat)
    requires Enabled(cfg, s, a) && AnswerAction(a)
    ensures MovesOne(s, a, Apply(cfg, s, a), t)
  {
  }

  lemma RenewMovesOne(cfg: Config, s: State, a: Action, t: nat)
    requires Enabled(cfg, s, a) && RenewAction(a)
    ensures MovesOne(s, a, Apply(cfg, s, a), t)
  {
  }

  lemma RevokeMovesOne(cfg: Config, s: State, a: Action, t: nat)
    requires Enabled(cfg, s, a) && RevokeAction(a)
    ensures MovesOne(s, a, Apply(cfg, s, a), t)
  {
  }

  lemma PlainMovesOne(cfg: Config, s: State, a: Action, t: nat)
    requires Enabled(cfg, s, a) && PlainAction(a)
    ensures MovesOne(s, a, Apply(cfg, s, a), t)
  {
  }

  lemma StepMovesOne(cfg: Config, s: State, a: Action, t: nat)
    requires Enabled(cfg, s, a)
    ensures MovesOne(s, a, Apply(cfg, s, a), t)
  {
    if FetchAction(a) {
      FetchMovesOne(cfg, s, a, t);
    } else if AnswerAction(a) {
      AnswerMovesOne(cfg, s, a, t);
    } else if RenewAction(a) {
      RenewMovesOne(cfg, s, a, t);
    } else if RevokeAction(a) {
      RevokeMovesOne(cfg, s, a, t);
    } else {
      PlainMovesOne(cfg, s, a, t);
    }
  }

  // Frames.

  predicate Logs(a: Action) {
    a.DropOcsp? || a.FetchHit? || a.FetchBuild? || a.Probe? || a.Sign? || a.Keep?
  }

  lemma LogFrame(cfg: Config, s: State, a: Action)
    requires Enabled(cfg, s, a) && !Logs(a)
    ensures Apply(cfg, s, a).log == s.log
  {
  }

  lemma CrlFrame(cfg: Config, s: State, a: Action)
    requires Enabled(cfg, s, a) && !a.Restart? && !a.DropCrl? && !a.FetchBuild?
    ensures Apply(cfg, s, a).crlCache == s.crlCache
  {
  }

  lemma CounterFrame(cfg: Config, s: State, a: Action)
    requires Enabled(cfg, s, a) && !a.FetchNumber?
    ensures Apply(cfg, s, a).counter == s.counter
  {
  }

  lemma ResponderFrame(cfg: Config, s: State, a: Action)
    requires Enabled(cfg, s, a) && !a.Restart? && !a.DropOcsp? && !a.Keep? && !a.SwapResponder?
    ensures Apply(cfg, s, a).responder == s.responder
  {
  }

  lemma LockFrame(cfg: Config, s: State, a: Action)
    requires Enabled(cfg, s, a) && !a.Restart? && !a.FetchMiss? && !a.FetchBuild? && !a.Fail?
    ensures Apply(cfg, s, a).crlMu == s.crlMu
  {
  }

  lemma NamesFrame(cfg: Config, s: State, a: Action)
    requires Enabled(cfg, s, a)
    ensures s.nextRequest <= Apply(cfg, s, a).nextRequest && s.nextCert <= Apply(cfg, s, a).nextCert
  {
  }

  // What an action that logs adds to the log.
  ghost predicate MayLog(a: Action, e: Event) {
    match e
    case RevocationReturned(_) => a.DropOcsp?
    case CrlBuilt(_) => a.FetchBuild?
    case CrlServed(_, _) => a.FetchHit? || a.FetchBuild?
    case OcspServed(_, _, _) => a.Probe? || a.Sign? || a.Keep?
  }

  lemma LogGrows(cfg: Config, s: State, a: Action)
    requires Enabled(cfg, s, a)
    ensures s.log <= Apply(cfg, s, a).log
    ensures forall k :: |s.log| <= k < |Apply(cfg, s, a).log| ==> MayLog(a, Apply(cfg, s, a).log[k])
  {
    if !Logs(a) {
      LogFrame(cfg, s, a);
    }
  }

  lemma NewEvent(cfg: Config, s: State, a: Action, e: Event)
    requires Enabled(cfg, s, a) && e in Apply(cfg, s, a).log && e !in s.log
    ensures MayLog(a, e)
  {
    LogGrows(cfg, s, a);
    var log := Apply(cfg, s, a).log;
    assert forall i :: 0 <= i < |s.log| ==> log[i] in s.log;
    var k :| 0 <= k < |log| && log[k] == e;
  }
}
