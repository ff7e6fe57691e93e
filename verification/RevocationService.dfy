/**
The revocation service as a concurrent machine (internal/api/server.go,
internal/responder/responder.go over one store). Every lock region and every store
transaction is one action; an action names the request it belongs to, and everything the
code does not decide (the clock, faults, the order of a listing) is a parameter of it.

currentCRL keeps crlMu from its cache probe to its cache write, but the store's revocation
does not take that lock. Respond gives the responder's lock back between its cache probe,
its store lookup and its cache write. Requests in flight sit between two of their actions.
*/
module RevocationService {
  import opened Clock
  import opened Crl
  import opened Ocsp
  import opened Store
  import opened Wrappers

  datatype Config = Config(
    crlValidity: Span,
    issuerNotAfter: Instant,
    window: Span,
    profileValidity: Span,
    crlNumberFloor: Option<int>
  )

  // The configuration gives its spans in hours, certificates end on a second, and New
  // refuses a response validity that is not positive.
  predicate ValidConfig(cfg: Config) {
    WholeSecond(cfg.crlValidity) && WholeSecond(cfg.issuerNotAfter) && cfg.window > 0
  }

  datatype Request =
    | Revoking(serial: int)
    | CrlDropped(serial: int)
    | Fetching(now: Instant)
    | Fetched(now: Instant, listing: seq<CertRecord>)
    | Numbered(now: Instant, listing: seq<CertRecord>, number: int)
    | Asking(serial: int, now: Instant)
    | Probed(serial: int, now: Instant, current: Option<ResponderCert>)
    | Looked(serial: int, now: Instant, cert: ResponderCert, found: Option<CertRecord>)
    | Signed(answer: Cached)
    | Renewing(cert: ResponderCert)
    | Recorded(cert: ResponderCert)

  datatype Event =
    | RevocationReturned(serial: int)
    | CrlBuilt(crl: Crl)
    | CrlServed(crl: Crl, now: Instant)
    | OcspServed(request: nat, now: Instant, response: Response)

  datatype State = State(
    clock: Instant,
    store: Records,
    counter: Option<int>,
    crlMu: Option<nat>,
    crlCache: CrlCache,
    responder: Responder,
    requests: map<nat, Request>,
    nextRequest: nat,
    nextCert: nat,
    committed: map<int, Instant>,
    log: seq<Event>
  )

  datatype Action =
    | Tick(span: nat)
    | Restart
    | Issue(rec: CertRecord)
    | Revoke(serial: int, reason: int, at: Instant)
    | DropCrl(t: nat)
    | DropOcsp(t: nat)
    | FetchHit
    | FetchMiss
    | FetchRead(t: nat, listing: seq<CertRecord>)
    | FetchNumber(t: nat)
    | FetchBuild(t: nat, signs: bool)
    | Fail(t: nat)
    | Ask(serial: int)
    | Probe(t: nat)
    | Look(t: nat)
    | Sign(t: nat)
    | Keep(t: nat)
    | IssueResponder(serial: int)
    | RecordResponder(t: nat)
    | SwapResponder(t: nat)

  ghost predicate Init(s: State) {
    && s.store == map[] && s.committed == map[] && s.counter == None
    && s.crlMu == None && s.crlCache.crl == None && s.responder == Responder(None, map[])
    && s.requests == map[] && s.log == []
  }

  predicate HoldsCrlMu(r: Request) {
    r.Fetching? || r.Fetched? || r.Numbered?
  }

  // A request that Fail may end: a store or signing error turns into an error answer.
  predicate CanFail(r: Request) {
    HoldsCrlMu(r) || r.Probed? || r.Looked? || r.Renewing?
  }

  ghost predicate Enabled(cfg: Config, s: State, a: Action) {
    match a
    case Tick(_) => true
    case Restart => true
    case Issue(rec) => FreshlyIssued(rec)
    case Revoke(serial, reason, at) => at <= s.clock
    case DropCrl(t) => t in s.requests && s.requests[t].Revoking? && s.crlMu.None?
    case DropOcsp(t) => t in s.requests && s.requests[t].CrlDropped?
    case FetchHit => s.crlMu.None? && CacheHit(s.crlCache, s.clock).Some?
    case FetchMiss => s.crlMu.None? && CacheHit(s.crlCache, s.clock).None?
    case FetchRead(t, listing) => t in s.requests && s.requests[t].Fetching? && IsListing(listing, s.store)
    case FetchNumber(t) => t in s.requests && s.requests[t].Fetched?
    case FetchBuild(t, _) => t in s.requests && s.requests[t].Numbered?
    case Fail(t) => t in s.requests && CanFail(s.requests[t])
    case Ask(serial) => serial > 0
    case Probe(t) => t in s.requests && s.requests[t].Asking?
    case Look(t) => t in s.requests && s.requests[t].Probed? && MaySign(s.requests[t].current, s.requests[t].now)
    case Sign(t) => t in s.requests && s.requests[t].Looked?
    case Keep(t) => t in s.requests && s.requests[t].Signed?
    case IssueResponder(serial) => serial > 0
    case RecordResponder(t) => t in s.requests && s.requests[t].Renewing?
    case SwapResponder(t) => t in s.requests && s.requests[t].Recorded?
  }

  function Begin(s: State, r: Request): State {
    s.(requests := s.requests[s.nextRequest := r], nextRequest := s.nextRequest + 1)
  }

  function Continue(s: State, t: nat, r: Request): State {
    s.(requests := s.requests[t := r])
  }

  function End(s: State, t: nat): State {
    s.(requests := s.requests - {t})
  }

  function Release(s: State, t: nat): State {
    End(s, t).(crlMu := None)
  }

  function Log(s: State, es: seq<Event>): State {
    s.(log := s.log + es)
  }

  function Apply(cfg: Config, s: State, a: Action): State
    requires Enabled(cfg, s, a)
  {
    match a
    case Tick(span) => s.(clock := s.clock + span)
    case Restart =>
      s.(crlMu := None, crlCache := s.crlCache.(crl := None), responder := Responder(None, map[]), requests := map[])
    case Issue(rec) => s.(store := AfterRecord(s.store, rec))
    case Revoke(serial, reason, at) => AfterRevokeAction(s, serial, reason, at)
    case DropCrl(t) =>
      Continue(s, t, CrlDropped(s.requests[t].serial)).(crlCache := CacheDropped(s.crlCache))
    case DropOcsp(t) =>
      Log(End(s, t).(responder := Dropped(s.responder)), [RevocationReturned(s.requests[t].serial)])
    case FetchHit => Log(s, [CrlServed(CacheHit(s.crlCache, s.clock).value, s.clock)])
    case FetchMiss => Begin(s, Fetching(s.clock)).(crlMu := Some(s.nextRequest))
    case FetchRead(t, listing) => Continue(s, t, Fetched(s.requests[t].now, listing))
    case FetchNumber(t) =>
      var r := s.requests[t];
      var number := NextNumber(s.counter, cfg.crlNumberFloor, s.clock);
      Continue(s, t, Numbered(r.now, r.listing, number)).(counter := Some(number))
    case FetchBuild(t, signs) => AfterBuild(cfg, s, t, signs)
    case Fail(t) => if HoldsCrlMu(s.requests[t]) then Release(s, t) else End(s, t)
    case Ask(serial) => Begin(s, Asking(serial, s.clock))
    case Probe(t) =>
      var r := s.requests[t];
      var hit := Hit(s.responder, r.serial, r.now);
      if hit.Some?
      then Log(End(s, t), [OcspServed(t, r.now, hit.value.response)])
      else Continue(s, t, Probed(r.serial, r.now, s.responder.cert))
    case Look(t) =>
      var r := s.requests[t];
      var found := if r.serial in s.store then Some(s.store[r.serial]) else None;
      Continue(s, t, Looked(r.serial, r.now, r.current.value, found))
    case Sign(t) =>
      var r := s.requests[t];
      var answer := Answer(r.cert, r.serial, r.now, r.found, cfg.window);
      if r.found.Some?
      then Continue(s, t, Signed(answer))
      else Log(End(s, t), [OcspServed(t, r.now, answer.response)])
    case Keep(t) =>
      var answer := s.requests[t].answer;
      Log(End(s, t).(responder := Kept(s.responder, answer)),
          [OcspServed(t, answer.response.asked, answer.response)])
    case IssueResponder(serial) =>
      Begin(s, Renewing(IssuedAt(s.nextCert, serial, s.clock, cfg.profileValidity))).(nextCert := s.nextCert + 1)
    case RecordResponder(t) =>
      var cert := s.requests[t].cert;
      var rec := CertRecord(cert.serial, "", cert.notAfter, Valid, ZERO_INSTANT, 0);
      if RecordError(s.store, rec).Some?
      then End(s, t)
      else Continue(s, t, Recorded(cert)).(store := AfterRecord(s.store, rec))
    case SwapResponder(t) => End(s, t).(responder := Renewed(s.requests[t].cert))
  }

  function AfterRevokeAction(s: State, serial: int, reason: int, at: Instant): State {
    if RevokeError(s.store, serial, reason).Some? then s
    else
      var first := s.store[serial].status == Valid;
      Begin(s, Revoking(serial)).(
        store := AfterRevoke(s.store, serial, reason, at),
        committed := if first then s.committed[serial := s.clock] else s.committed)
  }

  function AfterBuild(cfg: Config, s: State, t: nat, signs: bool): State
    requires t in s.requests && s.requests[t].Numbered?
  {
    var r := s.requests[t];
    var next := NextUpdate(r.now, cfg.crlValidity, cfg.issuerNotAfter);
    match Build(r.listing, r.now - CLOCK_SKEW, next, r.number, signs)
    case Err(_) => Release(s, t)
    case Ok(crl) => Log(Release(s, t).(crlCache := CrlCache(Some(crl), next)), [CrlBuilt(crl), CrlServed(crl, r.now)])
  }

  // Runs: sequences of actions, each enabled where it happens.

  ghost predicate Executes(cfg: Config, s: State, run: seq<Action>)
    decreases run
  {
    run == [] || (Enabled(cfg, s, run[0]) && Executes(cfg, Apply(cfg, s, run[0]), run[1..]))
  }

  ghost function After(cfg: Config, s: State, run: seq<Action>): State
    requires Executes(cfg, s, run)
    decreases run
  {
    if run == [] then s else After(cfg, Apply(cfg, s, run[0]), run[1..])
  }
}
