/**
Where every certificate the API returns came from (internal/api/auth.go,
handleIssueCertificate in internal/api/server.go). Authentication, issuance, recording and
the answer are separate steps of each request, and steps of other requests, revocations and
internal recordings may come between any two of them.
*/
module Provenance {
  import opened Certificate
  import opened Clock
  import opened Entitlement
  import opened Glob
  import opened Issuance
  import opened Store
  import opened Wrappers

  // render is the text form of a subject, as a record keeps it.
  datatype Config = Config(
    profiles: map<string, Profile>,
    issuers: map<string, Entitlement>,
    ca: Ca,
    render: Attributes -> string,
    folds: Fold
  )

  // Authentication.

  datatype AuthError = NotTls | NoCertificate | LookupFailed | NotIssuedHere | RecordMismatch | RevokedClient | NotAuthorised

  // A connection as the listener hands it over: plain, or with the verified leaf if any.
  datatype Connection = Plain | Tls(leaf: Option<Cert>)

  // The URI names first, in their order, and then the common name if there is one.
  function ClientIdentities(cert: Cert): (ids: seq<string>)
    ensures cert.sans.uris <= ids
    ensures forall id :: id in ids <==> IsNameOf(id, cert)
  {
    cert.sans.uris + if CommonName(cert.subject) == "" then [] else [CommonName(cert.subject)]
  }

  predicate IsNameOf(id: string, cert: Cert) {
    id in cert.sans.uris || (id == CommonName(cert.subject) && id != "")
  }

  // The checks before the identities.
  function ClientError(render: Attributes -> string, c: Connection, rec: Result<Option<CertRecord>, StoreError>): (err: Option<AuthError>)
    ensures err.None? <==>
              && c.Tls? && c.leaf.Some? && rec.Ok? && rec.value.Some?
              && rec.value.value.subject == render(c.leaf.value.subject) && !rec.value.value.status.Revoked?
  {
    if c.Plain? then Some(NotTls)
    else if c.leaf.None? then Some(NoCertificate)
    else if rec.Err? then Some(LookupFailed)
    else if rec.value.None? then Some(NotIssuedHere)
    else if rec.value.value.subject != render(c.leaf.value.subject) then Some(RecordMismatch)
    else if rec.value.value.status == Status.Revoked then Some(RevokedClient)
    else None
  }

  /**
  authenticate: the record is the store's answer for the leaf's serial. The identity is the
  first of the client's that is allowed, and there is none only when none of them is.
  */
  method Authenticate(render: Attributes -> string, c: Connection, rec: Result<Option<CertRecord>, StoreError>, allowed: seq<string>)
    returns (identity: Result<string, AuthError>)
    ensures ClientError(render, c, rec).Some? ==> identity == Err(ClientError(render, c, rec).value)
    ensures ClientError(render, c, rec).None? ==>
              && var ids := ClientIdentities(c.leaf.value);
              && (identity.Ok? ==> exists i :: 0 <= i < |ids| && ids[i] == identity.value && ids[i] in allowed
                                               && forall j :: 0 <= j < i ==> ids[j] !in allowed)
              && (identity.Err? <==> forall id <- ids :: id !in allowed)
              && (identity.Err? ==> identity.error == NotAuthorised)
    ensures identity.Ok? ==> c.Tls? && c.leaf.Some? && IsNameOf(identity.value, c.leaf.value)
  {
    if c.Plain? {
      return Err(NotTls);
    }
    if c.leaf.None? {
      return Err(NoCertificate);
    }
    if rec.Err? {
      return Err(LookupFailed);
    }
    if rec.value.None? {
      return Err(NotIssuedHere);
    }
    if rec.value.value.subject != render(c.leaf.value.subject) {
      return Err(RecordMismatch);
    }
    if rec.value.value.status == Status.Revoked {
      return Err(RevokedClient);
    }
    var ids := ClientIdentities(c.leaf.value);
    for i := 0 to |ids|
      invariant forall j :: 0 <= j < i ==> ids[j] !in allowed
    {
      for k := 0 to |allowed|
        invariant ids[i] !in allowed[..k]
      {
        if ids[i] == allowed[k] {
          return Ok(ids[i]);
        }
        assert allowed[..k + 1] == allowed[..k] + [allowed[k]];
      }
      assert allowed[..|allowed|] == allowed;
    }
    identity := Err(NotAuthorised);
  }

  // Issuance.

  datatype Refused = UnknownProfileName | NotEntitled | Malformed | CaRefused(error: IssueError)

  ghost predicate NamesAllowed(e: Entitlement, names: Attributes, sans: Sans, folds: Fold) {
    forall n: Name :: Carries(names, sans, n) ==> Allowed(e, n, folds)
  }

  // The order of decisions: the profile exists, this identity may use it, the request
  // parses, this identity may ask for its names, and then the CA's own.
  ghost function Decision(cfg: Config, identity: string, name: string, csr: Option<Csr>, now: Instant, serial: int, signs: bool): (cert: Result<Cert, Refused>)
    ensures cert.Ok? ==> csr.Some? && name in cfg.profiles && Ok(cert.value) == IssueResult(cfg.ca, csr.value, Some(cfg.profiles[name]), now, serial, signs)
  {
    if name == "" || name !in cfg.profiles then Err(UnknownProfileName)
    else if identity !in cfg.issuers || !PermitsProfile(cfg.issuers[identity], cfg.profiles[name].name) then Err(NotEntitled)
    else if csr.None? then Err(Malformed)
    else if !NamesAllowed(cfg.issuers[identity], csr.value.names, csr.value.sans, cfg.folds) then Err(NotEntitled)
    else
      match IssueResult(cfg.ca, csr.value, Some(cfg.profiles[name]), now, serial, signs)
      case Ok(cert) => Ok(cert)
      case Err(error) => Err(CaRefused(error))
  }

  method DecideIssue(cfg: Config, identity: string, name: string, csr: Option<Csr>, now: Instant, serial: int, signs: bool)
    returns (cert: Result<Cert, Refused>)
    ensures cert == Decision(cfg, identity, name, csr, now, serial, signs)
  {
    if name == "" || name !in cfg.profiles {
      return Err(UnknownProfileName);
    }
    var profile := cfg.profiles[name];
    if identity !in cfg.issuers || !PermitsProfile(cfg.issuers[identity], profile.name) {
      return Err(NotEntitled);
    }
    if csr.None? {
      return Err(Malformed);
    }
    var refused := PermitsNames(cfg.issuers[identity], csr.value, cfg.folds);
    if refused.Some? {
      return Err(NotEntitled);
    }
    var issued := Issue(cfg.ca, csr.value, Some(profile), now, serial, signs);
    match issued {
      case Ok(c) => cert := Ok(c);
      case Err(error) => cert := Err(CaRefused(error));
    }
  }

  /**
  A certificate is issued to an identity exactly for a request that parses, under a profile
  that exists, is granted to it and is not the internal one, with names all within its
  patterns, that the authority allows.
  */
  lemma DecidedIff(cfg: Config, identity: string, name: string, csr: Option<Csr>, now: Instant, serial: int, signs: bool)
    ensures Decision(cfg, identity, name, csr, now, serial, signs).Ok? <==>
              && name != "" && name in cfg.profiles && identity in cfg.issuers
              && cfg.profiles[name].name in cfg.issuers[identity].profiles && cfg.profiles[name].name != "ocsp-responder"
              && csr.Some?
              && (forall n: Name :: Carries(csr.value.names, csr.value.sans, n) ==>
                    exists p <- cfg.issuers[identity].names :: PatternType(p) == TypeOf(n) && Accepts(p, n, cfg.folds))
              && cfg.ca.distributionOk && csr.value.signatureOk
              && (CommonName(csr.value.names) != "" || Values(csr.value.names, O) != [])
              && KeyFits(cfg.profiles[name], csr.value.key) && SansAllowed(cfg.profiles[name], csr.value.sans)
              && SubjectFits(cfg.profiles[name], csr.value.names)
              && (cfg.ca.maxTtl > 0 ==> cfg.profiles[name].validity <= cfg.ca.maxTtl)
              && ValidAt(cfg.ca.cert, now) && now + cfg.profiles[name].validity <= cfg.ca.cert.notAfter && signs
  {
    if name in cfg.profiles && csr.Some? {
      IssuedIff(cfg.ca, csr.value, Some(cfg.profiles[name]), now, serial, signs);
      if identity in cfg.issuers {
        AllowedNames(cfg.issuers[identity], csr.value, cfg.folds);
      }
    }
  }

  lemma AllowedNames(e: Entitlement, csr: Csr, folds: Fold)
    ensures NamesAllowed(e, csr.names, csr.sans, folds) <==>
            forall n: Name :: Carries(csr.names, csr.sans, n) ==> exists p <- e.names :: PatternType(p) == TypeOf(n) && Accepts(p, n, folds)
  {
    forall n: Name ensures Allowed(e, n, folds) <==> exists p <- e.names :: PatternType(p) == TypeOf(n) && Accepts(p, n, folds) {
    }
  }

  // The record a certificate is entered under.
  function RecordOf(cfg: Config, cert: Cert): (rec: CertRecord)
    ensures rec.serial == cert.serial && rec.subject == cfg.render(cert.subject) && rec.notAfter == cert.notAfter
    ensures FreshlyIssued(rec)
  {
    CertRecord(cert.serial, cfg.render(cert.subject), cert.notAfter, Status.Valid, ZERO_INSTANT, 0)
  }

  // The machine.

  datatype Issued = Issued(client: Cert, identity: string, profile: string, csr: Csr, at: Instant, cert: Cert)

  datatype Phase = Authorised(client: Cert, identity: string) | Signed(issue: Issued) | Recorded(issue: Issued)

  datatype Event =
    | ClientChecked(id: nat, rec: CertRecord)
    | CertRecorded(id: nat, rec: CertRecord)
    | CertReturned(id: nat, issue: Issued)

  datatype State = State(records: Records, requests: map<nat, Phase>, log: seq<Event>)

  datatype Action =
    | DoAuthenticate(id: nat, client: Cert, identity: string)
    | DoSign(id: nat, profile: string, csr: Csr, now: Instant, serial: int)
    | DoRecord(id: nat)
    | DoReturn(id: nat)
    | DoDrop(id: nat)
    | DoRevoke(serial: int, reason: int, at: Instant)
    | DoRecordInternal(rec: CertRecord)

  function Lookup(m: Records, serial: int): Option<CertRecord> {
    if serial in m then Some(m[serial]) else None
  }

  ghost predicate Enabled(cfg: Config, s: State, a: Action) {
    match a
    case DoAuthenticate(id, client, identity) =>
      && id !in s.requests
      && ClientError(cfg.render, Tls(Some(client)), Ok(Lookup(s.records, client.serial))).None?
      && identity in ClientIdentities(client) && identity in cfg.issuers
    case DoSign(id, profile, csr, now, serial) =>
      && id in s.requests && s.requests[id].Authorised?
      && Decision(cfg, s.requests[id].identity, profile, Some(csr), now, serial, true).Ok?
    case DoRecord(id) =>
      && id in s.requests && s.requests[id].Signed?
      && RecordError(s.records, RecordOf(cfg, s.requests[id].issue.cert)).None?
    case DoReturn(id) => id in s.requests && s.requests[id].Recorded?
    case DoDrop(id) => id in s.requests
    case DoRevoke(_, _, _) => true
    case DoRecordInternal(_) => true
  }

  ghost function Apply(cfg: Config, s: State, a: Action): State
    requires Enabled(cfg, s, a)
  {
    match a
    case DoAuthenticate(id, client, identity) =>
      s.(requests := s.requests[id := Authorised(client, identity)],
         log := s.log + [ClientChecked(id, s.records[client.serial])])
    case DoSign(id, profile, csr, now, serial) =>
      var who := s.requests[id];
      var cert := Decision(cfg, who.identity, profile, Some(csr), now, serial, true).value;
      s.(requests := s.requests[id := Signed(Issued(who.client, who.identity, profile, csr, now, cert))])
    case DoRecord(id) =>
      var rec := RecordOf(cfg, s.requests[id].issue.cert);
      s.(records := AfterRecord(s.records, rec),
         requests := s.requests[id := Recorded(s.requests[id].issue)],
         log := s.log + [CertRecorded(id, rec)])
    case DoReturn(id) =>
      s.(requests := s.requests - {id}, log := s.log + [CertReturned(id, s.requests[id].issue)])
    case DoDrop(id) => s.(requests := s.requests - {id})
    case DoRevoke(serial, reason, at) => s.(records := AfterRevoke(s.records, serial, reason, at))
    case DoRecordInternal(rec) => s.(records := AfterRecord(s.records, rec))
  }

  // The state a run ends in, when every step of it can be taken.
  ghost predicate Runs(cfg: Config, s: State, run: seq<Action>, s': State)
    decreases run
  {
    if run == [] then s' == s
    else Enabled(cfg, s, run[0]) && Runs(cfg, Apply(cfg, s, run[0]), run[1..], s')
  }

  const INITIAL := State(map[], map[], [])

  // What is so of a request once its client was checked: the check is in the log, with the
  // record the store held then.
  ghost predicate Vouched(cfg: Config, log: seq<Event>, id: nat, client: Cert, identity: string) {
    && identity in ClientIdentities(client) && identity in cfg.issuers
    && exists i :: 0 <= i < |log| && log[i].ClientChecked? && log[i].id == id
                   && log[i].rec.status == Status.Valid && log[i].rec.subject == cfg.render(client.subject)
                   && log[i].rec.serial == client.serial
  }

  ghost predicate WasRecorded(cfg: Config, log: seq<Event>, id: nat, cert: Cert) {
    CertRecorded(id, RecordOf(cfg, cert)) in log
  }

  // What the decision made of the request.
  ghost predicate Decided(cfg: Config, issue: Issued) {
    Decision(cfg, issue.identity, issue.profile, Some(issue.csr), issue.at, issue.cert.serial, true) == Ok(issue.cert)
  }

  ghost predicate PhaseInv(cfg: Config, s: State, id: nat, phase: Phase) {
    match phase
    case Authorised(client, identity) => Vouched(cfg, s.log, id, client, identity)
    case Signed(issue) => Vouched(cfg, s.log, id, issue.client, issue.identity) && Decided(cfg, issue)
    case Recorded(issue) =>
      Vouched(cfg, s.log, id, issue.client, issue.identity) && Decided(cfg, issue) && WasRecorded(cfg, s.log, id, issue.cert)
  }

  // A returned certificate was vouched for, decided and recorded before its place in the log.
  ghost predicate ReturnInv(cfg: Config, log: seq<Event>, k: nat)
    requires k < |log|
  {
    log[k].CertReturned? ==>
      && Vouched(cfg, log[..k], log[k].id, log[k].issue.client, log[k].issue.identity)
      && Decided(cfg, log[k].issue)
      && WasRecorded(cfg, log[..k], log[k].id, log[k].issue.cert)
  }

  ghost predicate Inv(cfg: Config, s: State) {
    && (forall id <- s.requests :: PhaseInv(cfg, s, id, s.requests[id]))
    && (forall k :: 0 <= k < |s.log| ==> ReturnInv(cfg, s.log, k))
    && Keyed(s.records)
    && (forall id: nat, rec: CertRecord :: CertRecorded(id, rec) in s.log ==> rec.serial in s.records)
  }

  lemma VouchedStays(cfg: Config, log: seq<Event>, e: Event, id: nat, client: Cert, identity: string)
    requires Vouched(cfg, log, id, client, identity)
    ensures Vouched(cfg, log + [e], id, client, identity)
  {
    var i :| 0 <= i < |log| && log[i].ClientChecked? && log[i].id == id
             && log[i].rec.status == Status.Valid && log[i].rec.subject == cfg.render(client.subject)
             && log[i].rec.serial == client.serial;
    assert (log + [e])[i] == log[i];
  }

  lemma PhaseStays(cfg: Config, s: State, s': State, id: nat, phase: Phase)
    requires PhaseInv(cfg, s, id, phase)
    requires s'.log == s.log || exists e :: s'.log == s.log + [e]
    ensures PhaseInv(cfg, s', id, phase)
  {
    if s'.log != s.log {
      var e :| s'.log == s.log + [e];
      match phase {
        case Authorised(client, identity) => VouchedStays(cfg, s.log, e, id, client, identity);
        case Signed(issue) => VouchedStays(cfg, s.log, e, id, issue.client, issue.identity);
        case Recorded(issue) => VouchedStays(cfg, s.log, e, id, issue.client, issue.identity);
      }
    }
  }

  lemma ReturnsStay(cfg: Config, log: seq<Event>, e: Event)
    requires forall k :: 0 <= k < |log| ==> ReturnInv(cfg, log, k)
    requires ReturnInv(cfg, log + [e], |log|)
    ensures forall k :: 0 <= k < |log + [e]| ==> ReturnInv(cfg, log + [e], k)
  {
    forall k | 0 <= k < |log| ensures ReturnInv(cfg, log + [e], k) {
      assert (log + [e])[..k] == log[..k];
      assert ReturnInv(cfg, log, k);
    }
  }

  // The certificate a step decides carries the serial it was given.
  lemma SignIsDecided(cfg: Config, identity: string, profile: string, csr: Csr, now: Instant, serial: int)
    requires Decision(cfg, identity, profile, Some(csr), now, serial, true).Ok?
    ensures Decision(cfg, identity, profile, Some(csr), now, serial, true).value.serial == serial
  {
  }

  lemma CheckedIsVouched(cfg: Config, s: State, id: nat, client: Cert, identity: string)
    requires Keyed(s.records) && Enabled(cfg, s, DoAuthenticate(id, client, identity))
    ensures Vouched(cfg, Apply(cfg, s, DoAuthenticate(id, client, identity)).log, id, client, identity)
  {
    var log := Apply(cfg, s, DoAuthenticate(id, client, identity)).log;
    assert log[|s.log|] == ClientChecked(id, s.records[client.serial]);
  }

  lemma SignedIsDecided(cfg: Config, s: State, a: Action)
    requires Inv(cfg, s) && Enabled(cfg, s, a) && a.DoSign?
    ensures PhaseInv(cfg, Apply(cfg, s, a), a.id, Apply(cfg, s, a).requests[a.id])
  {
    SignIsDecided(cfg, s.requests[a.id].identity, a.profile, a.csr, a.now, a.serial);
    assert PhaseInv(cfg, s, a.id, s.requests[a.id]);
  }

  lemma RecordedIsLogged(cfg: Config, s: State, id: nat)
    requires Inv(cfg, s) && Enabled(cfg, s, Action.DoRecord(id))
    ensures PhaseInv(cfg, Apply(cfg, s, Action.DoRecord(id)), id, Apply(cfg, s, Action.DoRecord(id)).requests[id])
  {
    var s', issue := Apply(cfg, s, Action.DoRecord(id)), s.requests[id].issue;
    assert PhaseInv(cfg, s, id, s.requests[id]);
    VouchedStays(cfg, s.log, CertRecorded(id, RecordOf(cfg, issue.cert)), id, issue.client, issue.identity);
    assert s'.log[|s.log|] == CertRecorded(id, RecordOf(cfg, issue.cert));
  }

  // A request no action is about keeps its phase.
  lemma OtherPhaseStays(cfg: Config, s: State, a: Action, id: nat)
    requires Inv(cfg, s) && Enabled(cfg, s, a) && id in Apply(cfg, s, a).requests
    requires (a.DoAuthenticate? || a.DoSign? || a.DoRecord?) ==> a.id != id
    ensures PhaseInv(cfg, Apply(cfg, s, a), id, Apply(cfg, s, a).requests[id])
  {
    var s' := Apply(cfg, s, a);
    if s'.log != s.log {
      assert s'.log == s.log + [s'.log[|s.log|]];
    }
    PhaseStays(cfg, s, s', id, s.requests[id]);
  }

  lemma StepKeepsPhases(cfg: Config, s: State, a: Action)
    requires Inv(cfg, s) && Enabled(cfg, s, a)
    ensures forall id <- Apply(cfg, s, a).requests :: PhaseInv(cfg, Apply(cfg, s, a), id, Apply(cfg, s, a).requests[id])
  {
    var s' := Apply(cfg, s, a);
    forall id <- s'.requests ensures PhaseInv(cfg, s', id, s'.requests[id]) {
      if a.DoAuthenticate? && a.id == id {
        CheckedIsVouched(cfg, s, id, a.client, a.identity);
      } else if a.DoSign? && a.id == id {
        SignedIsDecided(cfg, s, a);
      } else if a.DoRecord? && a.id == id {
        RecordedIsLogged(cfg, s, id);
      } else {
        OtherPhaseStays(cfg, s, a, id);
      }
    }
  }

  lemma StepKeepsReturns(cfg: Config, s: State, a: Action)
    requires Inv(cfg, s) && Enabled(cfg, s, a)
    ensures forall k :: 0 <= k < |Apply(cfg, s, a).log| ==> ReturnInv(cfg, Apply(cfg, s, a).log, k)
  {
    var s' := Apply(cfg, s, a);
    if s'.log != s.log {
      var e := s'.log[|s.log|];
      assert s'.log == s.log + [e];
      assert s'.log[..|s.log|] == s.log;
      if a.DoReturn? {
        assert PhaseInv(cfg, s, a.id, s.requests[a.id]);
      }
      ReturnsStay(cfg, s.log, e);
    }
  }

  lemma StepKeepsInv(cfg: Config, s: State, a: Action)
    requires Inv(cfg, s) && Enabled(cfg, s, a)
    ensures Inv(cfg, Apply(cfg, s, a))
  {
    StepKeepsPhases(cfg, s, a);
    StepKeepsReturns(cfg, s, a);
  }

  lemma {:induction false} RunKeepsInv(cfg: Config, s: State, run: seq<Action>, s': State)
    requires Inv(cfg, s) && Runs(cfg, s, run, s')
    ensures Inv(cfg, s')
    decreases run
  {
    if run == [] {
    } else {
      StepKeepsInv(cfg, s, run[0]);
      RunKeepsInv(cfg, Apply(cfg, s, run[0]), run[1..], s');
    }
  }

  // Every pattern was compiled from its text.
  ghost predicate PatternsCompiled(cfg: Config) {
    forall identity <- cfg.issuers :: forall p <- cfg.issuers[identity].names :: Compiled(p)
  }

  ghost predicate Meant(e: Entitlement, n: Name, folds: Fold) {
    exists p <- e.names :: Means(p, n, folds)
  }

  lemma AllowedIsMeant(e: Entitlement, n: Name, folds: Fold)
    requires Allowed(e, n, folds) && forall p <- e.names :: Compiled(p)
    ensures Meant(e, n, folds)
  {
    var p :| p in e.names && PatternType(p) == TypeOf(n) && Accepts(p, n, folds);
    AcceptsWhatItMeans(p, n, folds);
  }

  // Names are the request's, whole, and each is within the identity's patterns.
  lemma DecidedNames(cfg: Config, issue: Issued, n: Name)
    requires PatternsCompiled(cfg) && Decided(cfg, issue)
    ensures issue.identity in cfg.issuers
    ensures issue.cert.sans == issue.csr.sans && CommonName(issue.cert.subject) == CommonName(issue.csr.names)
    ensures Carries(issue.cert.subject, issue.cert.sans, n) ==> Meant(cfg.issuers[issue.identity], n, cfg.folds)
  {
    var e := cfg.issuers[issue.identity];
    LeafFollowsRequest(cfg.ca, issue.csr, Some(cfg.profiles[issue.profile]), issue.at, issue.cert.serial);
    if Carries(issue.cert.subject, issue.cert.sans, n) {
      assert Carries(issue.csr.names, issue.csr.sans, n);
      AllowedIsMeant(e, n, cfg.folds);
    }
  }

  /**
  In every run, each returned certificate was recorded before it was returned and stays in
  the store; it was asked for by an identity of a client certificate that the store held
  unrevoked when it was checked; its profile was granted to that identity and is never the
  internal one; and each of its names is the request's own and within a pattern of that
  identity, read directly.
  */
  lemma ReturnedIsAccountedFor(cfg: Config, run: seq<Action>, s: State, k: nat, n: Name)
    requires PatternsCompiled(cfg) && Runs(cfg, INITIAL, run, s)
    requires k < |s.log| && s.log[k].CertReturned?
    ensures
      var (id, issue) := (s.log[k].id, s.log[k].issue);
      && WasRecorded(cfg, s.log[..k], id, issue.cert) && issue.cert.serial in s.records
      && Vouched(cfg, s.log[..k], id, issue.client, issue.identity) && IsNameOf(issue.identity, issue.client)
      && issue.csr.signatureOk && issue.profile in cfg.profiles
      && PermitsProfile(cfg.issuers[issue.identity], cfg.profiles[issue.profile].name)
      && cfg.profiles[issue.profile].name != INTERNAL_ONLY_PROFILE
      && issue.cert.extKeyUsage == cfg.profiles[issue.profile].extKeyUsages
      && issue.cert.sans == issue.csr.sans && CommonName(issue.cert.subject) == CommonName(issue.csr.names)
      && (Carries(issue.cert.subject, issue.cert.sans, n) ==> Meant(cfg.issuers[issue.identity], n, cfg.folds))
  {
    RunKeepsInv(cfg, INITIAL, run, s);
    assert ReturnInv(cfg, s.log, k);
    var (id, issue) := (s.log[k].id, s.log[k].issue);
    assert s.log[..k] <= s.log;
    assert CertRecorded(id, RecordOf(cfg, issue.cert)) in s.log;
    DecidedNames(cfg, issue, n);
    LeafFollowsRequest(cfg.ca, issue.csr, Some(cfg.profiles[issue.profile]), issue.at, issue.cert.serial);
    DecidedIff(cfg, issue.identity, issue.profile, Some(issue.csr), issue.at, issue.cert.serial, true);
  }

  lemma FirstStep(cfg: Config, s: State, a: Action, rest: seq<Action>, s': State)
    requires Enabled(cfg, s, a) && Runs(cfg, Apply(cfg, s, a), rest, s')
    ensures Runs(cfg, s, [a] + rest, s')
  {
    assert ([a] + rest)[0] == a && ([a] + rest)[1..] == rest;
  }

  lemma FourSteps(cfg: Config, s: State, a: Action, b: Action, c: Action, d: Action)
    requires Enabled(cfg, s, a) && Enabled(cfg, Apply(cfg, s, a), b) && Enabled(cfg, Apply(cfg, Apply(cfg, s, a), b), c)
    requires Enabled(cfg, Apply(cfg, Apply(cfg, Apply(cfg, s, a), b), c), d)
    ensures Runs(cfg, s, [a, b, c, d], Apply(cfg, Apply(cfg, Apply(cfg, Apply(cfg, s, a), b), c), d))
  {
    var s1 := Apply(cfg, s, a);
    var s2 := Apply(cfg, s1, b);
    var s3 := Apply(cfg, s2, c);
    var s4 := Apply(cfg, s3, d);
    FirstStep(cfg, s3, d, [], s4);
    FirstStep(cfg, s2, c, [d], s4);
    FirstStep(cfg, s1, b, [c, d], s4);
    FirstStep(cfg, s, a, [b, c, d], s4);
    assert [d] + [] == [d] && [c] + [d] == [c, d] && [b] + [c, d] == [b, c, d] && [a] + [b, c, d] == [a, b, c, d];
  }

  /**
  A request the decision allows is answered: a client on record and unrevoked, one of whose
  names is an issuer's, and a serial that is not taken, lead in four steps to a returned
  certificate, which is then on record under its own subject.
  */
  lemma AllowedIsReturned(cfg: Config, s: State, id: nat, client: Cert, identity: string, profile: string, csr: Csr, now: Instant, serial: int)
    requires id !in s.requests && IsNameOf(identity, client) && identity in cfg.issuers
    requires client.serial in s.records && s.records[client.serial].status == Status.Valid
    requires s.records[client.serial].subject == cfg.render(client.subject) && serial !in s.records
    requires Decision(cfg, identity, profile, Some(csr), now, serial, true).Ok?
    ensures
      var cert := Decision(cfg, identity, profile, Some(csr), now, serial, true).value;
      exists s': State ::
        && Runs(cfg, s, [DoAuthenticate(id, client, identity), DoSign(id, profile, csr, now, serial), Action.DoRecord(id), DoReturn(id)], s')
        && CertReturned(id, Issued(client, identity, profile, csr, now, cert)) in s'.log
        && serial in s'.records && s'.records[serial].status == Status.Valid && s'.records[serial].subject == cfg.render(cert.subject)
  {
    var a, b, c, d := DoAuthenticate(id, client, identity), DoSign(id, profile, csr, now, serial), Action.DoRecord(id), DoReturn(id);
    SignIsDecided(cfg, identity, profile, csr, now, serial);
    var s1 := Apply(cfg, s, a);
    var s2 := Apply(cfg, s1, b);
    var s3 := Apply(cfg, s2, c);
    var s4 := Apply(cfg, s3, d);
    FourSteps(cfg, s, a, b, c, d);
    assert s4.log[|s4.log| - 1] == CertReturned(id, s3.requests[id].issue);
  }
}
