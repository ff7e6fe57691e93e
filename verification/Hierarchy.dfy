/**
Every hierarchy that ceremonies, re-issues, service starts and issuance can reach under a
clock that does not step back, and what a relying party makes of it: the leaf, the
intermediate and the root pass path validation together at every instant of the leaf's
life (internal/ca/ceremony.go, reissue.go, intermediate.go, ca.go).
*/
module Hierarchy {
  import opened Certificate
  import opened Clock
  import opened Issuance
  import opened Wrappers

  datatype Issued = Issued(leaf: Cert, at: Instant)

  datatype State = State(
    clock: Instant,
    roots: set<Cert>,
    intermediates: set<Cert>,
    loaded: Option<Cert>,
    issued: seq<Issued>
  )

  datatype CaParams = CaParams(serial: int, subject: Attributes, key: PublicKey, validity: Span)

  datatype Action =
    | Tick(span: nat)
    | Ceremony(root: CaParams, intermediate: CaParams)
    | Reissue(under: Cert, signer: PublicKey, intermediate: CaParams)
    | Load(cert: Cert, signer: PublicKey)
    | IssueLeaf(csr: Csr, profile: Profile, maxTtl: Span, serial: int)

  function RootValidity(p: CaParams): Span {
    OrDefault(p.validity, DEFAULT_ROOT_VALIDITY)
  }

  function IntermediateValidity(p: CaParams): Span {
    OrDefault(p.validity, DEFAULT_INTERMEDIATE_VALIDITY)
  }

  // Anything the hierarchy produced may be handed to the service as its certificate.
  predicate Produced(s: State, cert: Cert) {
    cert in s.roots || cert in s.intermediates || exists i <- s.issued :: i.leaf == cert
  }

  predicate Enabled(s: State, a: Action) {
    match a
    case Tick(_) => true
    case Ceremony(root, intermediate) => IntermediateValidity(intermediate) <= RootValidity(root)
    case Reissue(under, signer, intermediate) =>
      && under in s.roots && signer == under.key
      && CheckRootMaySign(under, intermediate.validity, s.clock).None?
    case Load(cert, signer) => Produced(s, cert) && signer == cert.key && CheckIntermediateCert(cert, s.clock).None?
    case IssueLeaf(csr, profile, maxTtl, serial) =>
      s.loaded.Some? && Refusal(Ca(s.loaded.value, maxTtl, true), csr, Some(profile), s.clock).None?
  }

  function Apply(s: State, a: Action): State
    requires Enabled(s, a)
  {
    match a
    case Tick(span) => s.(clock := s.clock + span)
    case Ceremony(r, i) =>
      var root := RootCert(r.serial, r.subject, r.key, s.clock, RootValidity(r));
      var intermediate := IntermediateCert(i.serial, i.subject, i.key, root, s.clock, IntermediateValidity(i));
      s.(roots := s.roots + {root}, intermediates := s.intermediates + {intermediate})
    case Reissue(under, _, i) =>
      var intermediate := IntermediateCert(i.serial, i.subject, i.key, under, s.clock, IntermediateValidity(i));
      s.(intermediates := s.intermediates + {intermediate})
    case Load(cert, _) => s.(loaded := Some(cert))
    case IssueLeaf(csr, profile, maxTtl, serial) =>
      var ca := Ca(s.loaded.value, maxTtl, true);
      var leaf := IssueResult(ca, csr, Some(profile), s.clock, serial, true).value;
      s.(issued := s.issued + [Issued(leaf, s.clock)])
  }

  ghost predicate Init(s: State) {
    s.roots == {} && s.intermediates == {} && s.loaded == None && s.issued == []
  }

  ghost predicate Executes(s: State, run: seq<Action>)
    decreases run
  {
    run == [] || (Enabled(s, run[0]) && Executes(Apply(s, run[0]), run[1..]))
  }

  ghost function After(s: State, run: seq<Action>): State
    requires Executes(s, run)
    decreases run
  {
    if run == [] then s else After(Apply(s, run[0]), run[1..])
  }

  // What a ceremony makes of a root, seen at a later instant.
  predicate IsRoot(root: Cert, now: Instant) {
    && root.subject == root.issuer && root.signedBy == root.key
    && root.basicConstraints && root.isCa && root.pathLen == Some(1) && CertSign in root.keyUsage
    && root.notBefore <= now
  }

  // An intermediate the root certified, inside the root's life.
  predicate Certifies(root: Cert, intermediate: Cert) {
    && intermediate.issuer == root.subject && intermediate.signedBy == root.key
    && intermediate.authorityKeyId == root.subjectKeyId
    && intermediate.basicConstraints && intermediate.isCa && intermediate.pathLen == Some(0)
    && {CertSign, CrlSign} <= intermediate.keyUsage && intermediate.notAfter <= root.notAfter
  }

  // A leaf the intermediate issued at an instant both were valid at.
  predicate Issues(intermediate: Cert, leaf: Cert, at: Instant) {
    && leaf.issuer == intermediate.subject && leaf.signedBy == intermediate.key
    && leaf.authorityKeyId == intermediate.subjectKeyId && !leaf.isCa
    && leaf.notBefore <= at && intermediate.notBefore <= at
    && leaf.notAfter <= intermediate.notAfter
  }

  ghost predicate Certified(s: State, intermediate: Cert) {
    exists root <- s.roots :: Certifies(root, intermediate)
  }

  ghost predicate ProperlyIssued(s: State, i: Issued) {
    i.at <= s.clock && exists intermediate <- s.intermediates :: Issues(intermediate, i.leaf, i.at)
                                                                 && WasRootedAt(s, intermediate, i.at)
  }

  ghost predicate WasRootedAt(s: State, intermediate: Cert, at: Instant) {
    exists root <- s.roots :: Certifies(root, intermediate) && root.notBefore <= at
  }

  ghost predicate Inv(s: State) {
    && (forall root <- s.roots :: IsRoot(root, s.clock))
    && (forall intermediate <- s.intermediates :: Certified(s, intermediate))
    && (s.loaded.Some? ==> s.loaded.value in s.intermediates)
    && (forall i <- s.issued :: ProperlyIssued(s, i))
  }

  /**
  Of everything the hierarchy produced, the service comes up exactly on an intermediate that
  is valid then, whose key is not the root's, and whose key it holds.
  */
  lemma OnlyIntermediatesLoad(s: State, cert: Cert, signer: PublicKey)
    requires Inv(s)
    ensures Enabled(s, Load(cert, signer)) <==>
            cert in s.intermediates && cert.signedBy != cert.key && ValidAt(cert, s.clock) && signer == cert.key
  {
    if cert in s.intermediates {
      assert Certified(s, cert);
    }
    assert forall root <- s.roots :: SignatureFrom(root, root);
    assert forall i <- s.issued :: !i.leaf.isCa by {
      forall i | i in s.issued ensures !i.leaf.isCa {
        assert ProperlyIssued(s, i);
      }
    }
  }

  lemma CeremonyCertifies(r: CaParams, i: CaParams, now: Instant)
    requires IntermediateValidity(i) <= RootValidity(r)
    ensures
      var root := RootCert(r.serial, r.subject, r.key, now, RootValidity(r));
      IsRoot(root, now) && Certifies(root, IntermediateCert(i.serial, i.subject, i.key, root, now, IntermediateValidity(i)))
  {
    TruncateIsMonotone(now + IntermediateValidity(i), now + RootValidity(r));
  }

  lemma ReissueCertifies(under: Cert, i: CaParams, now: Instant)
    requires IsRoot(under, now) && CheckRootMaySign(under, i.validity, now).None?
    ensures Certifies(under, IntermediateCert(i.serial, i.subject, i.key, under, now, IntermediateValidity(i)))
  {
  }

  lemma IssueIssues(ca: Ca, csr: Csr, profile: Profile, now: Instant, serial: int)
    requires Refusal(ca, csr, Some(profile), now).None?
    ensures Issues(ca.cert, IssueResult(ca, csr, Some(profile), now, serial, true).value, now)
  {
  }

  // A hierarchy that only gained certificates.
  ghost predicate Grew(s: State, s': State) {
    s.clock <= s'.clock && s.roots <= s'.roots && s.intermediates <= s'.intermediates
  }

  lemma CertifiedStays(s: State, s': State, intermediate: Cert)
    requires Grew(s, s') && Certified(s, intermediate)
    ensures Certified(s', intermediate)
  {
    var root :| root in s.roots && Certifies(root, intermediate);
    assert root in s'.roots;
  }

  lemma IssuedStays(s: State, s': State, i: Issued)
    requires Grew(s, s') && ProperlyIssued(s, i)
    ensures ProperlyIssued(s', i)
  {
    var intermediate :| intermediate in s.intermediates && Issues(intermediate, i.leaf, i.at) && WasRootedAt(s, intermediate, i.at);
    var root :| root in s.roots && Certifies(root, intermediate) && root.notBefore <= i.at;
    assert root in s'.roots && intermediate in s'.intermediates && WasRootedAt(s', intermediate, i.at);
  }

  // What was there keeps its part of the invariant.
  lemma OldStays(s: State, s': State)
    requires Inv(s) && Grew(s, s')
    ensures forall root <- s.roots :: IsRoot(root, s'.clock)
    ensures forall intermediate <- s.intermediates :: Certified(s', intermediate)
    ensures forall i <- s.issued :: ProperlyIssued(s', i)
  {
    forall c | c in s.intermediates ensures Certified(s', c) {
      CertifiedStays(s, s', c);
    }
    forall i | i in s.issued ensures ProperlyIssued(s', i) {
      IssuedStays(s, s', i);
    }
  }

  lemma CeremonyKeepsInv(s: State, r: CaParams, i: CaParams)
    requires Inv(s) && Enabled(s, Ceremony(r, i))
    ensures Inv(Apply(s, Ceremony(r, i)))
  {
    OldStays(s, Apply(s, Ceremony(r, i)));
    CeremonyCertifies(r, i, s.clock);
  }

  lemma ReissueKeepsInv(s: State, under: Cert, signer: PublicKey, i: CaParams)
    requires Inv(s) && Enabled(s, Reissue(under, signer, i))
    ensures Inv(Apply(s, Reissue(under, signer, i)))
  {
    OldStays(s, Apply(s, Reissue(under, signer, i)));
    ReissueCertifies(under, i, s.clock);
  }

  lemma IssueKeepsInv(s: State, csr: Csr, profile: Profile, maxTtl: Span, serial: int)
    requires Inv(s) && Enabled(s, IssueLeaf(csr, profile, maxTtl, serial))
    ensures Inv(Apply(s, IssueLeaf(csr, profile, maxTtl, serial)))
  {
    var s' := Apply(s, IssueLeaf(csr, profile, maxTtl, serial));
    OldStays(s, s');
    IssueIssues(Ca(s.loaded.value, maxTtl, true), csr, profile, s.clock, serial);
    assert Certified(s', s.loaded.value) && WasRootedAt(s', s.loaded.value, s.clock);
    assert ProperlyIssued(s', s'.issued[|s.issued|]);
  }

  lemma StepKeepsInv(s: State, a: Action)
    requires Inv(s) && Enabled(s, a)
    ensures Inv(Apply(s, a))
  {
    match a {
      case Ceremony(r, i) => CeremonyKeepsInv(s, r, i);
      case Reissue(under, signer, i) => ReissueKeepsInv(s, under, signer, i);
      case Load(cert, signer) =>
        OnlyIntermediatesLoad(s, cert, signer);
        OldStays(s, Apply(s, a));
      case IssueLeaf(csr, profile, maxTtl, serial) => IssueKeepsInv(s, csr, profile, maxTtl, serial);
      case Tick(_) => OldStays(s, Apply(s, a));
    }
  }

  lemma {:induction false} RunKeepsInv(s: State, run: seq<Action>)
    requires Inv(s) && Executes(s, run)
    ensures Inv(After(s, run))
    decreases run
  {
    if run == [] {
    } else {
      StepKeepsInv(s, run[0]);
      RunKeepsInv(Apply(s, run[0]), run[1..]);
    }
  }

  // Three certificates in line pass path validation while all three are valid, whatever
  // names the operators chose: an intermediate under its root's own name included.
  lemma ThreeInLine(root: Cert, intermediate: Cert, leaf: Cert, at: Instant, now: Instant)
    requires IsRoot(root, at) && Certifies(root, intermediate) && Issues(intermediate, leaf, at)
    requires at <= now <= leaf.notAfter
    ensures ValidPath(root, [intermediate, leaf], now)
  {
    var path := [root, intermediate, leaf];
    assert [root] + [intermediate, leaf] == path;
    assert path[1..] == [intermediate, leaf] && path[1..][1..] == [leaf] && path[1..][1..][1..] == [];
    assert NextMaxPathLen(3, root) == 1;
    var left := NextMaxPathLen(1, intermediate);
    assert ProcessPath(intermediate.subject, intermediate.key, left, path[1..][1..], now);
    assert ProcessPath(root.subject, root.key, 1, path[1..], now);
  }

  /**
  Every leaf of every reachable hierarchy passes path validation, under a root and through
  an intermediate of that hierarchy, at every instant from its issuance to its notAfter.
  */
  lemma LeavesValidateForLife(s0: State, run: seq<Action>, i: Issued, now: Instant)
    requires Init(s0) && Executes(s0, run)
    requires i in After(s0, run).issued && i.at <= now <= i.leaf.notAfter
    ensures
      exists root <- After(s0, run).roots, intermediate <- After(s0, run).intermediates ::
        ValidPath(root, [intermediate, i.leaf], now)
  {
    RunKeepsInv(s0, run);
    var s := After(s0, run);
    assert ProperlyIssued(s, i);
    var intermediate :| intermediate in s.intermediates && Issues(intermediate, i.leaf, i.at) && WasRootedAt(s, intermediate, i.at);
    var root :| root in s.roots && Certifies(root, intermediate) && root.notBefore <= i.at;
    assert IsRoot(root, s.clock);
    ThreeInLine(root, intermediate, i.leaf, i.at, now);
  }

  // The certificate and the leaf of the first three steps of a hierarchy.

  function FirstRoot(r: CaParams, now: Instant): Cert {
    RootCert(r.serial, r.subject, r.key, now, RootValidity(r))
  }

  function FirstIntermediate(r: CaParams, i: CaParams, now: Instant): Cert {
    IntermediateCert(i.serial, i.subject, i.key, FirstRoot(r, now), now, IntermediateValidity(i))
  }

  // A request that the profile's rules allow and that the intermediate outlives.
  predicate Allowed(csr: Csr, p: Profile) {
    && ValidateCsr(csr).None? && AllowsKey(p, csr.key) && SansAllowed(p, csr.sans) && SubjectUnder(p, csr.names).Some?
  }

  /**
  The hierarchy comes to life: from the beginning of any run, a ceremony with two keys, the
  service's start on what it made and an allowed request, valid no longer than the
  intermediate less a second, are three steps in a row and issue the leaf.
  */
  lemma FirstLeafIsIssued(s: State, r: CaParams, i: CaParams, csr: Csr, p: Profile, serial: int)
    requires Init(s) && r.key != i.key && IntermediateValidity(i) <= RootValidity(r)
    requires Allowed(csr, p) && 0 < p.validity && p.validity + SECOND <= IntermediateValidity(i)
    ensures
      var run := [Ceremony(r, i), Load(FirstIntermediate(r, i, s.clock), i.key), IssueLeaf(csr, p, 0, serial)];
      && Executes(s, run)
      && |After(s, run).issued| == 1 && After(s, run).issued[0].leaf.key == csr.key
      && Issues(FirstIntermediate(r, i, s.clock), After(s, run).issued[0].leaf, s.clock)
  {
    var root, intermediate := FirstRoot(r, s.clock), FirstIntermediate(r, i, s.clock);
    var made, loading, issuing := Ceremony(r, i), Load(intermediate, i.key), IssueLeaf(csr, p, 0, serial);
    var s1 := Apply(s, made);
    CeremonyKeepsInv(s, r, i);
    IntermediateLoadsIff(i.serial, i.subject, i.key, root, s.clock, IntermediateValidity(i), s.clock);
    OnlyIntermediatesLoad(s1, intermediate, i.key);
    var s2 := Apply(s1, loading);
    assert ValidAt(intermediate, s.clock) && s.clock + p.validity <= intermediate.notAfter;
    var s3 := Apply(s2, issuing);
    IssueIssues(Ca(intermediate, 0, true), csr, p, s.clock, serial);
    FirstOfRun(s2, issuing, []);
    FirstOfRun(s1, loading, [issuing]);
    FirstOfRun(s, made, [loading, issuing]);
    assert [issuing] + [] == [issuing] && [loading] + [issuing] == [loading, issuing];
    assert [made] + [loading, issuing] == [made, loading, issuing];
  }

  lemma FirstOfRun(s: State, a: Action, rest: seq<Action>)
    requires Enabled(s, a)
    ensures Executes(s, [a] + rest) <==> Executes(Apply(s, a), rest)
    ensures Executes(Apply(s, a), rest) ==> After(s, [a] + rest) == After(Apply(s, a), rest)
  {
    assert ([a] + rest)[0] == a && ([a] + rest)[1..] == rest;
  }

  /** A root can certify another intermediate at exactly the instants that leave it its validity. */
  lemma ReissuedIff(s: State, under: Cert, i: CaParams)
    requires Inv(s) && under in s.roots
    ensures Enabled(s, Reissue(under, under.key, i)) <==> s.clock + IntermediateValidity(i) <= under.notAfter && s.clock <= under.notAfter
  {
    assert IsRoot(under, s.clock);
  }

  /**
  The path length constraints hold the tiers: nothing certified under an intermediate's key
  can certify anything, whatever it claims to be, unless one of the two carries its own
  issuer's name, which path length does not count.
  */
  lemma NoFurtherTier(s0: State, run: seq<Action>, intermediate: Cert, claimed: Cert, below: Cert, now: Instant)
    requires Init(s0) && Executes(s0, run) && intermediate in After(s0, run).intermediates
    requires !SelfIssued(intermediate) && !SelfIssued(claimed)
    ensures forall root <- After(s0, run).roots :: !ValidPath(root, [intermediate, claimed, below], now)
  {
    RunKeepsInv(s0, run);
    var s := After(s0, run);
    assert Certified(s, intermediate);
    forall root | root in s.roots ensures !ValidPath(root, [intermediate, claimed, below], now) {
      var path := [root, intermediate, claimed, below];
      assert [root] + [intermediate, claimed, below] == path;
      assert path[1..] == [intermediate, claimed, below] && path[1..][1..] == [claimed, below];
      assert NextMaxPathLen(4, root) == 1;
      assert NextMaxPathLen(1, intermediate) == 0;
      assert !ProcessPath(intermediate.subject, intermediate.key, 0, path[1..][1..], now);
      assert !ProcessPath(root.subject, root.key, 1, path[1..], now);
    }
  }

  // Every certificate of a path but the last is a CA's.
  lemma {:induction false} PathNeedsCas(name: Attributes, key: PublicKey, maxPathLen: nat, path: seq<Cert>, now: Instant, k: nat)
    requires ProcessPath(name, key, maxPathLen, path, now) && k + 1 < |path|
    ensures path[k].isCa
    decreases path
  {
    if k == 0 {
    } else {
      PathNeedsCas(path[0].subject, path[0].key, NextMaxPathLen(maxPathLen, path[0]), path[1..], now, k - 1);
    }
  }

  /**
  Nothing validates below an issued leaf: in every path that validates, under any root and
  through any certificates, a leaf of a reachable hierarchy is the last.
  */
  lemma LeavesCertifyNothing(s0: State, run: seq<Action>, i: Issued, root: Cert, path: seq<Cert>, k: nat, now: Instant)
    requires Init(s0) && Executes(s0, run) && i in After(s0, run).issued
    requires ValidPath(root, path, now) && k < |path| && path[k] == i.leaf
    ensures k == |path| - 1
  {
    RunKeepsInv(s0, run);
    assert ProperlyIssued(After(s0, run), i);
    var whole := [root] + path;
    assert whole[k + 1] == i.leaf;
    if k + 1 < |path| {
      PathNeedsCas(root.subject, root.key, |path| + 1, whole, now, k + 1);
    }
  }
}
