/**
Certificates and the checks the hierarchy is built on (internal/ca): what the ceremony, the
re-issue and issuance put in a template, what each refuses beforehand, and the path
validation of section 6.1 of RFC 5280 that a relying party runs. Keys are identities, a
signature is the key that made it, and a key identifier is the key itself.
*/
module Certificate {
  import opened Clock
  import opened Wrappers

  datatype Curve = P256 | P384 | P521

  datatype PublicKey =
    | Ec(curve: Curve, x: nat, y: nat)
    | EcOther(curveName: string, x: nat, y: nat)
    | Rsa(bits: nat, modulus: nat)
    | OtherKey

  datatype KeyUsage = DigitalSignature | ContentCommitment | KeyEncipherment | KeyAgreement | CertSign | CrlSign

  datatype ExtKeyUsage = ServerAuth | ClientAuth | CodeSigning | EmailProtection | TimeStamping | OcspSigning

  // Subject attributes: the six types a profile can copy, and any other.
  datatype Rdn = CN | O | OU | C | ST | L | Other(oid: string)

  type Attributes = seq<(Rdn, string)>

  // A version 4 or version 6 address.
  datatype Ip = Ip(v4: bool, address: nat)

  datatype Sans = Sans(dns: seq<string>, ips: seq<Ip>, uris: seq<string>, emails: seq<string>)

  const NO_SANS := Sans([], [], [], [])

  // pathLen is meaningful in a CA certificate; None is an unconstrained one.
  datatype Cert = Cert(
    serial: int,
    subject: Attributes,
    issuer: Attributes,
    notBefore: Instant,
    notAfter: Instant,
    keyUsage: set<KeyUsage>,
    extKeyUsage: seq<ExtKeyUsage>,
    basicConstraints: bool,
    isCa: bool,
    pathLen: Option<nat>,
    subjectKeyId: PublicKey,
    authorityKeyId: PublicKey,
    sans: Sans,
    noCheck: bool,
    key: PublicKey,
    signedBy: PublicKey
  )

  datatype CaError =
    | NotAnIntermediate
    | RootCertificateRejected
    | NotSelfSigned
    | IssuerNotValid
    | ValidityExceedsIssuer

  // The key of parent verifies the signature on cert, and parent may sign certificates.
  predicate SignatureFrom(cert: Cert, parent: Cert) {
    parent.basicConstraints && parent.isCa && CertSign in parent.keyUsage && cert.signedBy == parent.key
  }

  predicate ValidAt(cert: Cert, now: Instant) {
    cert.notBefore <= now <= cert.notAfter
  }

  // Templates. Dates are encoded in whole seconds.

  function RootCert(serial: int, subject: Attributes, key: PublicKey, now: Instant, validity: Span): Cert {
    Cert(serial, subject, subject,
         TruncateToSecond(now - CLOCK_SKEW), TruncateToSecond(now + validity),
         {CertSign, CrlSign}, [], true, true, Some(1), key, key, NO_SANS, false, key, key)
  }

  function IntermediateCert(serial: int, subject: Attributes, key: PublicKey, root: Cert, now: Instant, validity: Span): Cert {
    Cert(serial, subject, root.subject,
         TruncateToSecond(now - CLOCK_SKEW), TruncateToSecond(now + validity),
         {CertSign, CrlSign}, [], true, true, Some(0), key, root.subjectKeyId, NO_SANS, false, key, root.key)
  }

  // Guards.

  const DEFAULT_ROOT_VALIDITY: Span := 10 * 365 * DAY
  const DEFAULT_INTERMEDIATE_VALIDITY: Span := 5 * 365 * DAY

  function OrDefault(validity: Span, default: Span): Span {
    if validity == 0 then default else validity
  }

  function CheckRootMaySign(root: Cert, validity: Span, now: Instant): (err: Option<CaError>)
    ensures err.None? <==>
              && root.basicConstraints && root.isCa && root.pathLen != Some(0) && CertSign in root.keyUsage
              && root.signedBy == root.key && ValidAt(root, now)
              && now + (if validity == 0 then 5 * 365 * DAY else validity) <= root.notAfter
  {
    if !root.basicConstraints || !root.isCa || CertSign !in root.keyUsage then Some(NotAnIntermediate)
    else if !SignatureFrom(root, root) then Some(NotSelfSigned)
    else if root.pathLen == Some(0) then Some(NotAnIntermediate)
    else if now < root.notBefore || now > root.notAfter then Some(IssuerNotValid)
    else if now + OrDefault(validity, DEFAULT_INTERMEDIATE_VALIDITY) > root.notAfter then Some(ValidityExceedsIssuer)
    else None
  }

  function CheckIntermediateCert(cert: Cert, now: Instant): (err: Option<CaError>)
    ensures err.None? <==>
              && cert.basicConstraints && cert.isCa && cert.pathLen == Some(0)
              && {CertSign, CrlSign} <= cert.keyUsage && cert.signedBy != cert.key && ValidAt(cert, now)
  {
    if !cert.basicConstraints || !cert.isCa then Some(NotAnIntermediate)
    else if SignatureFrom(cert, cert) then Some(RootCertificateRejected)
    else if cert.pathLen != Some(0) then Some(NotAnIntermediate)
    else if CertSign !in cert.keyUsage || CrlSign !in cert.keyUsage then Some(NotAnIntermediate)
    else if now < cert.notBefore || now > cert.notAfter then Some(IssuerNotValid)
    else None
  }

  function CheckIssuerCanCover(issuer: Cert, now: Instant, notAfter: Instant): (err: Option<CaError>)
    ensures err.None? <==> ValidAt(issuer, now) && notAfter <= issuer.notAfter
  {
    if now < issuer.notBefore || now > issuer.notAfter then Some(IssuerNotValid)
    else if notAfter > issuer.notAfter then Some(ValidityExceedsIssuer)
    else None
  }

  // Path validation, section 6.1 of RFC 5280, without policies, name constraints and
  // revocation. The working values are the issuer's name and key and the path length left.

  predicate SelfIssued(cert: Cert) {
    cert.subject == cert.issuer
  }

  predicate ProcessPath(name: Attributes, key: PublicKey, maxPathLen: nat, path: seq<Cert>, now: Instant)
    decreases path
  {
    path == [] ||
    var cert := path[0];
    // 6.1.3: signature, validity, name chaining.
    && cert.signedBy == key && ValidAt(cert, now) && cert.issuer == name
    && (|path| == 1 ||
        // 6.1.4: CA flag, path length, key usage.
        (&& cert.basicConstraints && cert.isCa && CertSign in cert.keyUsage
         && (SelfIssued(cert) || maxPathLen > 0)
         && ProcessPath(cert.subject, cert.key, NextMaxPathLen(maxPathLen, cert), path[1..], now)))
  }

  function NextMaxPathLen(maxPathLen: nat, cert: Cert): nat {
    var left := if SelfIssued(cert) || maxPathLen == 0 then maxPathLen else maxPathLen - 1;
    if cert.pathLen.Some? && cert.pathLen.value < left then cert.pathLen.value else left
  }

  // A path of certificates under a trust anchor given as a root certificate, the root first.
  predicate ValidPath(root: Cert, path: seq<Cert>, now: Instant) {
    ProcessPath(root.subject, root.key, |path| + 1, [root] + path, now)
  }

  // What the templates are good for.

  // A certificate made at now for a validity, dated back by the skew.
  predicate LivesFrom(cert: Cert, now: Instant, validity: Span) {
    SameSecond(now - CLOCK_SKEW, cert.notBefore) && SameSecond(now + validity, cert.notAfter)
  }

  /**
  A root certificate may sign intermediates at every instant of its life that leaves them
  their validity, and at no other; and it may sign a CRL.
  */
  lemma RootMaySignIff(serial: int, subject: Attributes, key: PublicKey, now: Instant, validity: Span, lasting: Span, t: Instant)
    ensures
      var root := RootCert(serial, subject, key, now, validity);
      && LivesFrom(root, now, validity) && root.subject == root.issuer == subject && root.key == key && root.serial == serial
      && CrlSign in root.keyUsage
      && (CheckRootMaySign(root, lasting, t) == None <==> ValidAt(root, t) && t + OrDefault(lasting, 5 * 365 * DAY) <= root.notAfter)
  {
  }

  /**
  An intermediate is one the service comes up on at every instant of its life, and at no
  other, unless it carries the root's own key.
  */
  lemma IntermediateLoadsIff(serial: int, subject: Attributes, key: PublicKey, root: Cert, now: Instant, validity: Span, t: Instant)
    ensures
      var cert := IntermediateCert(serial, subject, key, root, now, validity);
      && LivesFrom(cert, now, validity) && cert.subject == subject && cert.issuer == root.subject && cert.key == key && cert.serial == serial
      && (CheckIntermediateCert(cert, t) == None <==> key != root.key && ValidAt(cert, t))
  {
  }

  /** Under a root that certifies further authorities it validates exactly while both live. */
  lemma IntermediateValidatesIff(serial: int, subject: Attributes, key: PublicKey, root: Cert, now: Instant, validity: Span, t: Instant)
    requires root.subject == root.issuer && root.signedBy == root.key
    requires root.basicConstraints && root.isCa && CertSign in root.keyUsage && root.pathLen != Some(0)
    ensures
      var cert := IntermediateCert(serial, subject, key, root, now, validity);
      ValidPath(root, [cert], t) <==> ValidAt(root, t) && ValidAt(cert, t)
  {
    var cert := IntermediateCert(serial, subject, key, root, now, validity);
    var path := [root] + [cert];
    assert path == [root, cert] && path[1..] == [cert] && [cert][1..] == [];
    assert ProcessPath(root.subject, root.key, NextMaxPathLen(2, root), path[1..], t) <==> ValidAt(cert, t);
  }
}
