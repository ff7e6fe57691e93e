/**
Issuance under a profile (internal/ca/ca.go, internal/profile/profile.go): what a request
may ask for, and the leaf it gets. The methods are the code's loops; the predicates and
functions they are proved against say what a profile means.
*/
module Issuance {
  import opened Certificate
  import opened Clock
  import opened Wrappers

  const MIN_RSA_KEY_BITS := 2048

  const INTERNAL_ONLY_PROFILE := "ocsp-responder"

  predicate InternalOnly(name: string) {
    name == INTERNAL_ONLY_PROFILE
  }

  datatype SanType = SanDns | SanIp | SanUri | SanEmail

  datatype KeyAlgorithm = EcP256 | EcP384 | EcP521 | RsaKey

  datatype Profile = Profile(
    name: string,
    extKeyUsages: seq<ExtKeyUsage>,
    keyUsage: set<KeyUsage>,
    sanTypes: seq<SanType>,
    sanRequired: bool,
    subjectRdns: seq<Rdn>,
    keyAlgorithms: seq<KeyAlgorithm>,
    validity: Span,
    noCheck: bool
  )

  // names is the subject in the order it was encoded.
  datatype Csr = Csr(names: Attributes, sans: Sans, key: PublicKey, signatureOk: bool)

  datatype IssueError =
    | NoDistributionPoints
    | UnknownProfile
    | InvalidCsrSignature
    | EmptySubject
    | DisallowedKeyType
    | NameNotAllowed
    | SubjectNotAllowed
    | ValidityExceedsPolicy
    | NotCovered(error: CaError)
    | SigningFailed

  // Subjects.

  function Values(names: Attributes, rdn: Rdn): seq<string> {
    if names == [] then []
    else (if names[0].0 == rdn then [names[0].1] else []) + Values(names[1..], rdn)
  }

  // A name has one common name: the last one encoded, or none.
  function CommonName(names: Attributes): string {
    var cns := Values(names, CN);
    if cns == [] then "" else cns[|cns| - 1]
  }

  /** Of several common names the last stands; without any there is none. */
  lemma CommonNameIsLast(before: Attributes, name: string, after: Attributes)
    requires Values(after, CN) == []
    ensures CommonName(before + [(CN, name)] + after) == name && CommonName(after) == ""
  {
    ValuesConcat(before + [(CN, name)], after, CN);
    ValuesConcat(before, [(CN, name)], CN);
    assert Values([(CN, name)], CN) == [name] + Values([], CN) == [name];
  }

  function Tagged(rdn: Rdn, values: seq<string>): (a: Attributes)
    ensures |a| == |values|
    ensures forall i :: 0 <= i < |a| ==> a[i] == (rdn, values[i])
  {
    seq(|values|, i requires 0 <= i < |values| => (rdn, values[i]))
  }

  // A name written back from its fields: the multi-valued attributes, then the common name.
  function Rewritten(names: Attributes): Attributes {
    Tagged(C, Values(names, C)) + Tagged(O, Values(names, O)) + Tagged(OU, Values(names, OU))
    + Tagged(L, Values(names, L)) + Tagged(ST, Values(names, ST))
    + (if CommonName(names) == "" then [] else [(CN, CommonName(names))])
  }

  lemma {:induction false} ValuesConcat(a: Attributes, b: Attributes, rdn: Rdn)
    ensures Values(a + b, rdn) == Values(a, rdn) + Values(b, rdn)
  {
    if a == [] {
      assert a + b == b;
    } else {
      ValuesConcat(a[1..], b, rdn);
      assert (a + b)[1..] == a[1..] + b && (a + b)[0] == a[0];
      var head := if a[0].0 == rdn then [a[0].1] else [];
      assert head + (Values(a[1..], rdn) + Values(b, rdn)) == head + Values(a[1..], rdn) + Values(b, rdn);
    }
  }

  lemma {:induction false} ValuesTagged(tag: Rdn, values: seq<string>, rdn: Rdn)
    ensures Values(Tagged(tag, values), rdn) == if tag == rdn then values else []
  {
    if values == [] {
    } else {
      assert Tagged(tag, values)[1..] == Tagged(tag, values[1..]);
      ValuesTagged(tag, values[1..], rdn);
    }
  }

  lemma ValuesConcatSix(a: Attributes, b: Attributes, c: Attributes, d: Attributes, e: Attributes, f: Attributes, rdn: Rdn)
    ensures Values(a + b + c + d + e + f, rdn) ==
            Values(a, rdn) + Values(b, rdn) + Values(c, rdn) + Values(d, rdn) + Values(e, rdn) + Values(f, rdn)
  {
    ValuesConcat(a + b + c + d + e, f, rdn);
    ValuesConcat(a + b + c + d, e, rdn);
    ValuesConcat(a + b + c, d, rdn);
    ValuesConcat(a + b, c, rdn);
    ValuesConcat(a, b, rdn);
  }

  // One attribute type of a rewritten subject.
  lemma RewrittenValues(names: Attributes, rdn: Rdn)
    ensures Values(Rewritten(names), rdn) ==
            if rdn in {C, O, OU, L, ST} then Values(names, rdn)
            else if rdn == CN && CommonName(names) != "" then [CommonName(names)]
            else []
  {
    var cn := if CommonName(names) == "" then [] else [CommonName(names)];
    var c, o, ou := Tagged(C, Values(names, C)), Tagged(O, Values(names, O)), Tagged(OU, Values(names, OU));
    var l, st, n := Tagged(L, Values(names, L)), Tagged(ST, Values(names, ST)), Tagged(CN, cn);
    assert Rewritten(names) == c + o + ou + l + st + n;
    ValuesConcatSix(c, o, ou, l, st, n, rdn);
    ValuesTagged(C, Values(names, C), rdn);
    ValuesTagged(O, Values(names, O), rdn);
    ValuesTagged(OU, Values(names, OU), rdn);
    ValuesTagged(L, Values(names, L), rdn);
    ValuesTagged(ST, Values(names, ST), rdn);
    ValuesTagged(CN, cn, rdn);
    OneOfSix(Values(c, rdn), Values(o, rdn), Values(ou, rdn), Values(l, rdn), Values(st, rdn), Values(n, rdn));
  }

  lemma OneOfSix(a: seq<string>, b: seq<string>, c: seq<string>, d: seq<string>, e: seq<string>, f: seq<string>)
    ensures b == [] && c == [] && d == [] && e == [] && f == [] ==> a + b + c + d + e + f == a
    ensures a == [] && c == [] && d == [] && e == [] && f == [] ==> a + b + c + d + e + f == b
    ensures a == [] && b == [] && d == [] && e == [] && f == [] ==> a + b + c + d + e + f == c
    ensures a == [] && b == [] && c == [] && e == [] && f == [] ==> a + b + c + d + e + f == d
    ensures a == [] && b == [] && c == [] && d == [] && f == [] ==> a + b + c + d + e + f == e
    ensures a == [] && b == [] && c == [] && d == [] && e == [] ==> a + b + c + d + e + f == f
  {
  }

  /**
  Rewriting a subject keeps every value of the five multi-valued attribute types, in order.
  Of several common names it keeps the last, so that they come through whole exactly when
  there is none, or one that is not empty.
  */
  lemma RewrittenKeepsValues(names: Attributes)
    ensures forall rdn <- {C, O, OU, L, ST} :: Values(Rewritten(names), rdn) == Values(names, rdn)
    ensures CommonName(Rewritten(names)) == CommonName(names)
    ensures Values(Rewritten(names), CN) == Values(names, CN) <==> KeepsCommonNames(names)
  {
    forall rdn: Rdn | rdn in {C, O, OU, L, ST} ensures Values(Rewritten(names), rdn) == Values(names, rdn) {
      RewrittenValues(names, rdn);
    }
    RewrittenValues(names, CN);
  }

  predicate KeepsCommonNames(names: Attributes) {
    Values(names, CN) == [] || (|Values(names, CN)| == 1 && CommonName(names) != "")
  }

  predicate KnownRdn(rdn: Rdn) {
    !rdn.Other?
  }

  // The request's subject as the profile lets it stand.
  function SubjectUnder(p: Profile, names: Attributes): Option<Attributes> {
    if exists i :: 0 <= i < |names| && !(KnownRdn(names[i].0) && names[i].0 in p.subjectRdns) then None
    else if names == [] && !p.sanRequired then None
    else Some(Rewritten(names))
  }

  method Subject(p: Profile, names: Attributes) returns (subject: Option<Attributes>)
    ensures subject == SubjectUnder(p, names)
  {
    var kept: Attributes := [];
    for i := 0 to |names|
      invariant kept == names[..i]
      invariant forall j :: 0 <= j < i ==> KnownRdn(names[j].0) && names[j].0 in p.subjectRdns
    {
      if !KnownRdn(names[i].0) || names[i].0 !in p.subjectRdns {
        return None;
      }
      kept := kept + [names[i]];
    }
    assert kept == names;
    if |kept| == 0 && !p.sanRequired {
      return None;
    }
    subject := Some(Rewritten(kept));
  }

  // Names.

  function SanCount(sans: Sans, t: SanType): nat {
    match t
    case SanDns => |sans.dns|
    case SanIp => |sans.ips|
    case SanUri => |sans.uris|
    case SanEmail => |sans.emails|
  }

  const SAN_TYPES: seq<SanType> := [SanDns, SanIp, SanUri, SanEmail]

  // Only types the profile copies, and at least one name where it requires one.
  predicate SansAllowed(p: Profile, sans: Sans): (allowed: bool)
    ensures allowed <==>
              && (sans.dns != [] ==> SanDns in p.sanTypes) && (sans.ips != [] ==> SanIp in p.sanTypes)
              && (sans.uris != [] ==> SanUri in p.sanTypes) && (sans.emails != [] ==> SanEmail in p.sanTypes)
              && (p.sanRequired ==> sans != NO_SANS)
  {
    assert sans != NO_SANS <==> SanCount(sans, SanDns) > 0 || SanCount(sans, SanIp) > 0 || SanCount(sans, SanUri) > 0 || SanCount(sans, SanEmail) > 0;
    && (forall t: SanType :: SanCount(sans, t) > 0 ==> t in p.sanTypes)
    && (p.sanRequired ==> exists t: SanType :: SanCount(sans, t) > 0)
  }

  method CheckSans(p: Profile, sans: Sans) returns (ok: bool)
    ensures ok <==> SansAllowed(p, sans)
  {
    var present := 0;
    for i := 0 to |SAN_TYPES|
      invariant forall j :: 0 <= j < i ==> SanCount(sans, SAN_TYPES[j]) > 0 ==> SAN_TYPES[j] in p.sanTypes
      invariant present >= 0
      invariant present > 0 <==> exists j :: 0 <= j < i && SanCount(sans, SAN_TYPES[j]) > 0
    {
      var n := SanCount(sans, SAN_TYPES[i]);
      if n != 0 {
        if SAN_TYPES[i] !in p.sanTypes {
          return false;
        }
        present := present + n;
      }
    }
    forall t: SanType | SanCount(sans, t) > 0
      ensures t in p.sanTypes && present > 0
    {
      var j := SanIndex(t);
      assert SanCount(sans, SAN_TYPES[j]) > 0;
    }
    ok := !(p.sanRequired && present == 0);
  }

  lemma SanIndex(t: SanType) returns (j: nat)
    ensures j < |SAN_TYPES| && SAN_TYPES[j] == t
  {
    match t {
      case SanDns => j := 0;
      case SanIp => j := 1;
      case SanUri => j := 2;
      case SanEmail => j := 3;
    }
  }

  // Keys.

  function AlgorithmOf(key: PublicKey): Option<KeyAlgorithm> {
    match key
    case Ec(curve, _, _) => Some(match curve case P256 => EcP256 case P384 => EcP384 case P521 => EcP521)
    case Rsa(bits, _) => if bits < MIN_RSA_KEY_BITS then None else Some(RsaKey)
    case _ => None
  }

  predicate AllowsKey(p: Profile, key: PublicKey) {
    AlgorithmOf(key).Some? && AlgorithmOf(key).value in p.keyAlgorithms
  }

  function KeyUsageFor(key: PublicKey, fromProfile: set<KeyUsage>): set<KeyUsage> {
    if key.Rsa? then fromProfile else fromProfile - {KeyEncipherment}
  }

  function ValidateCsr(csr: Csr): Option<IssueError> {
    if !csr.signatureOk then Some(InvalidCsrSignature)
    else if CommonName(csr.names) == "" && Values(csr.names, O) == [] then Some(EmptySubject)
    else if AlgorithmOf(csr.key).None? then Some(DisallowedKeyType)
    else None
  }

  // The issuing CA: its certificate, the ceiling on validity (zero is none), and whether
  // its distribution URLs are usable.
  datatype Ca = Ca(cert: Cert, maxTtl: Span, distributionOk: bool)

  function Leaf(ca: Ca, csr: Csr, p: Profile, subject: Attributes, now: Instant, serial: int): Cert {
    Cert(serial, subject, ca.cert.subject,
         TruncateToSecond(now - CLOCK_SKEW), TruncateToSecond(now + p.validity),
         KeyUsageFor(csr.key, p.keyUsage), p.extKeyUsages, true, false, None,
         csr.key, ca.cert.subjectKeyId, csr.sans, p.noCheck, csr.key, ca.cert.key)
  }

  // Why a request is refused, in the order the checks are made.
  function Refusal(ca: Ca, csr: Csr, p: Option<Profile>, now: Instant): Option<IssueError> {
    if !ca.distributionOk then Some(NoDistributionPoints)
    else if p.None? then Some(UnknownProfile)
    else if ValidateCsr(csr).Some? then ValidateCsr(csr)
    else if !AllowsKey(p.value, csr.key) then Some(DisallowedKeyType)
    else if !SansAllowed(p.value, csr.sans) then Some(NameNotAllowed)
    else if SubjectUnder(p.value, csr.names).None? then Some(SubjectNotAllowed)
    else if ca.maxTtl > 0 && p.value.validity > ca.maxTtl then Some(ValidityExceedsPolicy)
    else
      match CheckIssuerCanCover(ca.cert, now, now + p.value.validity)
      case Some(error) => Some(NotCovered(error))
      case None => None
  }

  function IssueResult(ca: Ca, csr: Csr, p: Option<Profile>, now: Instant, serial: int, signs: bool): Result<Cert, IssueError> {
    match Refusal(ca, csr, p, now)
    case Some(error) => Err(error)
    case None =>
      if signs
      then Ok(Leaf(ca, csr, p.value, SubjectUnder(p.value, csr.names).value, now, serial))
      else Err(SigningFailed)
  }

  method Issue(ca: Ca, csr: Csr, p: Option<Profile>, now: Instant, serial: int, signs: bool) returns (r: Result<Cert, IssueError>)
    ensures r == IssueResult(ca, csr, p, now, serial, signs)
  {
    if !ca.distributionOk {
      return Err(NoDistributionPoints);
    }
    if p.None? {
      return Err(UnknownProfile);
    }
    var invalid := ValidateCsr(csr);
    if invalid.Some? {
      return Err(invalid.value);
    }
    if !AllowsKey(p.value, csr.key) {
      return Err(DisallowedKeyType);
    }
    var sansOk := CheckSans(p.value, csr.sans);
    if !sansOk {
      return Err(NameNotAllowed);
    }
    var subject := Subject(p.value, csr.names);
    if subject.None? {
      return Err(SubjectNotAllowed);
    }
    if ca.maxTtl > 0 && p.value.validity > ca.maxTtl {
      return Err(ValidityExceedsPolicy);
    }
    var notAfter := now + p.value.validity;
    var uncovered := CheckIssuerCanCover(ca.cert, now, notAfter);
    if uncovered.Some? {
      return Err(NotCovered(uncovered.value));
    }
    if !signs {
      return Err(SigningFailed);
    }
    r := Ok(Leaf(ca, csr, p.value, subject.value, now, serial));
  }

  // The key is of an algorithm the profile lists: an EC key on its curve, or an RSA key of
  // 2048 bits or more.
  predicate KeyFits(p: Profile, key: PublicKey) {
    || (key.Ec? && key.curve == P256 && EcP256 in p.keyAlgorithms)
    || (key.Ec? && key.curve == P384 && EcP384 in p.keyAlgorithms)
    || (key.Ec? && key.curve == P521 && EcP521 in p.keyAlgorithms)
    || (key.Rsa? && key.bits >= 2048 && RsaKey in p.keyAlgorithms)
  }

  // Every attribute is one the profile copies, and there is one unless the names stand for it.
  predicate SubjectFits(p: Profile, names: Attributes) {
    && (forall a <- names :: !a.0.Other? && a.0 in p.subjectRdns)
    && (names != [] || p.sanRequired)
  }

  /**
  A certificate comes out exactly for a request that is signed, says whom it is for and asks
  for nothing the profile or the authority does not allow.
  */
  lemma IssuedIff(ca: Ca, csr: Csr, p: Option<Profile>, now: Instant, serial: int, signs: bool)
    ensures IssueResult(ca, csr, p, now, serial, signs).Ok? <==>
              && ca.distributionOk && p.Some? && csr.signatureOk
              && (CommonName(csr.names) != "" || Values(csr.names, O) != [])
              && KeyFits(p.value, csr.key) && SansAllowed(p.value, csr.sans) && SubjectFits(p.value, csr.names)
              && (ca.maxTtl > 0 ==> p.value.validity <= ca.maxTtl)
              && ValidAt(ca.cert, now) && now + p.value.validity <= ca.cert.notAfter && signs
  {
    if p.Some? {
      SubjectStandsIff(p.value, csr.names);
    }
  }

  lemma SubjectStandsIff(p: Profile, names: Attributes)
    ensures SubjectUnder(p, names).Some? <==> SubjectFits(p, names)
  {
    if i :| 0 <= i < |names| && !(KnownRdn(names[i].0) && names[i].0 in p.subjectRdns) {
      assert names[i] in names;
    }
  }

  /** Each refusal has its reason, and none of those checked before it. */
  lemma RefusedBecause(ca: Ca, csr: Csr, p: Option<Profile>, now: Instant)
    ensures
      var r := Refusal(ca, csr, p, now);
      && (r == Some(NoDistributionPoints) <==> !ca.distributionOk)
      && (r == Some(UnknownProfile) <==> ca.distributionOk && p.None?)
      && (r == Some(InvalidCsrSignature) <==> ca.distributionOk && p.Some? && !csr.signatureOk)
      && (r == Some(EmptySubject) ==> csr.signatureOk && CommonName(csr.names) == "" && Values(csr.names, O) == [])
      && (r == Some(DisallowedKeyType) ==> csr.signatureOk && p.Some? && !KeyFits(p.value, csr.key))
      && (r == Some(NameNotAllowed) ==> p.Some? && KeyFits(p.value, csr.key) && !SansAllowed(p.value, csr.sans))
      && (r == Some(SubjectNotAllowed) ==> p.Some? && SansAllowed(p.value, csr.sans) && !SubjectFits(p.value, csr.names))
      && (r == Some(ValidityExceedsPolicy) ==> p.Some? && SubjectFits(p.value, csr.names) && 0 < ca.maxTtl < p.value.validity)
      && (r.Some? && r.value.NotCovered? ==> p.Some? && !(ValidAt(ca.cert, now) && now + p.value.validity <= ca.cert.notAfter))
  {
    if p.Some? {
      SubjectStandsIff(p.value, csr.names);
    }
  }

  /**
  What a leaf carries of its request: every subject attribute was requested and is of a type
  the profile copies; the multi-valued types keep their values, and of the common names the
  last is kept; the names are
  the request's whole; the key usages are the profile's, without key encipherment for an
  EC key; it lives from now for the profile's validity, inside its issuer's life; and it is
  not a CA.
  */
  lemma LeafFollowsRequest(ca: Ca, csr: Csr, p: Option<Profile>, now: Instant, serial: int)
    requires IssueResult(ca, csr, p, now, serial, true).Ok?
    ensures
      var leaf := IssueResult(ca, csr, p, now, serial, true).value;
      && CommonName(leaf.subject) == CommonName(csr.names)
      && (Values(leaf.subject, CN) == Values(csr.names, CN) <==> KeepsCommonNames(csr.names))
      && (forall a <- leaf.subject :: a in csr.names && a.0 in p.value.subjectRdns)
      && (forall rdn <- {C, O, OU, L, ST} :: Values(leaf.subject, rdn) == Values(csr.names, rdn))
      && leaf.sans == csr.sans && SansAllowed(p.value, leaf.sans)
      && leaf.keyUsage == (if leaf.key.Rsa? then p.value.keyUsage else p.value.keyUsage - {KeyEncipherment})
      && leaf.extKeyUsage == p.value.extKeyUsages && leaf.noCheck == p.value.noCheck && !leaf.isCa && leaf.key == csr.key
      && LivesFrom(leaf, now, p.value.validity) && leaf.notAfter <= ca.cert.notAfter && leaf.serial == serial
      && leaf.issuer == ca.cert.subject && leaf.signedBy == ca.cert.key && leaf.authorityKeyId == ca.cert.subjectKeyId
  {
    var leaf := IssueResult(ca, csr, p, now, serial, true).value;
    RewrittenKeepsValues(csr.names);
    forall a | a in leaf.subject ensures a in csr.names && a.0 in p.value.subjectRdns {
      RewrittenIsRequested(csr.names, a);
    }
  }

  lemma RewrittenIsRequested(names: Attributes, a: (Rdn, string))
    requires a in Rewritten(names)
    ensures a in names
  {
    ThereIsAValue(Rewritten(names), a.0, a.1);
    RewrittenValues(names, a.0);
    if a.0 == CN {
      assert Values(names, CN) != [];
    }
    ValueIsThere(names, a.0, a.1);
  }

  lemma {:induction false} ThereIsAValue(names: Attributes, rdn: Rdn, v: string)
    requires (rdn, v) in names
    ensures v in Values(names, rdn)
  {
    if names[0] == (rdn, v) {
    } else {
      ThereIsAValue(names[1..], rdn, v);
    }
  }

  lemma {:induction false} ValueIsThere(names: Attributes, rdn: Rdn, v: string)
    requires v in Values(names, rdn)
    ensures (rdn, v) in names
  {
    if names[0].0 == rdn && names[0].1 == v {
    } else {
      ValueIsThere(names[1..], rdn, v);
    }
  }
}
