/**
Re-issue of the intermediate under an existing root (internal/ca/reissue.go): the ceremony's
steps without a root of its own. It never creates a key under another label, and it signs
only with the key its root certificate certifies.
*/
module Reissue {
  import opened Certificate
  import opened Ceremony
  import opened Clock
  import opened Issuance
  import opened Text
  import opened Token
  import opened Wrappers

  datatype ReissueParams = ReissueParams(
    rootWorkspace: Workspace,
    rootKeyLabel: string,
    rootCurve: Curve,
    rootCert: Option<Cert>,
    workspace: Workspace,
    keyLabel: string,
    subject: Attributes,
    curve: Curve,
    validity: Span,
    urlsOk: bool
  )

  function WithDefault(p: ReissueParams): (d: ReissueParams)
    ensures d.validity == if p.validity == 0 then 5 * 365 * DAY else p.validity
    ensures d == p.(validity := d.validity)
  {
    p.(validity := OrDefault(p.validity, DEFAULT_INTERMEDIATE_VALIDITY))
  }

  // What is refused before any token is touched.
  function Refused(p: ReissueParams, now: Instant): (err: Option<CeremonyError>)
    ensures err.None? <==>
              && p.rootWorkspace.serial != "" && p.workspace.serial != "" && p.rootWorkspace.serial != p.workspace.serial
              && p.rootKeyLabel != "" && p.rootKeyLabel != p.keyLabel && VersionedLabel(p.keyLabel) && p.urlsOk
              && (CommonName(p.subject) != "" || Values(p.subject, O) != [])
              && p.rootCert.Some? && CheckRootMaySign(p.rootCert.value, p.validity, now) == None
  {
    if p.rootWorkspace.serial == "" || p.workspace.serial == "" || p.rootWorkspace.serial == p.workspace.serial then Some(InvalidParams)
    else if p.rootKeyLabel == "" || p.keyLabel == "" || p.rootKeyLabel == p.keyLabel then Some(InvalidParams)
    else if !VersionedLabel(p.keyLabel) || !p.urlsOk || p.rootCert.None? then Some(InvalidParams)
    else if CommonName(p.subject) == "" && Values(p.subject, O) == [] then Some(InvalidParams)
    else
      var check := CheckRootMaySign(p.rootCert.value, p.validity, now);
      if check.Some? then Some(RootMayNotSign(check.value)) else None
  }

  // The certificate of a re-issue: signed by the certified root over the new key, and no
  // longer-lived than that root at the instant it carries.
  ghost predicate IssuedUnder(cert: Cert, p: ReissueParams, key: PublicKey, serial: int, now: Instant) {
    && p.rootCert.Some?
    && cert == IntermediateCert(serial, p.subject, key, p.rootCert.value, now, p.validity)
    && CheckRootMaySign(p.rootCert.value, p.validity, now) == None
  }

  // It lives from now for the validity asked for, inside the root's life; the service comes
  // up on it while it lives, if its key is its own; and under a root certificate that names
  // itself it validates as long.
  ghost predicate Serves(cert: Cert, p: ReissueParams, now: Instant) {
    && p.rootCert.Some? && cert.subject == p.subject && LivesFrom(cert, now, p.validity)
    && cert.notAfter <= p.rootCert.value.notAfter
    && (forall t: Instant :: CheckIntermediateCert(cert, t) == None <==> cert.key != p.rootCert.value.key && ValidAt(cert, t))
    && (p.rootCert.value.subject == p.rootCert.value.issuer ==> ServesUnder(p.rootCert.value, cert))
  }

  lemma IssuedServes(cert: Cert, p: ReissueParams, key: PublicKey, serial: int, now: Instant)
    requires IssuedUnder(cert, p, key, serial, now) && p.validity != 0
    ensures Serves(cert, p, now)
  {
    var root := p.rootCert.value;
    IntermediateLoadsIff(serial, p.subject, key, root, now, p.validity, now);
    forall t: Instant
      ensures CheckIntermediateCert(cert, t) == None <==> key != root.key && ValidAt(cert, t)
      ensures root.subject == root.issuer ==> (ValidPath(root, [cert], t) <==> ValidAt(root, t) && ValidAt(cert, t))
    {
      IntermediateLoadsIff(serial, p.subject, key, root, now, p.validity, t);
      if root.subject == root.issuer {
        IntermediateValidatesIff(serial, p.subject, key, root, now, p.validity, t);
      }
    }
  }

  // The certified key is the one pair under the root's label, on the root's curve.
  ghost predicate HoldsRoot(objects: Objects, p: ReissueParams)
    requires p.rootCert.Some?
  {
    var key := p.rootCert.value.key;
    && key.Ec? && key.curve == p.rootCurve
    && OnlyHolds(objects, PublicObject, p.rootKeyLabel, key) && OnlyHolds(objects, PrivateObject, p.rootKeyLabel, key)
  }

  // Inside the root's login: the existing root key, which must be the certified one.
  method SignUnderExistingRoot(a: Adapter, p: ReissueParams, key: PublicKey, serial: int, now: Instant)
    returns (cert: Result<Cert, CeremonyError>)
    requires a.Present(p.rootWorkspace) && p.rootCert.Some?
    modifies a`trace, a`failures
    ensures a.failures >= old(a.failures)
    ensures a.failures == old(a.failures) && old(a.TokenOf(p.rootWorkspace) in a.authenticated) ==>
              (cert.Ok? <==> HoldsRoot(a.ObjectsOf(p.rootWorkspace), p) && CheckRootMaySign(p.rootCert.value, p.validity, now) == None)
    ensures old(a.trace) <= a.trace && |a.trace| <= |old(a.trace)| + 1
    ensures |a.trace| > |old(a.trace)| ==> a.trace[|old(a.trace)|].Search?
    ensures old(a.Visible(p.rootWorkspace, PrivateObject, p.rootKeyLabel)) == {} ==> cert == Err(KeyMissing) || cert == Err(SearchFailed)
    ensures cert.Ok? ==>
              && IssuedUnder(cert.value, p, key, serial, now)
              && exists h <- a.ObjectsOf(p.rootWorkspace) ::
                   && a.Visible(p.rootWorkspace, PrivateObject, p.rootKeyLabel) == {h}
                   && a.ObjectsOf(p.rootWorkspace)[h].point == p.rootCert.value.key
    ensures cert.Err? ==> cert.error != LogoutFailed
  {
    var found := KeyPairExists(a, p.rootWorkspace, p.rootKeyLabel);
    if found.Err? {
      return Err(found.error);
    }
    if !found.value {
      return Err(KeyMissing);
    }
    var root := p.rootCert.value;
    var rootKey := NewSigner(a, p.rootWorkspace, p.rootKeyLabel, p.rootCurve);
    if rootKey.None? {
      return Err(SignerUnavailable);
    }
    if rootKey.value != root.key {
      return Err(KeyCertMismatch);
    }
    var check := CheckRootMaySign(root, p.validity, now);
    if check.Some? {
      return Err(RootMayNotSign(check.value));
    }
    var signed := SignAs(a, p.rootWorkspace, p.rootKeyLabel, rootKey.value);
    if !signed {
      return Err(SignatureFailed);
    }
    cert := Ok(IntermediateCert(serial, p.subject, key, root, now, p.validity));
  }

  // A search, or nothing, keeps the discipline and creates no key.
  lemma SearchKeeps(t: seq<Call>, t': seq<Call>, start: nat, plan: Plan)
    requires start <= |t| && Disciplined(t, start, plan) && OnlyNewKey(t, start, plan)
    requires t <= t' && |t'| <= |t| + 1 && (|t'| > |t| ==> t'[|t|].Search?)
    ensures Disciplined(t', start, plan) && OnlyNewKey(t', start, plan)
  {
    if |t'| > |t| {
      assert t' == t + [t'[|t|]];
      DisciplinedStep(t, t'[|t|], start, plan);
    } else {
      assert t' == t;
    }
  }

  // Measure the separation, then sign; neither creates a key.
  method SignIfSeparate(a: Adapter, p: ReissueParams, key: PublicKey, serial: int, now: Instant, ghost start: nat, ghost plan: Plan)
    returns (result: Option<Cert>, err: Option<CeremonyError>)
    requires a.Present(p.rootWorkspace) && a.TokenOf(p.rootWorkspace) in a.authenticated && a.Present(p.workspace) && p.rootCert.Some?
    requires plan.rootToken == a.TokenOf(p.rootWorkspace) && plan.token == a.TokenOf(p.workspace)
    requires start <= |a.trace| && Disciplined(a.trace, start, plan) && OnlyNewKey(a.trace, start, plan)
    requires HoldsKey(a.ObjectsOf(p.workspace), p.keyLabel, key)
    modifies a`trace, a`failures
    ensures a.failures >= old(a.failures)
    ensures a.failures == old(a.failures) ==>
              (result.Some? <==>
                 && Holding(a.ObjectsOf(p.rootWorkspace), PrivateObject, p.keyLabel) == {}
                 && HoldsRoot(a.ObjectsOf(p.rootWorkspace), p) && CheckRootMaySign(p.rootCert.value, p.validity, now) == None)
    ensures old(a.trace) <= a.trace && Disciplined(a.trace, start, plan) && OnlyNewKey(a.trace, start, plan)
    ensures result.Some? <==> err == None
    ensures err != Some(LogoutFailed)
    ensures old(Holding(a.ObjectsOf(p.rootWorkspace), PrivateObject, p.rootKeyLabel)) == {} ==> result == None
    ensures result.Some? ==>
              && plan.rootToken != plan.token && IssuedUnder(result.value, p, key, serial, now)
              && HoldsKey(a.ObjectsOf(p.rootWorkspace), p.rootKeyLabel, p.rootCert.value.key)
  {
    ghost var before := a.trace;
    var seen := KeyPairExists(a, p.rootWorkspace, p.keyLabel);
    if seen.Err? {
      return None, Some(seen.error);
    }
    ghost var measured := a.trace;
    SearchKeeps(before, measured, start, plan);
    if seen.value {
      return None, Some(NotSeparate);
    }
    var signed := SignUnderExistingRoot(a, p, key, serial, now);
    SearchKeeps(measured, a.trace, start, plan);
    match signed {
      case Ok(cert) => result, err := Some(cert), None;
      case Err(e) => result, err := None, Some(e);
    }
  }

  ghost predicate ReadyForReissue(a: Adapter, p: ReissueParams)
    reads a`tokens, a`anchor
    requires p.rootCert.Some?
  {
    && a.anchor == None && a.Present(p.rootWorkspace) && a.Present(p.workspace)
    && a.TokenOf(p.rootWorkspace) != a.TokenOf(p.workspace)
    && Free(a.ObjectsOf(p.workspace), p.keyLabel) && HoldsRoot(a.ObjectsOf(p.rootWorkspace), p)
    && Holding(a.ObjectsOf(p.rootWorkspace), PrivateObject, p.keyLabel) == {}
  }

  /**
  The re-issue, for every schedule of faults and every generator. The clock is read when the
  parameters are checked and again when the certificate is signed; only the second reading
  approves it. A missing root key is an error, and no run creates one. What comes back
  serves for its whole life, and when no call fails it comes back exactly when the
  parameters stand at both readings, no token is logged in, the tokens are two, the new
  label is free where it must be and the root's token holds the certified key.
  */
  method ReissueIntermediate(a: Adapter, params: ReissueParams, serial: int, checkedAt: Instant, now: Instant, ghost plan: Plan)
    returns (result: Option<Cert>, err: Option<CeremonyError>)
    requires PlanOf(a, plan, params.rootWorkspace, params.workspace, params.rootKeyLabel, params.keyLabel, false)
    modifies a`tokens, a`anchor, a`authenticated, a`trace, a`made, a`failures
    ensures a.failures >= old(a.failures)
    ensures a.failures == old(a.failures) ==>
              && var p := WithDefault(params);
              && (result.Some? <==>
                    && Refused(p, checkedAt) == None && CheckRootMaySign(p.rootCert.value, p.validity, now) == None
                    && old(ReadyForReissue(a, p)))
              && (result.Some? ==> err == None)
    ensures LeftTidy(a) && Disciplined(a.trace, |old(a.trace)|, plan) && OnlyNewKey(a.trace, |old(a.trace)|, plan)
    ensures old(a.anchor).Some? ==> result == None && a.tokens == old(a.tokens) && a.trace == old(a.trace)
    ensures result == None ==> err.Some?
    ensures result.Some? ==> err == None || err == Some(LogoutFailed)
    ensures Refused(WithDefault(params), checkedAt).Some? ==> err == Refused(WithDefault(params), checkedAt) && a.trace == old(a.trace)
    ensures result.Some? ==>
              && var p := WithDefault(params);
              && a.Present(p.rootWorkspace) && a.Present(p.workspace) && a.TokenOf(p.rootWorkspace) != a.TokenOf(p.workspace)
              && IssuedUnder(result.value, p, result.value.key, serial, now) && Serves(result.value, p, now)
              && HoldsKey(a.ObjectsOf(p.workspace), p.keyLabel, result.value.key)
              && HoldsKey(a.ObjectsOf(p.rootWorkspace), p.rootKeyLabel, result.value.signedBy)
              && Holding(old(a.ObjectsOf(p.rootWorkspace)), PrivateObject, p.rootKeyLabel) != {}
  {
    result := None;
    var p := WithDefault(params);
    err := Refused(p, checkedAt);
    if err.Some? {
      return;
    }
    var key: Option<PublicKey>;
    key, err := PrepareKey(a, p.rootWorkspace, p.workspace, p.keyLabel, p.curve, plan);
    if err.Some? {
      return;
    }
    result, err := SignIfSeparate(a, p, key.value, serial, now, |old(a.trace)|, plan);
    ghost var work := a.trace;
    err := Leave(a, err);
    DisciplinedStep(work, Logout, |old(a.trace)|, plan);
    if result.Some? {
      IssuedServes(result.value, p, key.value, serial, now);
    }
  }
}
