/**
The root ceremony and the intermediate re-issue over two tokens (internal/ca/ceremony.go,
reissue.go), for every schedule of faults and every generator. What each leaves on the
tokens, in which order it touches them, and when it returns certificates.
*/
module Ceremony {
  import opened Certificate
  import opened Clock
  import opened Crl
  import opened Text
  import opened Token
  import opened Wrappers

  const DEFAULT_ROOT_CRL_VALIDITY: Span := 5 * 365 * DAY

  datatype CeremonyParams = CeremonyParams(
    rootWorkspace: Workspace,
    rootKeyLabel: string,
    rootSubject: Attributes,
    rootCurve: Curve,
    rootValidity: Span,
    rootCrlValidity: Span,
    rootKeyExtractable: bool,
    workspace: Workspace,
    keyLabel: string,
    subject: Attributes,
    curve: Curve,
    validity: Span,
    urlsOk: bool
  )

  datatype CeremonyError =
    | InvalidParams
    | AlreadyAuthenticated
    | PinUnavailable
    | LoginFailed
    | SearchFailed
    | LabelTaken
    | NotSeparate
    | KeyMissing
    | GenerateFailed
    | SignerUnavailable
    | KeyCertMismatch
    | RootMayNotSign(error: CaError)
    | SignatureFailed
    | CrlFailed(crlError: BuildError)
    | LogoutFailed

  datatype CeremonyResult = CeremonyResult(root: Cert, intermediate: Cert, rootCrl: Crl)

  function Defaulted(p: CeremonyParams): (d: CeremonyParams)
    ensures d.rootValidity == if p.rootValidity == 0 then 10 * 365 * DAY else p.rootValidity
    ensures d.rootCrlValidity == if p.rootCrlValidity == 0 then 5 * 365 * DAY else p.rootCrlValidity
    ensures d.validity == if p.validity == 0 then 5 * 365 * DAY else p.validity
    ensures d == p.(rootValidity := d.rootValidity, rootCrlValidity := d.rootCrlValidity, validity := d.validity)
  {
    p.(rootValidity := OrDefault(p.rootValidity, DEFAULT_ROOT_VALIDITY),
       rootCrlValidity := OrDefault(p.rootCrlValidity, DEFAULT_ROOT_CRL_VALIDITY),
       validity := OrDefault(p.validity, DEFAULT_INTERMEDIATE_VALIDITY))
  }

  predicate TwoTiers(p: CeremonyParams) {
    && p.rootWorkspace.serial != "" && p.workspace.serial != ""
    && p.rootWorkspace.serial != p.workspace.serial
    && p.rootKeyLabel != "" && p.keyLabel != "" && p.rootKeyLabel != p.keyLabel
    && VersionedLabel(p.keyLabel) && p.urlsOk
  }

  predicate ValidCeremony(p: CeremonyParams): (valid: bool)
    ensures valid <==>
              && p.rootWorkspace.serial != "" && p.workspace.serial != "" && p.rootWorkspace.serial != p.workspace.serial
              && VersionedLabel(p.rootKeyLabel) && VersionedLabel(p.keyLabel) && p.rootKeyLabel != p.keyLabel
              && p.urlsOk && p.validity <= p.rootValidity
  {
    TwoTiers(p) && VersionedLabel(p.rootKeyLabel) && p.validity <= p.rootValidity
  }

  // A run as its log sees it; already is what was logged in before it began.
  datatype Plan = Plan(
    rootToken: TokenId,
    token: TokenId,
    rootKeyLabel: string,
    keyLabel: string,
    rootKeyExtractable: bool,
    already: set<TokenId>
  )

  // What a run may log.

  // Work inside one login: search, and ask for a pair under one label that a search just
  // found free. It logs nobody in and destroys nothing.
  ghost predicate Work(t0: seq<Call>, t1: seq<Call>, token: TokenId, name: string, extractable: bool) {
    && t0 <= t1
    && forall k :: |t0| <= k < |t1| ==> Worked(t1, |t0|, k, token, name, extractable)
  }

  ghost predicate Worked(t: seq<Call>, start: nat, k: nat, token: TokenId, name: string, extractable: bool)
    requires start <= k < |t|
  {
    && (t[k].Search? || t[k].Generate? || t[k].CrlSigned?)
    && (t[k].Generate? ==> t[k] == Generate(token, name, extractable) && k > start && t[k - 1] == Search(token, name, false))
  }

  lemma WorkThenCrl(t0: seq<Call>, t1: seq<Call>, token: TokenId, name: string, extractable: bool)
    requires Work(t0, t1, token, name, extractable)
    ensures Work(t0, t1 + [CrlSigned], token, name, extractable)
  {
    forall k | |t0| <= k < |t1| ensures Worked(t1 + [CrlSigned], |t0|, k, token, name, extractable) {
      assert Worked(t1, |t0|, k, token, name, extractable);
    }
  }

  // Work on one token between a login and a logout, or nothing at all.
  ghost predicate Section(t0: seq<Call>, t1: seq<Call>, token: TokenId, name: string, already: set<TokenId>) {
    || t1 == t0
    || (&& |t1| >= |t0| + 2 && t1[|t1| - 1] == Logout
        && t0 + [Login(token, already)] <= t1
        && Work(t0 + [Login(token, already)], t1[..|t1| - 1], token, name, false))
  }

  ghost predicate NoCrl(t0: seq<Call>, t1: seq<Call>) {
    forall k :: |t0| <= k < |t1| ==> t1[k] != CrlSigned
  }

  ghost predicate BuiltCrl(t: seq<Call>, start: nat) {
    exists k :: start <= k < |t| && t[k] == CrlSigned
  }

  // e was logged after the run began and before step k.
  ghost predicate Before(t: seq<Call>, start: nat, k: nat, e: Call) {
    exists i :: start <= i < k && i < |t| && t[i] == e
  }

  ghost predicate LoggedIn(t: seq<Call>, start: nat, k: nat, token: TokenId) {
    exists i :: start <= i < k && i < |t| && t[i].Login? && t[i].token == token
  }

  // When a key may be created: after both logins were checked, under a label just found
  // free; the intermediate's never extractable, and the root's, extractable only as asked,
  // after the search for the other tier's label from the root token found nothing.
  ghost predicate MayCreate(t: seq<Call>, start: nat, k: nat, plan: Plan)
    requires k < |t| && t[k].Generate?
  {
    && LoggedIn(t, start, k, plan.rootToken) && LoggedIn(t, start, k, plan.token)
    && Before(t, start, k, Search(t[k].token, t[k].name, false))
    && (t[k] == Generate(plan.token, plan.keyLabel, false)
        || (&& t[k] == Generate(plan.rootToken, plan.rootKeyLabel, plan.rootKeyExtractable)
            && Before(t, start, k, Search(plan.rootToken, plan.keyLabel, false))))
  }

  // What holds of the log since start: no login while another of the run stands, nothing
  // destroyed, keys created late.
  ghost predicate Disciplined(t: seq<Call>, start: nat, plan: Plan) {
    forall k :: start <= k < |t| ==>
      && (t[k].Login? ==> t[k].already <= plan.already)
      && !t[k].Destroy?
      && (t[k].Generate? ==> MayCreate(t, start, k, plan))
  }

  lemma BeforeStays(t: seq<Call>, t': seq<Call>, start: nat, k: nat, k': nat, e: Call)
    requires Before(t, start, k, e) && t <= t' && k <= k'
    ensures Before(t', start, k', e)
  {
    var i :| start <= i < k && i < |t| && t[i] == e;
    assert t'[i] == e;
  }

  lemma LoggedInStays(t: seq<Call>, t': seq<Call>, start: nat, k: nat, k': nat, token: TokenId)
    requires LoggedIn(t, start, k, token) && t <= t' && k <= k'
    ensures LoggedIn(t', start, k', token)
  {
    var i :| start <= i < k && i < |t| && t[i].Login? && t[i].token == token;
    assert t'[i] == t[i];
  }

  lemma MayCreateStays(t: seq<Call>, t': seq<Call>, start: nat, k: nat, plan: Plan)
    requires k < |t| && t[k].Generate? && t <= t' && MayCreate(t, start, k, plan)
    ensures MayCreate(t', start, k, plan)
  {
    assert t'[k] == t[k];
    LoggedInStays(t, t', start, k, k, plan.rootToken);
    LoggedInStays(t, t', start, k, k, plan.token);
    BeforeStays(t, t', start, k, k, Search(t[k].token, t[k].name, false));
    if t[k] != Generate(plan.token, plan.keyLabel, false) {
      BeforeStays(t, t', start, k, k, Search(plan.rootToken, plan.keyLabel, false));
    }
  }

  // One more call that creates no key.
  lemma DisciplinedStep(t: seq<Call>, e: Call, start: nat, plan: Plan)
    requires Disciplined(t, start, plan) && start <= |t|
    requires !e.Generate? && !e.Destroy? && (e.Login? ==> e.already <= plan.already)
    ensures Disciplined(t + [e], start, plan)
  {
    var t' := t + [e];
    forall k | start <= k < |t'| && t'[k].Generate? ensures MayCreate(t', start, k, plan) {
      MayCreateStays(t, t', start, k, plan);
    }
  }

  // Work under the right token and label, once both logins were checked.
  lemma DisciplinedWork(t0: seq<Call>, t1: seq<Call>, start: nat, plan: Plan, token: TokenId, name: string, extractable: bool)
    requires Disciplined(t0, start, plan) && start <= |t0| && Work(t0, t1, token, name, extractable)
    requires LoggedIn(t0, start, |t0|, plan.rootToken) && LoggedIn(t0, start, |t0|, plan.token)
    requires
      || (token == plan.token && name == plan.keyLabel && !extractable)
      || (&& token == plan.rootToken && name == plan.rootKeyLabel && extractable == plan.rootKeyExtractable
          && Before(t0, start, |t0|, Search(plan.rootToken, plan.keyLabel, false)))
    ensures Disciplined(t1, start, plan)
  {
    forall k | start <= k < |t1|
      ensures (t1[k].Login? ==> t1[k].already <= plan.already) && !t1[k].Destroy?
      ensures t1[k].Generate? ==> MayCreate(t1, start, k, plan)
    {
      if k < |t0| {
        assert t1[k] == t0[k];
        if t1[k].Generate? {
          MayCreateStays(t0, t1, start, k, plan);
        }
      } else if Worked(t1, |t0|, k, token, name, extractable) && t1[k].Generate? {
        LoggedInStays(t0, t1, start, |t0|, k, plan.rootToken);
        LoggedInStays(t0, t1, start, |t0|, k, plan.token);
        assert t1[k - 1] == Search(t1[k].token, t1[k].name, false);
        if !(token == plan.token && name == plan.keyLabel && !extractable) {
          BeforeStays(t0, t1, start, |t0|, k, Search(plan.rootToken, plan.keyLabel, false));
        }
      }
    }
  }

  lemma DisciplinedSection(t0: seq<Call>, t1: seq<Call>, start: nat, plan: Plan, already: set<TokenId>)
    requires Disciplined(t0, start, plan) && start <= |t0| && Section(t0, t1, plan.token, plan.keyLabel, already)
    requires already <= plan.already
    requires LoggedIn(t0, start, |t0|, plan.rootToken) && LoggedIn(t0, start, |t0|, plan.token)
    ensures t0 <= t1 && Disciplined(t1, start, plan)
  {
    if t1 != t0 {
      var inside := t0 + [Login(plan.token, already)];
      var done := t1[..|t1| - 1];
      DisciplinedStep(t0, Login(plan.token, already), start, plan);
      LoggedInStays(t0, inside, start, |t0|, |inside|, plan.rootToken);
      LoggedInStays(t0, inside, start, |t0|, |inside|, plan.token);
      DisciplinedWork(inside, done, start, plan, plan.token, plan.keyLabel, false);
      DisciplinedStep(done, Logout, start, plan);
      assert t1 == done + [Logout];
    }
  }

  // The run creates no key but the new one.
  ghost predicate OnlyNewKey(t: seq<Call>, start: nat, plan: Plan) {
    forall k :: start <= k < |t| && t[k].Generate? ==> t[k] == Generate(plan.token, plan.keyLabel, false)
  }

  ghost predicate NoKey(t0: seq<Call>, t1: seq<Call>) {
    forall k :: |t0| <= k < |t1| ==> !t1[k].Generate?
  }

  lemma SectionMakesOnlyKey(t0: seq<Call>, t1: seq<Call>, start: nat, plan: Plan, already: set<TokenId>)
    requires OnlyNewKey(t0, start, plan) && Section(t0, t1, plan.token, plan.keyLabel, already)
    ensures OnlyNewKey(t1, start, plan)
  {
    if t1 != t0 {
      var inside, done := t0 + [Login(plan.token, already)], t1[..|t1| - 1];
      forall k | start <= k < |t1| && t1[k].Generate? ensures t1[k] == Generate(plan.token, plan.keyLabel, false) {
        if k <= |t0| {
          assert inside[k] == t1[k];
        } else {
          assert Worked(done, |inside|, k, plan.token, plan.keyLabel, false);
        }
      }
    }
  }

  ghost predicate TokensExtend(tokens: map<TokenId, Objects>, tokens': map<TokenId, Objects>) {
    tokens'.Keys == tokens.Keys && forall t <- tokens :: Extends(tokens[t], tokens'[t])
  }

  // The only private object under a label is the private half of the key.
  ghost predicate HoldsKey(objects: Objects, name: string, key: PublicKey) {
    exists h <- objects :: Holding(objects, PrivateObject, name) == {h} && objects[h].point == key
  }

  // The first half of withTokenLogin.
  method Enter(a: Adapter, ws: Workspace) returns (err: Option<CeremonyError>)
    modifies a`anchor, a`authenticated, a`trace, a`failures
    ensures a.failures >= old(a.failures)
    ensures a.failures == old(a.failures) ==> (err == None <==> old(a.anchor) == None && a.Present(ws))
    ensures err == None ==>
              && old(a.anchor) == None && a.Present(ws) && a.anchor == Some(ws)
              && a.authenticated == old(a.authenticated) + {a.TokenOf(ws)}
              && a.trace == old(a.trace) + [Login(a.TokenOf(ws), old(a.authenticated))]
    ensures err.Some? ==>
              a.anchor == old(a.anchor) && a.authenticated == old(a.authenticated) && a.trace == old(a.trace)
    ensures old(a.anchor).Some? ==> err == Some(AlreadyAuthenticated)
    ensures err != Some(LogoutFailed)
  {
    if a.anchor.Some? {
      return Some(AlreadyAuthenticated);
    }
    var pin := a.Works();
    if !pin {
      return Some(PinUnavailable);
    }
    var ok := a.LoginToken(ws);
    err := if ok then None else Some(LoginFailed);
  }

  // The deferred half: log out on every path, and report a failure only when nothing else failed.
  method Leave(a: Adapter, failed: Option<CeremonyError>) returns (err: Option<CeremonyError>)
    requires a.anchor.Some? && a.Present(a.anchor.value)
    modifies a`anchor, a`authenticated, a`trace, a`failures
    ensures a.failures >= old(a.failures)
    ensures a.failures == old(a.failures) ==> err == failed
    ensures a.anchor == None && a.trace == old(a.trace) + [Logout]
    ensures a.authenticated <= old(a.authenticated)
    ensures failed.Some? ==> err == failed
    ensures failed == None ==> err == None || err == Some(LogoutFailed)
    ensures err == None ==> a.authenticated == old(a.authenticated) - {old(a.TokenOf(a.anchor.value))}
  {
    var ok := a.LogoutToken();
    err := if !ok && failed == None then Some(LogoutFailed) else failed;
  }

  // A login that is logged straight out again.
  method CheckLogin(a: Adapter, ws: Workspace) returns (err: Option<CeremonyError>)
    modifies a`anchor, a`authenticated, a`trace, a`failures
    ensures a.failures >= old(a.failures)
    ensures a.failures == old(a.failures) ==> (err == None <==> old(a.anchor) == None && a.Present(ws))
    ensures old(a.anchor) == None ==> a.anchor == None
    ensures old(a.anchor).Some? ==>
              err == Some(AlreadyAuthenticated) && a.anchor == old(a.anchor) && a.authenticated == old(a.authenticated) && a.trace == old(a.trace)
    ensures err == None ==>
              && a.Present(ws) && a.trace == old(a.trace) + [Login(a.TokenOf(ws), old(a.authenticated))] + [Logout]
              && a.authenticated <= old(a.authenticated)
    ensures err.Some? ==>
              || a.trace == old(a.trace)
              || (a.Present(ws) && a.trace == old(a.trace) + [Login(a.TokenOf(ws), old(a.authenticated))] + [Logout])
  {
    err := Enter(a, ws);
    if err == None {
      err := Leave(a, None);
    }
  }

  method KeyPairExists(a: Adapter, ws: Workspace, name: string) returns (exists_: Result<bool, CeremonyError>)
    modifies a`trace, a`failures
    ensures a.failures >= old(a.failures)
    ensures a.failures == old(a.failures) ==> (exists_.Ok? <==> a.Present(ws) && |a.Visible(ws, PrivateObject, name)| <= 1)
    ensures exists_.Ok? ==>
              && a.Present(ws) && (exists_.value <==> a.Visible(ws, PrivateObject, name) != {})
              && a.trace == old(a.trace) + [Search(a.TokenOf(ws), name, exists_.value)]
    ensures exists_.Err? ==> a.trace == old(a.trace) && exists_.error == SearchFailed
  {
    var found := a.FindKeyByLabel(ws, PrivateObject, name);
    match found {
      case Ok(_) => exists_ := Ok(true);
      case Err(KeyNotFound) => exists_ := Ok(false);
      case Err(_) => return Err(SearchFailed);
    }
    a.trace := a.trace + [Search(a.TokenOf(ws), name, exists_.value)];
  }

  // The public half under a label, read on the expected curve.
  method NewSigner(a: Adapter, ws: Workspace, name: string, curve: Curve) returns (key: Option<PublicKey>)
    modifies a`failures
    ensures a.failures >= old(a.failures)
    ensures a.failures == old(a.failures) ==> (key.Some? <==> a.Present(ws) && exists point: PublicKey ::
                                      point.Ec? && point.curve == curve && OnlyHolds(a.ObjectsOf(ws), PublicObject, name, point))
    ensures key.Some? ==>
              && a.Present(ws) && key.value.Ec? && key.value.curve == curve
              && exists h <- a.ObjectsOf(ws) ::
                   Holding(a.ObjectsOf(ws), PublicObject, name) == {h} && a.ObjectsOf(ws)[h].point == key.value
  {
    var found := a.FindKeyByLabel(ws, PublicObject, name);
    if found.Err? {
      if a.Present(ws) && a.failures == old(a.failures) {
        NotSole(a.Visible(ws, PublicObject, name));
      }
      return None;
    }
    var read := a.GetAttributes(ws, found.value);
    if read.None? {
      return None;
    }
    key := DecodePoint(curve, read.value);
  }

  // A signature by the private half under a label. One that does not verify under the
  // public half read for the signer is refused.
  method SignAs(a: Adapter, ws: Workspace, name: string, key: PublicKey) returns (ok: bool)
    modifies a`failures
    ensures a.failures >= old(a.failures)
    ensures a.failures == old(a.failures) ==> (ok <==> a.Present(ws) && exists h <- a.ObjectsOf(ws) ::
                               a.Visible(ws, PrivateObject, name) == {h} && a.ObjectsOf(ws)[h].point == key)
    ensures ok ==> a.Present(ws) && exists h <- a.ObjectsOf(ws) ::
                     a.Visible(ws, PrivateObject, name) == {h} && a.ObjectsOf(ws)[h].point == key
  {
    var found := a.FindKeyByLabel(ws, PrivateObject, name);
    if found.Err? {
      if a.Present(ws) && a.failures == old(a.failures) {
        NotSole(a.Visible(ws, PrivateObject, name));
      }
      return false;
    }
    var signer := a.Sign(ws, found.value);
    ok := signer == Some(key);
  }

  // A pair under a label just found free, and its public half read back.
  method GenerateFree(a: Adapter, ws: Workspace, name: string, curve: Curve, extractable: bool)
    returns (key: Result<PublicKey, CeremonyError>)
    requires a.Present(ws) && Holding(a.ObjectsOf(ws), PrivateObject, name) == {}
    modifies a`tokens, a`trace, a`made, a`failures
    ensures a.failures >= old(a.failures)
    ensures a.failures == old(a.failures) && old(Holding(a.ObjectsOf(ws), PublicObject, name)) == {} && old(a.TokenOf(ws) in a.authenticated) ==> key.Ok?
    ensures key.Ok? ==> old(Holding(a.ObjectsOf(ws), PublicObject, name)) == {}
    ensures TokensExtend(old(a.tokens), a.tokens) && a.Present(ws)
    ensures forall t <- a.tokens :: t != a.TokenOf(ws) ==> a.tokens[t] == old(a.tokens)[t]
    ensures a.trace == old(a.trace) || a.trace == old(a.trace) + [Generate(a.TokenOf(ws), name, extractable)]
    ensures key.Ok? ==> key.value.Ec? && key.value.curve == curve && HoldsKey(a.ObjectsOf(ws), name, key.value)
    ensures key.Err? ==> key.error != LogoutFailed
  {
    ghost var before := a.ObjectsOf(ws);
    var ok := a.GenerateKeyPair(ws, curve, name, extractable);
    if !ok {
      return Err(GenerateFailed);
    }
    PairIsFound(before, a.ObjectsOf(ws), curve, name);
    var read := NewSigner(a, ws, name, curve);
    if read.None? {
      return Err(SignerUnavailable);
    }
    assert OnlyHolds(a.ObjectsOf(ws), PublicObject, name, read.value);
    GeneratedIsHeld(before, a.ObjectsOf(ws), curve, name, read.value);
    key := Ok(read.value);
  }

  // Inside one login: refuse a taken label, generate, read the public half back.
  method GenerateInside(a: Adapter, ws: Workspace, name: string, curve: Curve, extractable: bool)
    returns (key: Result<PublicKey, CeremonyError>)
    requires a.Present(ws) && a.TokenOf(ws) in a.authenticated
    modifies a`tokens, a`trace, a`made, a`failures
    ensures a.failures >= old(a.failures)
    ensures a.failures == old(a.failures) ==> (key.Ok? <==> old(Free(a.ObjectsOf(ws), name)))
    ensures key.Ok? ==> old(Free(a.ObjectsOf(ws), name))
    ensures TokensExtend(old(a.tokens), a.tokens) && a.Present(ws)
    ensures forall t <- a.tokens :: t != a.TokenOf(ws) ==> a.tokens[t] == old(a.tokens)[t]
    ensures Work(old(a.trace), a.trace, a.TokenOf(ws), name, extractable) && NoCrl(old(a.trace), a.trace)
    ensures key.Ok? ==>
              && key.value.Ec? && key.value.curve == curve
              && old(Holding(a.ObjectsOf(ws), PrivateObject, name)) == {}
              && HoldsKey(a.ObjectsOf(ws), name, key.value)
    ensures key.Err? ==> key.error != LogoutFailed
  {
    var taken := KeyPairExists(a, ws, name);
    if taken.Err? {
      return Err(taken.error);
    }
    if taken.value {
      return Err(LabelTaken);
    }
    key := GenerateFree(a, ws, name, curve, extractable);
  }

  // The one public object under a label that was free is the generated one, so the one
  // private object is its other half.
  lemma GeneratedIsHeld(before: Objects, after: Objects, curve: Curve, name: string, key: PublicKey)
    requires AddsPair(before, after, curve, name) && Holding(before, PrivateObject, name) == {}
    requires exists h <- after :: Holding(after, PublicObject, name) == {h} && after[h].point == key
    ensures HoldsKey(after, name, key)
  {
    var pub: Handle, priv: Handle :|
      && pub !in before && priv !in before && pub != priv
      && after.Keys == before.Keys + {pub, priv} && Extends(before, after)
      && Carries(after[pub], PublicObject, name) && Carries(after[priv], PrivateObject, name)
      && after[pub].point == after[priv].point;
    assert pub in Holding(after, PublicObject, name);
    assert forall h <- before :: h !in Holding(before, PrivateObject, name);
    assert Holding(after, PrivateObject, name) == {priv};
  }

  // The same between a login and a logout.
  method GenerateCeremonyKey(a: Adapter, ws: Workspace, name: string, curve: Curve)
    returns (key: Option<PublicKey>, err: Option<CeremonyError>)
    requires a.Present(ws) && a.anchor == None
    modifies a`tokens, a`anchor, a`authenticated, a`trace, a`made, a`failures
    ensures a.failures >= old(a.failures)
    ensures a.failures == old(a.failures) ==> (err == None <==> old(Free(a.ObjectsOf(ws), name)))
    ensures TokensExtend(old(a.tokens), a.tokens) && a.Present(ws) && a.anchor == None
    ensures forall t <- a.tokens :: t != a.TokenOf(ws) ==> a.tokens[t] == old(a.tokens)[t]
    ensures Section(old(a.trace), a.trace, a.TokenOf(ws), name, old(a.authenticated)) && NoCrl(old(a.trace), a.trace)
    ensures err == None ==>
              && key.Some? && key.value.Ec? && key.value.curve == curve
              && HoldsKey(a.ObjectsOf(ws), name, key.value)
              && a.authenticated <= old(a.authenticated)
  {
    key := None;
    err := Enter(a, ws);
    if err.Some? {
      return;
    }
    ghost var inside := a.trace;
    var made := GenerateInside(a, ws, name, curve, false);
    ghost var done := a.trace;
    if made.Ok? {
      key := Some(made.value);
    }
    err := Leave(a, if made.Ok? then None else Some(made.error));
    assert a.trace[..|a.trace| - 1] == done;
  }

  // What a ceremony returns: the certificates of one root key, and that root's empty CRL.
  ghost predicate CertifiedBy(r: CeremonyResult, p: CeremonyParams, key: PublicKey, rootSerial: int, serial: int, now: Instant) {
    && r.root == RootCert(rootSerial, p.rootSubject, r.root.key, now, p.rootValidity)
    && r.intermediate == IntermediateCert(serial, p.subject, key, r.root, now, p.validity)
    && r.rootCrl.entries == [] && r.rootCrl.number == 1 && DatedAt(r.rootCrl, now, now + p.rootCrlValidity)
  }

  // A root certificate that may certify intermediates and sign CRLs while it lives.
  ghost predicate ServesAsRoot(root: Cert) {
    && CrlSign in root.keyUsage && root.subject == root.issuer
    && forall t: Instant, lasting: Span :: lasting > 0 ==>
         (CheckRootMaySign(root, lasting, t) == None <==> ValidAt(root, t) && t + lasting <= root.notAfter)
  }

  // An intermediate the service comes up on while it lives, if it has a key of its own, and
  // that validates under the root for as long.
  ghost predicate ServesUnder(root: Cert, intermediate: Cert) {
    && intermediate.notAfter <= root.notAfter
    && (forall t: Instant :: CheckIntermediateCert(intermediate, t) == None <==> intermediate.key != root.key && ValidAt(intermediate, t))
    && (forall t: Instant :: ValidPath(root, [intermediate], t) <==> ValidAt(root, t) && ValidAt(intermediate, t))
  }

  // What a ceremony returns does what it is for: each certificate from its making to the end
  // of its validity.
  ghost predicate Usable(r: CeremonyResult, p: CeremonyParams, now: Instant) {
    && ServesAsRoot(r.root) && LivesFrom(r.root, now, p.rootValidity) && r.root.subject == p.rootSubject
    && ServesUnder(r.root, r.intermediate) && LivesFrom(r.intermediate, now, p.validity) && r.intermediate.subject == p.subject
  }

  lemma ResultIsUsable(r: CeremonyResult, p: CeremonyParams, key: PublicKey, rootSerial: int, serial: int, now: Instant)
    requires CertifiedBy(r, p, key, rootSerial, serial, now) && p.validity <= p.rootValidity
    ensures Usable(r, p, now)
  {
    TruncateIsMonotone(now + p.validity, now + p.rootValidity);
    forall t: Instant, lasting: Span | lasting > 0
      ensures CheckRootMaySign(r.root, lasting, t) == None <==> ValidAt(r.root, t) && t + lasting <= r.root.notAfter
    {
      RootMaySignIff(rootSerial, p.rootSubject, r.root.key, now, p.rootValidity, lasting, t);
    }
    forall t: Instant
      ensures CheckIntermediateCert(r.intermediate, t) == None <==> key != r.root.key && ValidAt(r.intermediate, t)
      ensures ValidPath(r.root, [r.intermediate], t) <==> ValidAt(r.root, t) && ValidAt(r.intermediate, t)
    {
      IntermediateLoadsIff(serial, p.subject, key, r.root, now, p.validity, t);
      IntermediateValidatesIff(serial, p.subject, key, r.root, now, p.validity, t);
    }
    RootMaySignIff(rootSerial, p.rootSubject, r.root.key, now, p.rootValidity, 1, now);
    IntermediateLoadsIff(serial, p.subject, key, r.root, now, p.validity, now);
  }

  // Inside the root's login: the root key, both certificates and the root's first CRL.
  method SignRootAndIntermediate(a: Adapter, p: CeremonyParams, key: PublicKey, rootSerial: int, serial: int, now: Instant)
    returns (result: Result<CeremonyResult, CeremonyError>)
    requires a.Present(p.rootWorkspace) && a.TokenOf(p.rootWorkspace) in a.authenticated
    modifies a`tokens, a`trace, a`made, a`failures
    ensures a.failures >= old(a.failures)
    ensures a.failures == old(a.failures) ==>
              (result.Ok? <==> old(Free(a.ObjectsOf(p.rootWorkspace), p.rootKeyLabel)) && p.rootCrlValidity > -CLOCK_SKEW)
    ensures TokensExtend(old(a.tokens), a.tokens) && a.Present(p.rootWorkspace)
    ensures forall t <- a.tokens :: t != a.TokenOf(p.rootWorkspace) ==> a.tokens[t] == old(a.tokens)[t]
    ensures Work(old(a.trace), a.trace, a.TokenOf(p.rootWorkspace), p.rootKeyLabel, p.rootKeyExtractable)
    ensures result.Ok? <==> BuiltCrl(a.trace, |old(a.trace)|)
    ensures result.Ok? ==>
              && CertifiedBy(result.value, p, key, rootSerial, serial, now)
              && HoldsKey(a.ObjectsOf(p.rootWorkspace), p.rootKeyLabel, result.value.root.key)
    ensures result.Err? ==> result.error != LogoutFailed
  {
    var made := GenerateInside(a, p.rootWorkspace, p.rootKeyLabel, p.rootCurve, p.rootKeyExtractable);
    if made.Err? {
      return Err(made.error);
    }
    var rootKey := made.value;
    var root := RootCert(rootSerial, p.rootSubject, rootKey, now, p.rootValidity);
    var signed := SignAs(a, p.rootWorkspace, p.rootKeyLabel, rootKey);
    if !signed {
      return Err(SignatureFailed);
    }
    var intermediate := IntermediateCert(serial, p.subject, key, root, now, p.validity);
    signed := SignAs(a, p.rootWorkspace, p.rootKeyLabel, rootKey);
    if !signed {
      return Err(SignatureFailed);
    }
    signed := SignAs(a, p.rootWorkspace, p.rootKeyLabel, rootKey);
    var crl := BuildCrl([], now - CLOCK_SKEW, now + p.rootCrlValidity, 1, signed);
    if crl.Err? {
      return Err(CrlFailed(crl.error));
    }
    WorkThenCrl(old(a.trace), a.trace, a.TokenOf(p.rootWorkspace), p.rootKeyLabel, p.rootKeyExtractable);
    a.trace := a.trace + [CrlSigned];
    assert a.trace[|a.trace| - 1] == CrlSigned;
    result := Ok(CeremonyResult(root, intermediate, crl.value));
  }

  // Two checked logins are a login and a logout each, or nothing.
  lemma CheckedLogin(t0: seq<Call>, t1: seq<Call>, start: nat, plan: Plan, token: TokenId, already: set<TokenId>)
    requires Disciplined(t0, start, plan) && start <= |t0| && already <= plan.already
    requires t1 == t0 || t1 == t0 + [Login(token, already)] + [Logout]
    ensures Disciplined(t1, start, plan)
    ensures t1 != t0 ==> LoggedIn(t1, start, |t1|, token)
  {
    if t1 != t0 {
      DisciplinedStep(t0, Login(token, already), start, plan);
      DisciplinedStep(t0 + [Login(token, already)], Logout, start, plan);
      assert t1[|t0|] == Login(token, already);
    }
  }

  // A CRL was signed in the run exactly when it was signed between two of its points.
  lemma CrlIn(t: seq<Call>, t0: seq<Call>, t1: seq<Call>, t2: seq<Call>)
    requires t <= t0 <= t1 && t2 == t1 + [Logout] && NoCrl(t, t0)
    ensures BuiltCrl(t2, |t|) <==> BuiltCrl(t1, |t0|)
  {
    if BuiltCrl(t2, |t|) {
      var k :| |t| <= k < |t2| && t2[k] == CrlSigned;
      assert forall i :: 0 <= i < |t0| ==> t2[i] == t0[i];
      assert t1[k] == CrlSigned;
    }
    if BuiltCrl(t1, |t0|) {
      var k :| |t0| <= k < |t1| && t1[k] == CrlSigned;
      assert t2[k] == CrlSigned;
    }
  }

  // The tokens and labels of a run, and what is logged in as it begins.
  ghost predicate PlanOf(a: Adapter, plan: Plan, rootWorkspace: Workspace, workspace: Workspace, rootKeyLabel: string, keyLabel: string, extractable: bool)
    reads a`tokens, a`authenticated
  {
    && (a.Present(rootWorkspace) ==> plan.rootToken == a.TokenOf(rootWorkspace))
    && (a.Present(workspace) ==> plan.token == a.TokenOf(workspace))
    && plan.rootKeyLabel == rootKeyLabel && plan.keyLabel == keyLabel && plan.rootKeyExtractable == extractable
    && plan.already == a.authenticated
  }

  // What any run leaves behind, whatever failed: the adapter's flag as it was, and every
  // key that was there before.
  twostate predicate LeftTidy(a: Adapter)
    reads a
  {
    TokensExtend(old(a.tokens), a.tokens) && a.anchor == old(a.anchor) && old(a.trace) <= a.trace
  }

  // checkLogins: into each token and straight out again, before anything is created.
  method CheckLogins(a: Adapter, rootWorkspace: Workspace, workspace: Workspace, ghost plan: Plan) returns (err: Option<CeremonyError>)
    requires a.Present(rootWorkspace) ==> plan.rootToken == a.TokenOf(rootWorkspace)
    requires a.Present(workspace) ==> plan.token == a.TokenOf(workspace)
    requires plan.already == a.authenticated
    modifies a`anchor, a`authenticated, a`trace, a`failures
    ensures a.failures >= old(a.failures)
    ensures a.failures == old(a.failures) ==> (err == None <==> old(a.anchor) == None && a.Present(rootWorkspace) && a.Present(workspace))
    ensures old(a.trace) <= a.trace && Disciplined(a.trace, |old(a.trace)|, plan)
    ensures NoCrl(old(a.trace), a.trace) && NoKey(old(a.trace), a.trace)
    ensures a.anchor == old(a.anchor)
    ensures old(a.anchor).Some? ==> err == Some(AlreadyAuthenticated) && a.trace == old(a.trace)
    ensures err == None ==>
              && a.Present(rootWorkspace) && a.Present(workspace) && a.authenticated <= old(a.authenticated)
              && LoggedIn(a.trace, |old(a.trace)|, |a.trace|, plan.rootToken)
              && LoggedIn(a.trace, |old(a.trace)|, |a.trace|, plan.token)
  {
    ghost var start := |a.trace|;
    err := CheckLogin(a, rootWorkspace);
    CheckedLogin(old(a.trace), a.trace, start, plan, plan.rootToken, plan.already);
    if err.Some? {
      return;
    }
    ghost var first, already := a.trace, a.authenticated;
    err := CheckLogin(a, workspace);
    CheckedLogin(first, a.trace, start, plan, plan.token, already);
    LoggedInStays(first, a.trace, start, |first|, |a.trace|, plan.rootToken);
  }

  // Both logins checked, and the intermediate's key created between a login and a logout.
  method CreateKey(a: Adapter, rootWorkspace: Workspace, workspace: Workspace, keyLabel: string, curve: Curve, ghost plan: Plan)
    returns (key: Option<PublicKey>, err: Option<CeremonyError>)
    requires a.Present(rootWorkspace) ==> plan.rootToken == a.TokenOf(rootWorkspace)
    requires a.Present(workspace) ==> plan.token == a.TokenOf(workspace)
    requires plan.keyLabel == keyLabel && plan.already == a.authenticated
    modifies a`tokens, a`anchor, a`authenticated, a`trace, a`made, a`failures
    ensures a.failures >= old(a.failures)
    ensures a.failures == old(a.failures) ==>
              (err == None <==> old(a.anchor == None && a.Present(rootWorkspace) && a.Present(workspace) && Free(a.ObjectsOf(workspace), keyLabel)))
    ensures TokensExtend(old(a.tokens), a.tokens) && old(a.trace) <= a.trace && a.anchor == old(a.anchor)
    ensures Disciplined(a.trace, |old(a.trace)|, plan) && OnlyNewKey(a.trace, |old(a.trace)|, plan) && NoCrl(old(a.trace), a.trace)
    ensures forall t <- a.tokens :: a.Present(workspace) && t != a.TokenOf(workspace) ==> a.tokens[t] == old(a.tokens)[t]
    ensures old(a.anchor).Some? ==> err == Some(AlreadyAuthenticated) && a.tokens == old(a.tokens) && a.trace == old(a.trace)
    ensures err == None ==>
              && a.anchor == None && a.Present(rootWorkspace) && a.Present(workspace) && a.authenticated <= plan.already
              && LoggedIn(a.trace, |old(a.trace)|, |a.trace|, plan.rootToken)
              && LoggedIn(a.trace, |old(a.trace)|, |a.trace|, plan.token)
              && key.Some? && key.value.Ec? && key.value.curve == curve && HoldsKey(a.ObjectsOf(workspace), keyLabel, key.value)
  {
    key := None;
    ghost var start := |a.trace|;
    err := CheckLogins(a, rootWorkspace, workspace, plan);
    if err.Some? {
      return;
    }
    ghost var checked, already := a.trace, a.authenticated;
    key, err := GenerateCeremonyKey(a, workspace, keyLabel, curve);
    DisciplinedSection(checked, a.trace, start, plan, already);
    SectionMakesOnlyKey(checked, a.trace, start, plan, already);
    LoggedInStays(checked, a.trace, start, |checked|, |a.trace|, plan.rootToken);
    LoggedInStays(checked, a.trace, start, |checked|, |a.trace|, plan.token);
  }

  /**
  What the ceremony and the re-issue do before they work on the root: check both logins,
  create the intermediate's key, and log into the root.
  */
  method PrepareKey(a: Adapter, rootWorkspace: Workspace, workspace: Workspace, keyLabel: string, curve: Curve, ghost plan: Plan)
    returns (key: Option<PublicKey>, err: Option<CeremonyError>)
    requires a.Present(rootWorkspace) ==> plan.rootToken == a.TokenOf(rootWorkspace)
    requires a.Present(workspace) ==> plan.token == a.TokenOf(workspace)
    requires plan.keyLabel == keyLabel && plan.already == a.authenticated
    modifies a`tokens, a`anchor, a`authenticated, a`trace, a`made, a`failures
    ensures a.failures >= old(a.failures)
    ensures a.failures == old(a.failures) ==>
              (err == None <==> old(a.anchor == None && a.Present(rootWorkspace) && a.Present(workspace) && Free(a.ObjectsOf(workspace), keyLabel)))
    ensures TokensExtend(old(a.tokens), a.tokens) && old(a.trace) <= a.trace
    ensures Disciplined(a.trace, |old(a.trace)|, plan) && OnlyNewKey(a.trace, |old(a.trace)|, plan) && NoCrl(old(a.trace), a.trace)
    ensures forall t <- a.tokens :: a.Present(workspace) && t != a.TokenOf(workspace) ==> a.tokens[t] == old(a.tokens)[t]
    ensures err.Some? ==> a.anchor == old(a.anchor)
    ensures old(a.anchor).Some? ==> err == Some(AlreadyAuthenticated) && a.tokens == old(a.tokens) && a.trace == old(a.trace)
    ensures err == None ==>
              && old(a.anchor) == None && a.Present(rootWorkspace) && a.Present(workspace)
              && a.anchor == Some(rootWorkspace) && a.TokenOf(rootWorkspace) in a.authenticated
              && LoggedIn(a.trace, |old(a.trace)|, |a.trace|, plan.rootToken)
              && LoggedIn(a.trace, |old(a.trace)|, |a.trace|, plan.token)
              && key.Some? && key.value.Ec? && key.value.curve == curve && HoldsKey(a.ObjectsOf(workspace), keyLabel, key.value)
  {
    ghost var start := |a.trace|;
    key, err := CreateKey(a, rootWorkspace, workspace, keyLabel, curve, plan);
    if err.Some? {
      return;
    }
    ghost var created, already := a.trace, a.authenticated;
    err := Enter(a, rootWorkspace);
    if err == None {
      DisciplinedStep(created, Login(plan.rootToken, already), start, plan);
      LoggedInStays(created, a.trace, start, |created|, |a.trace|, plan.rootToken);
      LoggedInStays(created, a.trace, start, |created|, |a.trace|, plan.token);
    }
  }

  /**
  The ceremony, for every schedule of faults, every generator and every way the two
  workspaces may share a token. A result comes back exactly when the root's CRL was signed,
  a failed logout included; then the workspaces are two tokens, each certificate certifies
  the key its token holds under its label alone, and each serves for its whole life. When no
  call fails a result comes back exactly when the parameters are valid, no token is logged
  in, the tokens are two, and the labels are free where they must be.
  */
  method RunCeremony(a: Adapter, params: CeremonyParams, rootSerial: int, serial: int, now: Instant, ghost plan: Plan)
    returns (result: Option<CeremonyResult>, err: Option<CeremonyError>)
    requires PlanOf(a, plan, params.rootWorkspace, params.workspace, params.rootKeyLabel, params.keyLabel, params.rootKeyExtractable)
    modifies a`tokens, a`anchor, a`authenticated, a`trace, a`made, a`failures
    ensures a.failures >= old(a.failures)
    ensures a.failures == old(a.failures) ==>
              && var p := Defaulted(params);
              && (result.Some? <==> ValidCeremony(p) && p.rootCrlValidity > -CLOCK_SKEW && old(ReadyForCeremony(a, p)))
              && (result.Some? ==> err == None)
    ensures LeftTidy(a) && Disciplined(a.trace, |old(a.trace)|, plan)
    ensures old(a.anchor).Some? ==> result == None && a.tokens == old(a.tokens) && a.trace == old(a.trace)
    ensures result.Some? <==> BuiltCrl(a.trace, |old(a.trace)|)
    ensures result == None ==> err.Some?
    ensures result.Some? ==> err == None || err == Some(LogoutFailed)
    ensures result.Some? ==>
              && var p := Defaulted(params);
              && ValidCeremony(p)
              && a.Present(p.rootWorkspace) && a.Present(p.workspace) && a.TokenOf(p.rootWorkspace) != a.TokenOf(p.workspace)
              && CertifiedBy(result.value, p, result.value.intermediate.key, rootSerial, serial, now)
              && Usable(result.value, p, now)
              && HoldsKey(a.ObjectsOf(p.rootWorkspace), p.rootKeyLabel, result.value.root.key)
              && HoldsKey(a.ObjectsOf(p.workspace), p.keyLabel, result.value.intermediate.key)
  {
    result := None;
    var p := Defaulted(params);
    if !ValidCeremony(p) {
      return None, Some(InvalidParams);
    }
    var key: Option<PublicKey>;
    key, err := PrepareKey(a, p.rootWorkspace, p.workspace, p.keyLabel, p.curve, plan);
    if err.Some? {
      return;
    }
    ghost var before := a.trace;
    result, err := SignUnderCheckedRoot(a, p, key.value, rootSerial, serial, now, |old(a.trace)|, plan);
    ghost var work := a.trace;
    err := Leave(a, err);
    DisciplinedStep(work, Logout, |old(a.trace)|, plan);
    CrlIn(old(a.trace), before, work, a.trace);
    if result.Some? {
      ResultIsUsable(result.value, p, key.value, rootSerial, serial, now);
    }
  }

  // Two tokens on which a ceremony finds its labels free, the intermediate's on both.
  ghost predicate ReadyForCeremony(a: Adapter, p: CeremonyParams)
    reads a`tokens, a`anchor
  {
    && a.anchor == None && a.Present(p.rootWorkspace) && a.Present(p.workspace)
    && a.TokenOf(p.rootWorkspace) != a.TokenOf(p.workspace)
    && Free(a.ObjectsOf(p.workspace), p.keyLabel) && Free(a.ObjectsOf(p.rootWorkspace), p.rootKeyLabel)
    && Holding(a.ObjectsOf(p.rootWorkspace), PrivateObject, p.keyLabel) == {}
  }

  // What the ceremony does inside the root's login: measure the separation, then sign.
  method SignUnderCheckedRoot(a: Adapter, p: CeremonyParams, key: PublicKey, rootSerial: int, serial: int, now: Instant,
                              ghost start: nat, ghost plan: Plan)
    returns (result: Option<CeremonyResult>, err: Option<CeremonyError>)
    requires a.Present(p.rootWorkspace) && a.TokenOf(p.rootWorkspace) in a.authenticated && a.Present(p.workspace)
    requires plan == Plan(a.TokenOf(p.rootWorkspace), a.TokenOf(p.workspace), p.rootKeyLabel, p.keyLabel, p.rootKeyExtractable, plan.already)
    requires start <= |a.trace| && Disciplined(a.trace, start, plan)
    requires LoggedIn(a.trace, start, |a.trace|, plan.rootToken) && LoggedIn(a.trace, start, |a.trace|, plan.token)
    requires HoldsKey(a.ObjectsOf(p.workspace), p.keyLabel, key)
    modifies a`tokens, a`trace, a`made, a`failures
    ensures a.failures >= old(a.failures)
    ensures a.failures == old(a.failures) ==>
              (result.Some? <==>
                 && old(Holding(a.ObjectsOf(p.rootWorkspace), PrivateObject, p.keyLabel)) == {}
                 && old(Free(a.ObjectsOf(p.rootWorkspace), p.rootKeyLabel)) && p.rootCrlValidity > -CLOCK_SKEW)
    ensures TokensExtend(old(a.tokens), a.tokens) && a.Present(p.rootWorkspace) && a.Present(p.workspace)
    ensures old(a.trace) <= a.trace && Disciplined(a.trace, start, plan)
    ensures result.Some? <==> BuiltCrl(a.trace, |old(a.trace)|)
    ensures result.Some? <==> err == None
    ensures err != Some(LogoutFailed)
    ensures result.Some? ==>
              && plan.rootToken != plan.token
              && CertifiedBy(result.value, p, key, rootSerial, serial, now)
              && HoldsKey(a.ObjectsOf(p.rootWorkspace), p.rootKeyLabel, result.value.root.key)
              && HoldsKey(a.ObjectsOf(p.workspace), p.keyLabel, key)
  {
    ghost var before := a.trace;
    var seen := KeyPairExists(a, p.rootWorkspace, p.keyLabel);
    if seen.Err? {
      return None, Some(seen.error);
    }
    DisciplinedStep(before, Search(plan.rootToken, p.keyLabel, seen.value), start, plan);
    if seen.value {
      return None, Some(NotSeparate);
    }
    ghost var measured := a.trace;
    assert measured[|before|] == Search(plan.rootToken, p.keyLabel, false);
    LoggedInStays(before, measured, start, |before|, |measured|, plan.rootToken);
    LoggedInStays(before, measured, start, |before|, |measured|, plan.token);
    var signed := SignRootAndIntermediate(a, p, key, rootSerial, serial, now);
    DisciplinedWork(measured, a.trace, start, plan, plan.rootToken, p.rootKeyLabel, p.rootKeyExtractable);
    match signed {
      case Ok(r) => result, err := Some(r), None;
      case Err(e) => result, err := None, Some(e);
    }
  }
}
