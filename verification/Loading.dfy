/**
Bringing the service up on an existing intermediate (internal/ca/intermediate.go): it
creates nothing, and serves only a certificate that belongs to the tier and to the key the
token holds.
*/
module Loading {
  import opened Certificate
  import opened Ceremony
  import opened Clock
  import opened Token
  import opened Wrappers

  datatype LoadError = NoDistribution | PinUnresolved | NotLoggedIn | CertUnreadable | Rejected(error: CaError) | NoSigner | Mismatch

  /**
  The distribution points are checked before the token is touched, and a token already
  logged in is used as it is. What is loaded passed the tier's checks at that instant, and
  its key is the one public key under the label; when no call fails, nothing else is refused.
  */
  method LoadIntermediate(a: Adapter, ws: Workspace, keyLabel: string, curve: Curve, distributionOk: bool, file: Option<Cert>, now: Instant)
    returns (loaded: Result<Cert, LoadError>)
    modifies a`anchor, a`authenticated, a`trace, a`failures
    ensures a.failures >= old(a.failures)
    ensures a.failures == old(a.failures) ==>
              (loaded.Ok? <==>
                 && distributionOk && file.Some? && CheckIntermediateCert(file.value, now) == None
                 && a.Present(ws) && file.value.key.Ec? && file.value.key.curve == curve
                 && OnlyHolds(a.ObjectsOf(ws), PublicObject, keyLabel, file.value.key))
    ensures !distributionOk ==> loaded == Err(NoDistribution) && a.anchor == old(a.anchor) && a.trace == old(a.trace)
    ensures old(a.anchor).Some? ==> a.anchor == old(a.anchor) && a.trace == old(a.trace)
    ensures loaded.Ok? ==>
              && file == Some(loaded.value) && CheckIntermediateCert(loaded.value, now) == None
              && a.anchor.Some? && a.Present(ws) && loaded.value.key.Ec? && loaded.value.key.curve == curve
              && exists h <- a.ObjectsOf(ws) ::
                   Holding(a.ObjectsOf(ws), PublicObject, keyLabel) == {h} && a.ObjectsOf(ws)[h].point == loaded.value.key
    ensures file.Some? && CheckIntermediateCert(file.value, now).Some? ==> loaded.Err?
  {
    if !distributionOk {
      return Err(NoDistribution);
    }
    if a.anchor.None? {
      var pin := a.Works();
      if !pin {
        return Err(PinUnresolved);
      }
      var ok := a.LoginToken(ws);
      if !ok {
        return Err(NotLoggedIn);
      }
    }
    if file.None? {
      return Err(CertUnreadable);
    }
    var rejected := CheckIntermediateCert(file.value, now);
    if rejected.Some? {
      return Err(Rejected(rejected.value));
    }
    var key := NewSigner(a, ws, keyLabel, curve);
    if key.None? {
      return Err(NoSigner);
    }
    if key.value != file.value.key {
      return Err(Mismatch);
    }
    loaded := Ok(file.value);
  }
}
