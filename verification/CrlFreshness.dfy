/**
How old a CRL can be when it is served (currentCRL in internal/api/server.go), over every run
of the service: its dates are those of the reading it was built at, and no request read at or
after the end of its window is given it.
*/
module CrlFreshness {
  import opened Clock
  import opened Crl
  import opened RevocationSafety
  import opened RevocationService
  import opened RevocationSteps
  import opened Wrappers

  // crl was built at an instant and is good until end.
  predicate BuiltAt(cfg: Config, crl: Crl, built: Instant, end: Instant) {
    EndsAt(built, cfg.crlValidity, cfg.issuerNotAfter, end) && DatedAt(crl, built, end)
  }

  // A request read at now is given the CRL: built for it, or before it and still good.
  ghost predicate ServedFresh(cfg: Config, crl: Crl, now: Instant) {
    exists built, end :: BuiltAt(cfg, crl, built, end) && (now == built || built <= now < end)
  }

  ghost predicate CachedFresh(cfg: Config, s: State) {
    s.crlCache.crl.Some? ==>
      exists built :: built <= s.clock && BuiltAt(cfg, s.crlCache.crl.value, built, s.crlCache.nextUpdate)
  }

  ghost predicate FetchersRead(s: State) {
    forall t <- s.requests :: HoldsCrlMu(s.requests[t]) ==> s.requests[t].now <= s.clock
  }

  ghost predicate FreshInv(cfg: Config, s: State) {
    && CachedFresh(cfg, s) && FetchersRead(s)
    && forall e <- s.log :: e.CrlServed? ==> ServedFresh(cfg, e.crl, e.now)
  }

  lemma FetchKeepsRead(cfg: Config, s: State, a: Action)
    requires FetchersRead(s) && Enabled(cfg, s, a) && FetchAction(a)
    ensures FetchersRead(Apply(cfg, s, a))
  {
  }

  lemma OthersKeepRead(cfg: Config, s: State, a: Action)
    requires FetchersRead(s) && Enabled(cfg, s, a) && !FetchAction(a) && s.clock <= Apply(cfg, s, a).clock
    ensures FetchersRead(Apply(cfg, s, a))
  {
    var s' := Apply(cfg, s, a);
    forall t | t in s'.requests && HoldsCrlMu(s'.requests[t]) ensures s'.requests[t].now <= s'.clock {
      StepMovesOne(cfg, s, a, t);
    }
  }

  lemma BuildKeepsFresh(cfg: Config, s: State, t: nat, signs: bool)
    requires FreshInv(cfg, s) && Enabled(cfg, s, FetchBuild(t, signs))
    ensures
      var s' := Apply(cfg, s, FetchBuild(t, signs));
      CachedFresh(cfg, s') && forall e <- s'.log :: e.CrlServed? ==> ServedFresh(cfg, e.crl, e.now)
  {
    var r := s.requests[t];
    var next := NextUpdate(r.now, cfg.crlValidity, cfg.issuerNotAfter);
    var built := Build(r.listing, r.now - CLOCK_SKEW, next, r.number, signs);
    if built.Ok? {
      assert BuiltAt(cfg, built.value, r.now, next);
    }
  }

  lemma HitIsFresh(cfg: Config, s: State)
    requires CachedFresh(cfg, s) && Enabled(cfg, s, FetchHit)
    ensures ServedFresh(cfg, s.crlCache.crl.value, s.clock)
  {
    var built :| built <= s.clock && BuiltAt(cfg, s.crlCache.crl.value, built, s.crlCache.nextUpdate);
  }

  lemma OthersKeepFresh(cfg: Config, s: State, a: Action)
    requires FreshInv(cfg, s) && Enabled(cfg, s, a) && !a.FetchBuild? && s.clock <= Apply(cfg, s, a).clock
    ensures
      var s' := Apply(cfg, s, a);
      CachedFresh(cfg, s') && forall e <- s'.log :: e.CrlServed? ==> ServedFresh(cfg, e.crl, e.now)
  {
    var s' := Apply(cfg, s, a);
    if !a.Restart? && !a.DropCrl? {
      CrlFrame(cfg, s, a);
    }
    forall e | e in s'.log && e.CrlServed? ensures ServedFresh(cfg, e.crl, e.now) {
      if e !in s.log {
        NewEvent(cfg, s, a, e);
        HitIsFresh(cfg, s);
        HitServes(cfg, s, e);
      }
    }
  }

  lemma StepKeepsFresh(cfg: Config, s: State, a: Action)
    requires StoreInv(s) && FreshInv(cfg, s) && Enabled(cfg, s, a)
    ensures FreshInv(cfg, Apply(cfg, s, a))
  {
    StepGrows(cfg, s, a);
    if FetchAction(a) {
      FetchKeepsRead(cfg, s, a);
    } else {
      OthersKeepRead(cfg, s, a);
    }
    if a.FetchBuild? {
      BuildKeepsFresh(cfg, s, a.t, a.signs);
    } else {
      OthersKeepFresh(cfg, s, a);
    }
  }

  lemma {:induction false} RunKeepsFresh(cfg: Config, s: State, run: seq<Action>)
    requires ValidConfig(cfg) && Inv(cfg, s) && FreshInv(cfg, s) && Executes(cfg, s, run)
    ensures FreshInv(cfg, After(cfg, s, run))
    decreases run
  {
    if run == [] {
    } else {
      StepKeepsInv(cfg, s, run[0]);
      StepKeepsFresh(cfg, s, run[0]);
      RunKeepsFresh(cfg, Apply(cfg, s, run[0]), run[1..]);
    }
  }

  /**
  Every CRL served was built at some reading: it is dated back from there by the skew and
  ends with the configured validity or with the issuer, in whole seconds. The request it is
  served to was read at that instant or after it, and before the CRL's end.
  */
  lemma CrlsAreFresh(cfg: Config, s0: State, run: seq<Action>, e: Event)
    requires ValidConfig(cfg) && Init(s0) && Executes(cfg, s0, run)
    requires e in After(cfg, s0, run).log && e.CrlServed?
    ensures
      exists built: Instant, end: Instant ::
        && EndsAt(built, cfg.crlValidity, cfg.issuerNotAfter, end) && DatedAt(e.crl, built, end)
        && built <= e.now && (cfg.crlValidity > 0 ==> e.now < built + cfg.crlValidity)
        && (e.now == built || e.now < end)
  {
    InitEstablishesInv(cfg, s0);
    RunKeepsFresh(cfg, s0, run);
    var built, end :| BuiltAt(cfg, e.crl, built, end) && (e.now == built || built <= e.now < end);
    assert EndsAt(built, cfg.crlValidity, cfg.issuerNotAfter, end) && DatedAt(e.crl, built, end);
  }
}
