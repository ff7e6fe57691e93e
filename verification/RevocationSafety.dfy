/**
What every run of the revocation service keeps. Two caches and any number of requests in
flight answer for one thing, the store's status map; the invariants here say how far each
of them may lag behind it, and the theorems read the answers off the log.
*/
module RevocationSafety {
  import opened Clock
  import opened Crl
  import opened Ocsp
  import opened RevocationService
  import opened RevocationSteps
  import opened Store
  import opened Wrappers

  // Growth: what no action takes back.

  // The last instant at which the serial can have been looked up unrevoked.
  function Deadline(s: State, serial: int): Instant {
    if serial in s.committed then s.committed[serial] else s.clock
  }

  ghost predicate StoreInv(s: State) {
    && Keyed(s.store)
    && (forall serial :: IsRevoked(s.store, serial) <==> serial in s.committed)
    && (forall serial <- s.committed :: s.committed[serial] <= s.clock)
  }

  ghost predicate Grows(s: State, s': State) {
    && s.clock <= s'.clock && s.nextRequest <= s'.nextRequest && s.nextCert <= s'.nextCert
    && (forall serial <- s.store :: serial in s'.store)
    && (forall serial :: IsRevoked(s.store, serial) ==> IsRevoked(s'.store, serial) && s'.store[serial] == s.store[serial])
    && (forall serial :: Deadline(s, serial) <= Deadline(s', serial))
    && (forall serial <- s.committed :: serial in s'.committed && s'.committed[serial] == s.committed[serial])
    && s.log <= s'.log
  }

  predicate TouchesStore(a: Action) {
    a.Tick? || a.Issue? || a.Revoke? || a.RecordResponder?
  }

  lemma StoreFrame(cfg: Config, s: State, a: Action)
    requires Enabled(cfg, s, a) && !TouchesStore(a)
    ensures
      var s' := Apply(cfg, s, a);
      s'.store == s.store && s'.committed == s.committed && s'.clock == s.clock
  {
  }

  lemma RecordingGrows(s: State, s': State, rec: CertRecord)
    requires StoreInv(s) && rec.status == Valid
    requires s'.store == AfterRecord(s.store, rec) && s'.committed == s.committed && s'.clock == s.clock
    requires s.nextRequest <= s'.nextRequest && s.nextCert <= s'.nextCert && s.log <= s'.log
    ensures StoreInv(s') && Grows(s, s')
  {
  }

  lemma RevokingGrows(s: State, serial: int, reason: int, at: Instant)
    requires StoreInv(s)
    ensures StoreInv(AfterRevokeAction(s, serial, reason, at)) && Grows(s, AfterRevokeAction(s, serial, reason, at))
  {
  }

  lemma TickGrows(cfg: Config, s: State, span: nat)
    requires StoreInv(s)
    ensures StoreInv(Apply(cfg, s, Tick(span))) && Grows(s, Apply(cfg, s, Tick(span)))
  {
  }

  lemma SameStoreGrows(s: State, s': State)
    requires StoreInv(s) && s'.store == s.store && s'.committed == s.committed && s'.clock == s.clock
    requires s.nextRequest <= s'.nextRequest && s.nextCert <= s'.nextCert && s.log <= s'.log
    ensures StoreInv(s') && Grows(s, s')
  {
  }

  lemma RecordingResponder(cfg: Config, s: State, t: nat)
    requires StoreInv(s) && Enabled(cfg, s, RecordResponder(t))
    ensures StoreInv(Apply(cfg, s, RecordResponder(t))) && Grows(s, Apply(cfg, s, RecordResponder(t)))
  {
    var cert := s.requests[t].cert;
    RecordingGrows(s, Apply(cfg, s, RecordResponder(t)), CertRecord(cert.serial, "", cert.notAfter, Valid, ZERO_INSTANT, 0));
  }

  lemma StepGrows(cfg: Config, s: State, a: Action)
    requires StoreInv(s) && Enabled(cfg, s, a)
    ensures StoreInv(Apply(cfg, s, a)) && Grows(s, Apply(cfg, s, a))
  {
    var s' := Apply(cfg, s, a);
    LogGrows(cfg, s, a);
    NamesFrame(cfg, s, a);
    match a {
      case Tick(span) => TickGrows(cfg, s, span);
      case Issue(rec) => RecordingGrows(s, s', rec);
      case Revoke(serial, reason, at) => RevokingGrows(s, serial, reason, at);
      case RecordResponder(t) => RecordingResponder(cfg, s, t);
      case _ =>
        StoreFrame(cfg, s, a);
        SameStoreGrows(s, s');
    }
  }

  // The lock: one request at a time is between the probe and the write of the CRL cache.

  ghost predicate LockInv(s: State) {
    && (forall t <- s.requests :: t < s.nextRequest)
    && (s.crlMu.Some? ==> s.crlMu.value in s.requests)
    && (forall t <- s.requests :: HoldsCrlMu(s.requests[t]) <==> s.crlMu == Some(t))
  }

  // A step that moves request x keeps the lock when x holds it afterwards if it did before.
  lemma LockStays(s: State, a: Action, s': State)
    requires LockInv(s) && s'.crlMu == s.crlMu && s.nextRequest <= s'.nextRequest && !a.Restart?
    requires forall t: nat :: MovesOne(s, a, s', t)
    requires
      var x := Subject(s, a);
      (x in s.requests && HoldsCrlMu(s.requests[x])) <==> (x in s'.requests && HoldsCrlMu(s'.requests[x]))
    ensures LockInv(s')
  {
    var x := Subject(s, a);
    forall t | t in s'.requests
      ensures t < s'.nextRequest
      ensures HoldsCrlMu(s'.requests[t]) <==> s'.crlMu == Some(t)
    {
      assert MovesOne(s, a, s', t);
      assert t in s.requests ==> (HoldsCrlMu(s.requests[t]) <==> s.crlMu == Some(t));
      assert s.crlMu.Some? ==> s.crlMu.value in s.requests;
    }
    if s.crlMu.Some? {
      assert MovesOne(s, a, s', s.crlMu.value);
    }
  }

  predicate LocksOrFrees(a: Action) {
    a.Restart? || a.FetchMiss? || a.FetchBuild? || a.Fail?
  }

  lemma SubjectHoldsTheSame(cfg: Config, s: State, a: Action)
    requires LockInv(s) && Enabled(cfg, s, a) && !LocksOrFrees(a)
    ensures
      var x, s' := Subject(s, a), Apply(cfg, s, a);
      (x in s.requests && HoldsCrlMu(s.requests[x])) <==> (x in s'.requests && HoldsCrlMu(s'.requests[x]))
  {
    StepMovesOne(cfg, s, a, Subject(s, a));
  }

  lemma MissKeepsLock(cfg: Config, s: State)
    requires LockInv(s) && Enabled(cfg, s, FetchMiss)
    ensures LockInv(Apply(cfg, s, FetchMiss))
  {
  }

  lemma EndKeepsLock(cfg: Config, s: State, a: Action)
    requires LockInv(s) && Enabled(cfg, s, a) && (a.FetchBuild? || a.Fail?)
    ensures LockInv(Apply(cfg, s, a))
  {
  }

  lemma StepKeepsLock(cfg: Config, s: State, a: Action)
    requires LockInv(s) && Enabled(cfg, s, a)
    ensures LockInv(Apply(cfg, s, a))
  {
    match a {
      case Restart =>
      case FetchMiss => MissKeepsLock(cfg, s);
      case FetchBuild(_, _) => EndKeepsLock(cfg, s, a);
      case Fail(_) => EndKeepsLock(cfg, s, a);
      case _ => OthersKeepLock(cfg, s, a);
    }
  }

  lemma OthersKeepLock(cfg: Config, s: State, a: Action)
    requires LockInv(s) && Enabled(cfg, s, a) && !LocksOrFrees(a)
    ensures LockInv(Apply(cfg, s, a))
  {
    var s' := Apply(cfg, s, a);
    LockFrame(cfg, s, a);
    NamesFrame(cfg, s, a);
    SubjectHoldsTheSame(cfg, s, a);
    forall t: nat ensures MovesOne(s, a, s', t) {
      StepMovesOne(cfg, s, a, t);
    }
    LockStays(s, a, s');
  }

  // The CRL side: once a revocation has dropped the cache, nothing that misses it can be
  // cached or be on its way into the cache.

  ghost predicate CrlClean(s: State, serial: int) {
    && IsRevoked(s.store, serial)
    && (s.crlCache.crl.Some? ==> Lists(s.crlCache.crl.value, s.store[serial]))
    && (forall t <- s.requests :: s.requests[t].Fetched? || s.requests[t].Numbered? ==>
          s.store[serial] in s.requests[t].listing)
  }

  ghost predicate RevokersInv(s: State) {
    && (forall t <- s.requests :: s.requests[t].Revoking? ==> IsRevoked(s.store, s.requests[t].serial))
    && (forall t <- s.requests :: s.requests[t].CrlDropped? ==> CrlClean(s, s.requests[t].serial))
  }

  ghost predicate ReturnedInv(s: State) {
    forall e <- s.log :: e.RevocationReturned? ==> CrlClean(s, e.serial)
  }

  // Every CRL served after a revocation returned lists it, with its first time and reason.
  ghost predicate ServedAfterReturnInv(s: State) {
    forall i, k :: 0 <= i < k < |s.log| && s.log[i].RevocationReturned? && s.log[k].CrlServed? ==>
      s.log[i].serial in s.store && Lists(s.log[k].crl, s.store[s.log[i].serial])
  }

  ghost predicate CrlInv(s: State) {
    RevokersInv(s) && ReturnedInv(s) && ServedAfterReturnInv(s)
  }

  lemma BuildKeepsClean(cfg: Config, s: State, t: nat, signs: bool, serial: int)
    requires LockInv(s) && CrlClean(s, serial) && Enabled(cfg, s, FetchBuild(t, signs))
    ensures CrlClean(Apply(cfg, s, FetchBuild(t, signs)), serial)
  {
    var i :| 0 <= i < |s.requests[t].listing| && s.requests[t].listing[i] == s.store[serial];
    assert EntriesOf(s.requests[t].listing)[i] == EntryOf(s.store[serial]);
  }

  lemma FetchKeepsClean(cfg: Config, s: State, a: Action, serial: int)
    requires Keyed(s.store) && CrlClean(s, serial) && Enabled(cfg, s, a) && (a.FetchRead? || a.FetchNumber?)
    ensures CrlClean(Apply(cfg, s, a), serial)
  {
  }

  lemma DropKeepsClean(cfg: Config, s: State, a: Action, serial: int)
    requires CrlClean(s, serial) && Enabled(cfg, s, a) && (a.Restart? || a.DropCrl?)
    ensures CrlClean(Apply(cfg, s, a), serial)
  {
  }

  predicate FillsCrl(a: Action) {
    a.Restart? || a.DropCrl? || a.FetchRead? || a.FetchNumber? || a.FetchBuild?
  }

  lemma OthersKeepClean(cfg: Config, s: State, a: Action, serial: int)
    requires StoreInv(s) && CrlClean(s, serial) && Enabled(cfg, s, a) && !FillsCrl(a)
    ensures CrlClean(Apply(cfg, s, a), serial)
  {
    var s' := Apply(cfg, s, a);
    StepGrows(cfg, s, a);
    CrlFrame(cfg, s, a);
    forall t | t in s'.requests && (s'.requests[t].Fetched? || s'.requests[t].Numbered?)
      ensures s'.store[serial] in s'.requests[t].listing
    {
      StepMovesOne(cfg, s, a, t);
    }
  }

  lemma StepKeepsCrlClean(cfg: Config, s: State, a: Action, serial: int)
    requires StoreInv(s) && LockInv(s) && CrlClean(s, serial) && Enabled(cfg, s, a)
    ensures CrlClean(Apply(cfg, s, a), serial)
  {
    match a {
      case FetchBuild(t, signs) => BuildKeepsClean(cfg, s, t, signs, serial);
      case FetchRead(_, _) => FetchKeepsClean(cfg, s, a, serial);
      case FetchNumber(_) => FetchKeepsClean(cfg, s, a, serial);
      case Restart => DropKeepsClean(cfg, s, a, serial);
      case DropCrl(_) => DropKeepsClean(cfg, s, a, serial);
      case _ => OthersKeepClean(cfg, s, a, serial);
    }
  }

  lemma DropCleans(cfg: Config, s: State, t: nat)
    requires LockInv(s) && CrlInv(s) && Enabled(cfg, s, DropCrl(t))
    ensures CrlClean(Apply(cfg, s, DropCrl(t)), s.requests[t].serial)
  {
  }

  lemma BuildServes(cfg: Config, s: State, t: nat, signs: bool, k: nat)
    requires Enabled(cfg, s, FetchBuild(t, signs))
    requires |s.log| <= k < |Apply(cfg, s, FetchBuild(t, signs)).log| && Apply(cfg, s, FetchBuild(t, signs)).log[k].CrlServed?
    ensures Apply(cfg, s, FetchBuild(t, signs)).crlCache.crl == Some(Apply(cfg, s, FetchBuild(t, signs)).log[k].crl)
  {
  }

  // A CRL served is the one then cached.
  lemma ServedIsCached(cfg: Config, s: State, a: Action, k: nat)
    requires Enabled(cfg, s, a) && |s.log| <= k < |Apply(cfg, s, a).log| && Apply(cfg, s, a).log[k].CrlServed?
    ensures Apply(cfg, s, a).crlCache.crl == Some(Apply(cfg, s, a).log[k].crl)
  {
    LogGrows(cfg, s, a);
    if a.FetchBuild? {
      BuildServes(cfg, s, a.t, a.signs, k);
    }
  }

  // A request past its revocation's commit was there before the step, or the step is the
  // one that brings it there.
  lemma RevokerComesFrom(cfg: Config, s: State, a: Action, t: nat)
    requires LockInv(s) && Enabled(cfg, s, a) && t in Apply(cfg, s, a).requests
    ensures
      var r := Apply(cfg, s, a).requests[t];
      && (r.CrlDropped? ==> a == DropCrl(t) || (t in s.requests && s.requests[t] == r))
      && (r.Revoking? ==> (t in s.requests && s.requests[t] == r)
                          || (a.Revoke? && a.serial == r.serial && RevokeError(s.store, a.serial, a.reason).None?))
  {
    StepMovesOne(cfg, s, a, t);
  }

  lemma RevokedByRevoke(s: State, serial: int, reason: int, at: Instant)
    requires RevokeError(s.store, serial, reason).None?
    ensures IsRevoked(AfterRevokeAction(s, serial, reason, at).store, serial)
  {
  }

  lemma StepKeepsRevokers(cfg: Config, s: State, a: Action)
    requires StoreInv(s) && LockInv(s) && CrlInv(s) && Enabled(cfg, s, a)
    ensures RevokersInv(Apply(cfg, s, a))
  {
    var s' := Apply(cfg, s, a);
    StepGrows(cfg, s, a);
    forall t | t in s'.requests && s'.requests[t].CrlDropped? ensures CrlClean(s', s'.requests[t].serial) {
      RevokerComesFrom(cfg, s, a, t);
      if a == DropCrl(t) {
        DropCleans(cfg, s, t);
      } else {
        StepKeepsCrlClean(cfg, s, a, s.requests[t].serial);
      }
    }
    forall t | t in s'.requests && s'.requests[t].Revoking? ensures IsRevoked(s'.store, s'.requests[t].serial) {
      RevokerComesFrom(cfg, s, a, t);
      if a.Revoke? && RevokeError(s.store, a.serial, a.reason).None? {
        RevokedByRevoke(s, a.serial, a.reason, a.at);
      }
    }
  }

  lemma StepKeepsReturned(cfg: Config, s: State, a: Action)
    requires StoreInv(s) && LockInv(s) && CrlInv(s) && Enabled(cfg, s, a)
    ensures ReturnedInv(Apply(cfg, s, a))
  {
    var s' := Apply(cfg, s, a);
    forall e | e in s'.log && e.RevocationReturned? ensures CrlClean(s', e.serial) {
      if e in s.log {
        StepKeepsCrlClean(cfg, s, a, e.serial);
      } else {
        assert a.DropOcsp? && e.serial == s.requests[a.t].serial;
        StepKeepsCrlClean(cfg, s, a, e.serial);
      }
    }
  }

  lemma StepKeepsServedAfterReturn(cfg: Config, s: State, a: Action)
    requires StoreInv(s) && LockInv(s) && CrlInv(s) && Enabled(cfg, s, a)
    ensures ServedAfterReturnInv(Apply(cfg, s, a))
  {
    var s' := Apply(cfg, s, a);
    StepGrows(cfg, s, a);
    StepKeepsReturned(cfg, s, a);
    forall i, k | 0 <= i < k < |s'.log| && s'.log[i].RevocationReturned? && s'.log[k].CrlServed?
      ensures s'.log[i].serial in s'.store && Lists(s'.log[k].crl, s'.store[s'.log[i].serial])
    {
      if k < |s.log| {
        assert s.log[i] in s.log && s'.log[i] == s.log[i] && s'.log[k] == s.log[k];
      } else {
        ServedIsCached(cfg, s, a, k);
        assert s'.log[i] in s'.log;
      }
    }
  }

  lemma StepKeepsCrl(cfg: Config, s: State, a: Action)
    requires StoreInv(s) && LockInv(s) && CrlInv(s) && Enabled(cfg, s, a)
    ensures CrlInv(Apply(cfg, s, a))
  {
    StepKeepsRevokers(cfg, s, a);
    StepKeepsReturned(cfg, s, a);
    StepKeepsServedAfterReturn(cfg, s, a);
  }

  // Windows and order of the CRLs signed.

  ghost predicate WindowInv(cfg: Config, s: State) {
    && (s.crlCache.crl.Some? ==> GoodWindow(s.crlCache.crl.value, cfg.issuerNotAfter))
    && (forall e <- s.log :: e.CrlBuilt? || e.CrlServed? ==> GoodWindow(e.crl, cfg.issuerNotAfter))
  }

  lemma BuildKeepsWindow(cfg: Config, s: State, t: nat, signs: bool)
    requires ValidConfig(cfg) && WindowInv(cfg, s) && Enabled(cfg, s, FetchBuild(t, signs))
    ensures WindowInv(cfg, Apply(cfg, s, FetchBuild(t, signs)))
  {
    var r := s.requests[t];
    BuiltWindowIsGood(r.listing, r.now, cfg.crlValidity, cfg.issuerNotAfter, r.number, signs);
  }

  lemma DropKeepsWindow(cfg: Config, s: State, a: Action)
    requires WindowInv(cfg, s) && Enabled(cfg, s, a) && (a.Restart? || a.DropCrl?)
    ensures WindowInv(cfg, Apply(cfg, s, a))
  {
    LogFrame(cfg, s, a);
  }

  lemma OthersKeepWindow(cfg: Config, s: State, a: Action)
    requires WindowInv(cfg, s) && Enabled(cfg, s, a) && !a.Restart? && !a.DropCrl? && !a.FetchBuild?
    ensures WindowInv(cfg, Apply(cfg, s, a))
  {
    var s' := Apply(cfg, s, a);
    CrlFrame(cfg, s, a);
    forall e | e in s'.log && (e.CrlBuilt? || e.CrlServed?) ensures GoodWindow(e.crl, cfg.issuerNotAfter) {
      if e !in s.log {
        NewEvent(cfg, s, a, e);
        HitServes(cfg, s, e);
      }
    }
  }

  lemma HitServes(cfg: Config, s: State, e: Event)
    requires Enabled(cfg, s, FetchHit) && e in Apply(cfg, s, FetchHit).log && e !in s.log
    ensures e.CrlServed? && s.crlCache.crl == Some(e.crl) && e.now == s.clock
  {
  }

  lemma StepKeepsWindow(cfg: Config, s: State, a: Action)
    requires ValidConfig(cfg) && WindowInv(cfg, s) && Enabled(cfg, s, a)
    ensures WindowInv(cfg, Apply(cfg, s, a))
  {
    match a {
      case FetchBuild(t, signs) => BuildKeepsWindow(cfg, s, t, signs);
      case Restart => DropKeepsWindow(cfg, s, a);
      case DropCrl(_) => DropKeepsWindow(cfg, s, a);
      case _ => OthersKeepWindow(cfg, s, a);
    }
  }

  ghost predicate Revokes(s: State, entry: Entry) {
    IsRevoked(s.store, entry.serial) && entry == EntryOf(s.store[entry.serial])
  }

  ghost predicate OnlyRevoked(s: State, crl: Crl) {
    forall entry <- crl.entries :: Revokes(s, entry)
  }

  ghost predicate Covers(listing: seq<CertRecord>, crl: Crl) {
    forall entry <- crl.entries :: exists rec <- listing :: EntryOf(rec) == entry
  }

  ghost predicate CurrentListing(s: State, listing: seq<CertRecord>) {
    forall rec <- listing :: IsRevoked(s.store, rec.serial) && s.store[rec.serial] == rec
  }

  ghost predicate ListingOk(s: State, listing: seq<CertRecord>) {
    CurrentListing(s, listing) && (forall e <- s.log :: e.CrlBuilt? ==> Covers(listing, e.crl))
  }

  ghost predicate NumberedOk(s: State, number: int) {
    s.counter == Some(number) && forall e <- s.log :: e.CrlBuilt? ==> e.crl.number < number
  }

  ghost predicate BuiltInv(s: State) {
    && (forall e <- s.log :: e.CrlBuilt? ==>
          s.counter.Some? && e.crl.number <= s.counter.value && OnlyRevoked(s, e.crl))
    && (forall t <- s.requests :: s.requests[t].Fetched? || s.requests[t].Numbered? ==>
          ListingOk(s, s.requests[t].listing))
    && (forall t <- s.requests :: s.requests[t].Numbered? ==> NumberedOk(s, s.requests[t].number))
  }

  // A later CRL has a higher number and keeps every entry of an earlier one.
  ghost predicate BuildOrderInv(s: State) {
    forall i, k :: 0 <= i < k < |s.log| && s.log[i].CrlBuilt? && s.log[k].CrlBuilt? ==>
      && s.log[i].crl.number < s.log[k].crl.number
      && (forall entry <- s.log[i].crl.entries :: entry in s.log[k].crl.entries)
  }

  lemma FullListingCovers(s: State, listing: seq<CertRecord>, crl: Crl)
    requires IsListing(listing, s.store) && OnlyRevoked(s, crl)
    ensures Covers(listing, crl)
  {
    forall entry | entry in crl.entries ensures exists rec <- listing :: EntryOf(rec) == entry {
      assert s.store[entry.serial] in listing;
    }
  }

  lemma CoveredEntriesStay(listing: seq<CertRecord>, crl: Crl)
    requires Covers(listing, crl)
    ensures forall entry <- crl.entries :: entry in EntriesOf(listing)
  {
    forall entry | entry in crl.entries ensures entry in EntriesOf(listing) {
      var i :| 0 <= i < |listing| && EntryOf(listing[i]) == entry;
      assert EntriesOf(listing)[i] == entry;
    }
  }

  lemma OnlyRevokedStays(s: State, s': State, crl: Crl)
    requires Grows(s, s') && OnlyRevoked(s, crl)
    ensures OnlyRevoked(s', crl)
  {
    forall entry <- crl.entries ensures Revokes(s', entry) {
      assert Revokes(s, entry);
    }
  }

  lemma CurrentListingIsRevoked(s: State, listing: seq<CertRecord>, crl: Crl)
    requires CurrentListing(s, listing) && crl.entries == EntriesOf(listing)
    ensures OnlyRevoked(s, crl)
  {
    forall entry <- crl.entries ensures Revokes(s, entry) {
      var i :| 0 <= i < |listing| && EntriesOf(listing)[i] == entry;
      assert listing[i] in listing;
    }
  }

  lemma CounterGrows(cfg: Config, s: State, a: Action)
    requires Enabled(cfg, s, a) && s.counter.Some?
    ensures Apply(cfg, s, a).counter.Some? && s.counter.value <= Apply(cfg, s, a).counter.value
  {
    if !a.FetchNumber? {
      CounterFrame(cfg, s, a);
    }
  }

  // What a build logs: the request's number and listing, with the counter left alone.
  lemma BuildLogs(cfg: Config, s: State, t: nat, signs: bool, e: Event)
    requires Enabled(cfg, s, FetchBuild(t, signs)) && e in Apply(cfg, s, FetchBuild(t, signs)).log && e !in s.log && e.CrlBuilt?
    ensures e.crl.number == s.requests[t].number && e.crl.entries == EntriesOf(s.requests[t].listing)
    ensures Apply(cfg, s, FetchBuild(t, signs)).counter == s.counter && Apply(cfg, s, FetchBuild(t, signs)).store == s.store
  {
  }

  lemma StepKeepsBuiltLog(cfg: Config, s: State, a: Action)
    requires StoreInv(s) && LockInv(s) && BuiltInv(s) && Enabled(cfg, s, a)
    ensures
      var s' := Apply(cfg, s, a);
      forall e <- s'.log :: e.CrlBuilt? ==>
        s'.counter.Some? && e.crl.number <= s'.counter.value && OnlyRevoked(s', e.crl)
  {
    var s' := Apply(cfg, s, a);
    StepGrows(cfg, s, a);
    forall e | e in s'.log && e.CrlBuilt?
      ensures s'.counter.Some? && e.crl.number <= s'.counter.value && OnlyRevoked(s', e.crl)
    {
      if e in s.log {
        CounterGrows(cfg, s, a);
        OnlyRevokedStays(s, s', e.crl);
      } else {
        NewEvent(cfg, s, a, e);
        BuildLogs(cfg, s, a.t, a.signs, e);
        CurrentListingIsRevoked(s, s.requests[a.t].listing, e.crl);
        OnlyRevokedStays(s, s', e.crl);
      }
    }
  }

  lemma OnlyBuildingLogsBuilt(cfg: Config, s: State, a: Action)
    requires Enabled(cfg, s, a) && !a.FetchBuild?
    ensures forall e <- Apply(cfg, s, a).log :: e.CrlBuilt? ==> e in s.log
  {
    forall e | e in Apply(cfg, s, a).log && e.CrlBuilt? ensures e in s.log {
      if e !in s.log {
        NewEvent(cfg, s, a, e);
      }
    }
  }

  lemma ListingStaysOk(cfg: Config, s: State, a: Action, listing: seq<CertRecord>)
    requires StoreInv(s) && Enabled(cfg, s, a) && !a.FetchBuild? && ListingOk(s, listing)
    ensures ListingOk(Apply(cfg, s, a), listing)
  {
    StepGrows(cfg, s, a);
    OnlyBuildingLogsBuilt(cfg, s, a);
  }

  lemma ReadListingIsOk(s: State, listing: seq<CertRecord>)
    requires BuiltInv(s) && IsListing(listing, s.store)
    ensures ListingOk(s, listing)
  {
    forall e | e in s.log && e.CrlBuilt? ensures Covers(listing, e.crl) {
      FullListingCovers(s, listing, e.crl);
    }
  }

  lemma BuildEnds(cfg: Config, s: State, t: nat, signs: bool)
    requires Enabled(cfg, s, FetchBuild(t, signs))
    ensures t !in Apply(cfg, s, FetchBuild(t, signs)).requests
  {
  }

  lemma NumberKeepsListing(cfg: Config, s: State, t: nat)
    requires Enabled(cfg, s, FetchNumber(t))
    ensures t in Apply(cfg, s, FetchNumber(t)).requests && Apply(cfg, s, FetchNumber(t)).requests[t].Numbered?
    ensures Apply(cfg, s, FetchNumber(t)).requests[t].listing == s.requests[t].listing
  {
  }

  // A request that holds a listing after a step held it before, or has just read it.
  lemma ListingComesFrom(cfg: Config, s: State, a: Action, t: nat)
    requires LockInv(s) && Enabled(cfg, s, a) && t in Apply(cfg, s, a).requests
    requires Apply(cfg, s, a).requests[t].Fetched? || Apply(cfg, s, a).requests[t].Numbered?
    ensures
      var listing := Apply(cfg, s, a).requests[t].listing;
      && !a.FetchBuild?
      && (a == FetchRead(t, listing)
          || (t in s.requests && (s.requests[t].Fetched? || s.requests[t].Numbered?) && s.requests[t].listing == listing))
  {
    StepMovesOne(cfg, s, a, t);
    if a.FetchBuild? {
      assert s.crlMu == Some(a.t);
      BuildEnds(cfg, s, a.t, a.signs);
    } else if a == FetchNumber(t) {
      NumberKeepsListing(cfg, s, t);
    }
  }

  lemma StepKeepsListings(cfg: Config, s: State, a: Action)
    requires StoreInv(s) && LockInv(s) && BuiltInv(s) && Enabled(cfg, s, a)
    ensures
      var s' := Apply(cfg, s, a);
      forall t <- s'.requests :: s'.requests[t].Fetched? || s'.requests[t].Numbered? ==>
        ListingOk(s', s'.requests[t].listing)
  {
    var s' := Apply(cfg, s, a);
    forall t | t in s'.requests && (s'.requests[t].Fetched? || s'.requests[t].Numbered?)
      ensures ListingOk(s', s'.requests[t].listing)
    {
      var listing := s'.requests[t].listing;
      ListingComesFrom(cfg, s, a, t);
      if a == FetchRead(t, listing) {
        ReadListingIsOk(s, listing);
      }
      ListingStaysOk(cfg, s, a, listing);
    }
  }

  lemma NumberIsOk(cfg: Config, s: State, t: nat)
    requires BuiltInv(s) && Enabled(cfg, s, FetchNumber(t))
    ensures
      var s' := Apply(cfg, s, FetchNumber(t));
      t in s'.requests && s'.requests[t].Numbered? && NumberedOk(s', s'.requests[t].number)
  {
  }

  lemma NumberedStaysOk(cfg: Config, s: State, a: Action, number: int)
    requires NumberedOk(s, number) && Enabled(cfg, s, a) && !a.FetchNumber? && !a.FetchBuild?
    ensures NumberedOk(Apply(cfg, s, a), number)
  {
    CounterFrame(cfg, s, a);
    OnlyBuildingLogsBuilt(cfg, s, a);
  }

  // A request with a number after a step had it before, and nobody takes another meanwhile.
  lemma NumberedComesFrom(cfg: Config, s: State, a: Action, t: nat)
    requires LockInv(s) && Enabled(cfg, s, a) && t in Apply(cfg, s, a).requests && Apply(cfg, s, a).requests[t].Numbered?
    ensures a == FetchNumber(t) || (t in s.requests && s.requests[t] == Apply(cfg, s, a).requests[t] && !a.FetchNumber?)
    ensures !a.FetchBuild?
  {
    StepMovesOne(cfg, s, a, t);
    ListingComesFrom(cfg, s, a, t);
    if a.FetchNumber? {
      assert s.crlMu == Some(a.t);
      NumberKeepsListing(cfg, s, a.t);
    }
  }

  lemma StepKeepsNumbered(cfg: Config, s: State, a: Action)
    requires LockInv(s) && BuiltInv(s) && Enabled(cfg, s, a)
    ensures
      var s' := Apply(cfg, s, a);
      forall t <- s'.requests :: s'.requests[t].Numbered? ==> NumberedOk(s', s'.requests[t].number)
  {
    var s' := Apply(cfg, s, a);
    forall t | t in s'.requests && s'.requests[t].Numbered? ensures NumberedOk(s', s'.requests[t].number) {
      NumberedComesFrom(cfg, s, a, t);
      if a == FetchNumber(t) {
        NumberIsOk(cfg, s, t);
      } else {
        assert NumberedOk(s, s.requests[t].number);
        NumberedStaysOk(cfg, s, a, s.requests[t].number);
      }
    }
  }

  lemma StepKeepsBuilt(cfg: Config, s: State, a: Action)
    requires StoreInv(s) && LockInv(s) && BuiltInv(s) && Enabled(cfg, s, a)
    ensures BuiltInv(Apply(cfg, s, a))
  {
    StepKeepsBuiltLog(cfg, s, a);
    StepKeepsListings(cfg, s, a);
    StepKeepsNumbered(cfg, s, a);
  }

  lemma BuildOrders(cfg: Config, s: State, t: nat, signs: bool, i: nat, k: nat)
    requires LockInv(s) && BuiltInv(s) && Enabled(cfg, s, FetchBuild(t, signs))
    requires i < |s.log| <= k < |Apply(cfg, s, FetchBuild(t, signs)).log|
    requires s.log[i].CrlBuilt? && Apply(cfg, s, FetchBuild(t, signs)).log[k].CrlBuilt?
    ensures
      var later := Apply(cfg, s, FetchBuild(t, signs)).log[k];
      s.log[i].crl.number < later.crl.number && (forall entry <- s.log[i].crl.entries :: entry in later.crl.entries)
  {
    var r := s.requests[t];
    assert s.log[i] in s.log && NumberedOk(s, r.number) && ListingOk(s, r.listing);
    assert Apply(cfg, s, FetchBuild(t, signs)).log[k].crl.entries == EntriesOf(r.listing);
    CoveredEntriesStay(r.listing, s.log[i].crl);
  }

  lemma BuildLogsOnce(cfg: Config, s: State, t: nat, signs: bool, k: nat)
    requires Enabled(cfg, s, FetchBuild(t, signs))
    requires |s.log| <= k < |Apply(cfg, s, FetchBuild(t, signs)).log| && Apply(cfg, s, FetchBuild(t, signs)).log[k].CrlBuilt?
    ensures k == |s.log|
  {
  }

  lemma StepKeepsBuildOrder(cfg: Config, s: State, a: Action)
    requires LockInv(s) && BuiltInv(s) && BuildOrderInv(s) && Enabled(cfg, s, a)
    ensures BuildOrderInv(Apply(cfg, s, a))
  {
    var s' := Apply(cfg, s, a);
    LogGrows(cfg, s, a);
    forall i, k | 0 <= i < k < |s'.log| && s'.log[i].CrlBuilt? && s'.log[k].CrlBuilt?
      ensures s'.log[i].crl.number < s'.log[k].crl.number
      ensures forall entry <- s'.log[i].crl.entries :: entry in s'.log[k].crl.entries
    {
      if k < |s.log| {
        assert s'.log[i] == s.log[i] && s'.log[k] == s.log[k];
      } else {
        assert MayLog(a, s'.log[k]);
        BuildLogsOnce(cfg, s, a.t, a.signs, k);
        assert s'.log[i] == s.log[i];
        BuildOrders(cfg, s, a.t, a.signs, i, k);
      }
    }
  }

  // The OCSP side.

  // What a signed answer is entitled to say, now and in every later state.
  ghost predicate AnswerOk(cfg: Config, s: State, answer: Cached) {
    var r := answer.response;
    && MaySign(Some(r.cert), r.asked)
    && answer.nextUpdate == r.asked + cfg.window && r.nextUpdate <= answer.nextUpdate
    && (r.status.Good? ==> r.serial in s.store && r.asked <= Deadline(s, r.serial))
    && (r.status.RevokedAt? ==>
          && IsRevoked(s.store, r.serial)
          && r.status == StatusOf(Some(s.store[r.serial])))
  }

  // The same for an answer as it was served, to a request that was read at now.
  ghost predicate ServedOk(cfg: Config, s: State, now: Instant, r: Response) {
    && MaySign(Some(r.cert), r.asked) && r.asked <= s.clock
    && (r.status.Good? ==>
          && r.serial in s.store
          && r.nextUpdate <= Deadline(s, r.serial) + cfg.window
          && now < Deadline(s, r.serial) + cfg.window)
    && (r.status.RevokedAt? ==>
          && IsRevoked(s.store, r.serial)
          && r.status == StatusOf(Some(s.store[r.serial])))
  }

  // A cached answer was signed under the current certificate, for a serial on record.
  ghost predicate CacheInv(cfg: Config, s: State) {
    forall serial <- s.responder.cache ::
      var answer := s.responder.cache[serial];
      && AnswerOk(cfg, s, answer) && answer.response.asked <= s.clock
      && answer.response.serial == serial && serial in s.store && !answer.response.status.Unknown?
      && s.responder.cert == Some(answer.response.cert)
  }

  // What a found record says is still true of the store, or was when the request was read.
  ghost predicate FoundOk(s: State, serial: int, now: Instant, found: Option<CertRecord>) {
    found.Some? ==>
      && serial in s.store
      && (found.value.status == Valid ==> now <= Deadline(s, serial))
      && (found.value.status == Revoked ==> IsRevoked(s.store, serial) && found.value == s.store[serial])
  }

  ghost predicate AskerOk(cfg: Config, s: State, r: Request) {
    match r
    case Asking(_, now) => now <= s.clock
    case Probed(_, now, _) => now <= s.clock
    case Looked(serial, now, cert, found) =>
      now <= s.clock && MaySign(Some(cert), now) && FoundOk(s, serial, now, found)
    case Signed(answer) =>
      && AnswerOk(cfg, s, answer) && answer.response.asked <= s.clock
      && answer.response.serial in s.store && !answer.response.status.Unknown?
    case _ => true
  }

  ghost predicate AskersInv(cfg: Config, s: State) {
    forall t <- s.requests :: AskerOk(cfg, s, s.requests[t])
  }

  // The current certificate is on record, and so is one about to become current.
  ghost predicate ResponderInv(s: State) {
    && (s.responder.cert.Some? ==> s.responder.cert.value.serial in s.store)
    && (forall t <- s.requests :: s.requests[t].Recorded? ==> s.requests[t].cert.serial in s.store)
  }

  ghost predicate OcspLogInv(cfg: Config, s: State) {
    forall e <- s.log :: e.OcspServed? ==> ServedOk(cfg, s, e.now, e.response) && e.request < s.nextRequest
  }

  lemma AnswerStaysOk(cfg: Config, s: State, s': State, answer: Cached)
    requires AnswerOk(cfg, s, answer) && Grows(s, s')
    ensures AnswerOk(cfg, s', answer)
  {
  }

  lemma LookedAnswerOk(cfg: Config, s: State, cert: ResponderCert, serial: int, now: Instant, found: Option<CertRecord>)
    requires MaySign(Some(cert), now) && FoundOk(s, serial, now, found)
    ensures AnswerOk(cfg, s, Answer(cert, serial, now, found, cfg.window))
  {
  }

  lemma RecordKeepsResponder(cfg: Config, s: State, t: nat)
    requires StoreInv(s) && ResponderInv(s) && Enabled(cfg, s, RecordResponder(t))
    ensures ResponderInv(Apply(cfg, s, RecordResponder(t)))
  {
  }

  lemma RecordedStaysStored(s: State, a: Action, s': State, t: nat)
    requires ResponderInv(s) && Grows(s, s') && t in s'.requests && s'.requests[t].Recorded?
    requires MovesOne(s, a, s', t) && !a.RecordResponder?
    ensures s'.requests[t].cert.serial in s'.store
  {
  }

  lemma StepKeepsResponder(cfg: Config, s: State, a: Action)
    requires StoreInv(s) && ResponderInv(s) && Enabled(cfg, s, a)
    ensures ResponderInv(Apply(cfg, s, a))
  {
    if a.RecordResponder? {
      RecordKeepsResponder(cfg, s, a.t);
    } else {
      var s' := Apply(cfg, s, a);
      StepGrows(cfg, s, a);
      forall t | t in s'.requests && s'.requests[t].Recorded? ensures s'.requests[t].cert.serial in s'.store {
        StepMovesOne(cfg, s, a, t);
        RecordedStaysStored(s, a, s', t);
      }
      if s'.responder.cert.Some? {
        CurrentComesFrom(cfg, s, a);
      }
    }
  }

  // The certificate in use was in use before the step, or recorded.
  lemma CurrentComesFrom(cfg: Config, s: State, a: Action)
    requires Enabled(cfg, s, a) && Apply(cfg, s, a).responder.cert.Some?
    ensures
      || Apply(cfg, s, a).responder.cert == s.responder.cert
      || (a.SwapResponder? && Apply(cfg, s, a).responder.cert == Some(s.requests[a.t].cert))
  {
    if !a.Restart? && !a.DropOcsp? && !a.Keep? && !a.SwapResponder? {
      ResponderFrame(cfg, s, a);
    }
  }

  // An answer cached after a step was cached before it, or is the one the step keeps; a
  // certificate that changed leaves none.
  lemma CachedComesFrom(cfg: Config, s: State, a: Action, serial: int)
    requires Enabled(cfg, s, a) && serial in Apply(cfg, s, a).responder.cache
    ensures
      var s' := Apply(cfg, s, a);
      && s'.responder.cert == s.responder.cert
      && ((serial in s.responder.cache && s'.responder.cache[serial] == s.responder.cache[serial])
          || (&& a.Keep? && s'.responder.cache[serial] == s.requests[a.t].answer
              && serial == s.requests[a.t].answer.response.serial
              && s.responder.cert == Some(s.requests[a.t].answer.response.cert)))
  {
    if !a.Restart? && !a.DropOcsp? && !a.Keep? && !a.SwapResponder? {
      ResponderFrame(cfg, s, a);
    }
  }

  lemma StepKeepsCache(cfg: Config, s: State, a: Action)
    requires StoreInv(s) && CacheInv(cfg, s) && AskersInv(cfg, s) && Enabled(cfg, s, a)
    ensures CacheInv(cfg, Apply(cfg, s, a))
  {
    var s' := Apply(cfg, s, a);
    StepGrows(cfg, s, a);
    forall serial | serial in s'.responder.cache
      ensures
        var answer := s'.responder.cache[serial];
        && AnswerOk(cfg, s', answer) && answer.response.asked <= s'.clock
        && answer.response.serial == serial && serial in s'.store && !answer.response.status.Unknown?
        && s'.responder.cert == Some(answer.response.cert)
    {
      CachedComesFrom(cfg, s, a, serial);
      var answer := s'.responder.cache[serial];
      assert AnswerOk(cfg, s, answer);
      AnswerStaysOk(cfg, s, s', answer);
    }
  }

  lemma AskerStaysOk(cfg: Config, s: State, s': State, r: Request)
    requires AskerOk(cfg, s, r) && Grows(s, s')
    ensures AskerOk(cfg, s', r)
  {
  }

  lemma BroughtAskerIsOk(cfg: Config, s: State, a: Action)
    requires AskersInv(cfg, s) && Enabled(cfg, s, a) && (a.Ask? || a.Probe? || a.Sign?)
    ensures
      var t, s' := Subject(s, a), Apply(cfg, s, a);
      t in s'.requests ==> AskerOk(cfg, s, s'.requests[t])
  {
    if a.Sign? {
      var r := s.requests[a.t];
      assert AskerOk(cfg, s, r);
      LookedAnswerOk(cfg, s, r.cert, r.serial, r.now, r.found);
    }
  }

  lemma LookedAskerIsOk(cfg: Config, s: State, t: nat)
    requires StoreInv(s) && AskersInv(cfg, s) && Enabled(cfg, s, Look(t))
    ensures
      var s' := Apply(cfg, s, Look(t));
      t in s'.requests && AskerOk(cfg, s, s'.requests[t])
  {
    assert AskerOk(cfg, s, s.requests[t]);
  }

  // The request an action belongs to, in its next phase.
  lemma MovedAskerIsOk(cfg: Config, s: State, a: Action, t: nat)
    requires StoreInv(s) && AskersInv(cfg, s) && Enabled(cfg, s, a)
    requires t in Apply(cfg, s, a).requests
    requires t in s.requests ==> s.requests[t] != Apply(cfg, s, a).requests[t]
    ensures AskerOk(cfg, s, Apply(cfg, s, a).requests[t])
  {
    StepMovesOne(cfg, s, a, t);
    if a == Look(t) {
      LookedAskerIsOk(cfg, s, t);
    } else if a.Ask? || a.Probe? || a.Sign? {
      BroughtAskerIsOk(cfg, s, a);
    }
  }

  lemma StepKeepsAskers(cfg: Config, s: State, a: Action)
    requires StoreInv(s) && AskersInv(cfg, s) && Enabled(cfg, s, a)
    ensures AskersInv(cfg, Apply(cfg, s, a))
  {
    var s' := Apply(cfg, s, a);
    StepGrows(cfg, s, a);
    forall t | t in s'.requests ensures AskerOk(cfg, s', s'.requests[t]) {
      if t in s.requests && s.requests[t] == s'.requests[t] {
        AskerStaysOk(cfg, s, s', s.requests[t]);
      } else {
        MovedAskerIsOk(cfg, s, a, t);
        AskerStaysOk(cfg, s, s', s'.requests[t]);
      }
    }
  }

  // An answer served for the first time: from the cache, from the store at once, or kept.

  lemma ProbeServesOk(cfg: Config, s: State, t: nat, e: Event)
    requires ValidConfig(cfg) && StoreInv(s) && CacheInv(cfg, s) && AskersInv(cfg, s) && Enabled(cfg, s, Probe(t))
    requires e in Apply(cfg, s, Probe(t)).log && e !in s.log && e.OcspServed?
    ensures ServedOk(cfg, s, e.now, e.response) && e.request == t
  {
    assert AskerOk(cfg, s, s.requests[t]);
  }

  lemma SignServesOk(cfg: Config, s: State, t: nat, e: Event)
    requires ValidConfig(cfg) && StoreInv(s) && AskersInv(cfg, s) && Enabled(cfg, s, Sign(t))
    requires e in Apply(cfg, s, Sign(t)).log && e !in s.log && e.OcspServed?
    ensures ServedOk(cfg, s, e.now, e.response) && e.request == t
  {
    var r := s.requests[t];
    assert AskerOk(cfg, s, r);
    LookedAnswerOk(cfg, s, r.cert, r.serial, r.now, r.found);
  }

  lemma KeepServesOk(cfg: Config, s: State, t: nat, e: Event)
    requires ValidConfig(cfg) && StoreInv(s) && AskersInv(cfg, s) && Enabled(cfg, s, Keep(t))
    requires e in Apply(cfg, s, Keep(t)).log && e !in s.log && e.OcspServed?
    ensures ServedOk(cfg, s, e.now, e.response) && e.request == t
  {
    assert AskerOk(cfg, s, s.requests[t]);
  }

  lemma ServedStaysOk(cfg: Config, s: State, s': State, now: Instant, r: Response)
    requires ServedOk(cfg, s, now, r) && Grows(s, s')
    ensures ServedOk(cfg, s', now, r)
  {
  }

  lemma NewlyServedIsOk(cfg: Config, s: State, a: Action, e: Event)
    requires ValidConfig(cfg) && StoreInv(s) && LockInv(s) && CacheInv(cfg, s) && AskersInv(cfg, s) && Enabled(cfg, s, a)
    requires e in Apply(cfg, s, a).log && e !in s.log && e.OcspServed?
    ensures ServedOk(cfg, s, e.now, e.response) && e.request < s.nextRequest
  {
    NewEvent(cfg, s, a, e);
    if a.Probe? {
      ProbeServesOk(cfg, s, a.t, e);
    } else if a.Sign? {
      SignServesOk(cfg, s, a.t, e);
    } else {
      KeepServesOk(cfg, s, a.t, e);
    }
  }

  lemma StepKeepsOcspLog(cfg: Config, s: State, a: Action)
    requires ValidConfig(cfg) && StoreInv(s) && LockInv(s) && CacheInv(cfg, s) && AskersInv(cfg, s)
    requires OcspLogInv(cfg, s) && Enabled(cfg, s, a)
    ensures OcspLogInv(cfg, Apply(cfg, s, a))
  {
    var s' := Apply(cfg, s, a);
    StepGrows(cfg, s, a);
    forall e | e in s'.log && e.OcspServed?
      ensures ServedOk(cfg, s', e.now, e.response) && e.request < s'.nextRequest
    {
      if e !in s.log {
        NewlyServedIsOk(cfg, s, a, e);
      }
      ServedStaysOk(cfg, s, s', e.now, e.response);
    }
  }

  // All of it together, over whole runs.

  ghost predicate Inv(cfg: Config, s: State) {
    && StoreInv(s) && LockInv(s) && CrlInv(s) && WindowInv(cfg, s) && BuiltInv(s) && BuildOrderInv(s)
    && ResponderInv(s) && CacheInv(cfg, s) && AskersInv(cfg, s) && OcspLogInv(cfg, s)
  }

  lemma InitEstablishesInv(cfg: Config, s: State)
    requires Init(s)
    ensures Inv(cfg, s)
  {
  }

  lemma StepKeepsInv(cfg: Config, s: State, a: Action)
    requires ValidConfig(cfg) && Inv(cfg, s) && Enabled(cfg, s, a)
    ensures Inv(cfg, Apply(cfg, s, a))
  {
    StepGrows(cfg, s, a);
    StepKeepsLock(cfg, s, a);
    StepKeepsCrl(cfg, s, a);
    StepKeepsWindow(cfg, s, a);
    StepKeepsBuilt(cfg, s, a);
    StepKeepsBuildOrder(cfg, s, a);
    StepKeepsResponder(cfg, s, a);
    StepKeepsCache(cfg, s, a);
    StepKeepsAskers(cfg, s, a);
    StepKeepsOcspLog(cfg, s, a);
  }

  lemma {:induction false} RunKeepsInv(cfg: Config, s: State, run: seq<Action>)
    requires ValidConfig(cfg) && Inv(cfg, s) && Executes(cfg, s, run)
    ensures Inv(cfg, After(cfg, s, run))
    decreases run
  {
    if run == [] {
    } else {
      StepKeepsInv(cfg, s, run[0]);
      RunKeepsInv(cfg, Apply(cfg, s, run[0]), run[1..]);
    }
  }

  /**
  A CRL served after a revocation returned lists it, with the first time and reason the
  store recorded, in every interleaving of issuing, revoking, fetching and restarting.
  */
  lemma CrlListsReturnedRevocations(cfg: Config, s0: State, run: seq<Action>, i: nat, k: nat)
    requires ValidConfig(cfg) && Init(s0) && Executes(cfg, s0, run)
    requires i < k < |After(cfg, s0, run).log|
    requires After(cfg, s0, run).log[i].RevocationReturned? && After(cfg, s0, run).log[k].CrlServed?
    ensures
      var s := After(cfg, s0, run);
      var serial := s.log[i].serial;
      && IsRevoked(s.store, serial)
      && Entry(serial, s.store[serial].revokedAt, s.store[serial].reason) in s.log[k].crl.entries
  {
    InitEstablishesInv(cfg, s0);
    RunKeepsInv(cfg, s0, run);
    var s := After(cfg, s0, run);
    assert s.log[i] in s.log;
  }

  /**
  Every CRL served has a non-empty window inside its issuer's, and of two CRLs signed the
  later has the higher number and still carries every entry of the earlier.
  */
  lemma CrlsAreOrdered(cfg: Config, s0: State, run: seq<Action>)
    requires ValidConfig(cfg) && Init(s0) && Executes(cfg, s0, run)
    ensures
      var log := After(cfg, s0, run).log;
      && (forall e <- log :: e.CrlServed? ==> e.crl.thisUpdate < e.crl.nextUpdate <= cfg.issuerNotAfter)
      && (forall i, k :: 0 <= i < k < |log| && log[i].CrlBuilt? && log[k].CrlBuilt? ==>
            && log[i].crl.number < log[k].crl.number
            && (forall entry <- log[i].crl.entries :: entry in log[k].crl.entries))
  {
    InitEstablishesInv(cfg, s0);
    RunKeepsInv(cfg, s0, run);
  }

  /**
  An OCSP answer of good is bounded whatever overlaps: it stops being fresh within one
  window of the instant the revocation was committed, and no request read later than that
  is told good. A revoked answer carries the first time and reason; a serial the store
  does not hold is never called good.
  */
  lemma GoodIsBounded(cfg: Config, s0: State, run: seq<Action>, e: Event)
    requires ValidConfig(cfg) && Init(s0) && Executes(cfg, s0, run)
    requires e in After(cfg, s0, run).log && e.OcspServed?
    ensures
      var s := After(cfg, s0, run);
      var r := e.response;
      && (r.serial in s.committed && r.status.Good? ==>
            && r.nextUpdate <= s.committed[r.serial] + cfg.window
            && e.now < s.committed[r.serial] + cfg.window)
      && (r.status.Good? ==> r.serial in s.store)
      && (r.status.RevokedAt? ==>
            IsRevoked(s.store, r.serial) && r.status == RevokedAt(s.store[r.serial].revokedAt, s.store[r.serial].reason))
  {
    InitEstablishesInv(cfg, s0);
    RunKeepsInv(cfg, s0, run);
  }

  /**
  Coherence of the responder in every interleaving with renewal: the current certificate
  is on record; every cached answer is for a serial on record and was signed under the
  current certificate; and whatever was served was asked at an instant inside the window
  of the certificate it was signed under, with the stated skew.
  */
  lemma ResponderIsCoherent(cfg: Config, s0: State, run: seq<Action>)
    requires ValidConfig(cfg) && Init(s0) && Executes(cfg, s0, run)
    ensures
      var s := After(cfg, s0, run);
      && (s.responder.cert.Some? ==> s.responder.cert.value.serial in s.store)
      && (forall serial <- s.responder.cache ::
            && serial in s.store
            && s.responder.cache[serial].response.serial == serial
            && s.responder.cert == Some(s.responder.cache[serial].response.cert))
      && (forall e <- s.log :: e.OcspServed? ==>
            var cert := e.response.cert;
            cert.notBefore <= e.response.asked + CLOCK_SKEW && e.response.asked <= cert.notAfter)
  {
    InitEstablishesInv(cfg, s0);
    RunKeepsInv(cfg, s0, run);
  }
}
