/**
The objects whose lock regions the machine interleaves: the responder with its certificate
and cache (internal/responder/responder.go) and the server with its CRL cache
(internal/api/server.go), over the durable store. Each region is tied to the function the
machine's action applies. Where a method gives its lock back, or uses a store another
request can commit to, it calls Interleave: whatever the other requests may have done by
then is all its contract leaves known.
*/
module Server {
  import opened Clock
  import opened Crl
  import opened Ocsp
  import opened Store
  import opened Wrappers

  // What commits of other requests never take back.
  ghost predicate Keeps(m: Records, m': Records) {
    && (forall serial <- m :: serial in m')
    && (forall serial :: IsRevoked(m, serial) ==> IsRevoked(m', serial) && m'[serial] == m[serial])
  }

  method CommitsByOthers(store: SQLite)
    requires store.Valid()
    modifies store`rows
    ensures store.Valid() && Keeps(old(store.Abs()), store.Abs())
  {
  }

  // An answer about a recorded serial; a revocation it reports is the recorded one.
  ghost predicate Fits(r: Response, m: Records) {
    && r.serial in m && !r.status.Unknown?
    && (r.status.RevokedAt? ==> IsRevoked(m, r.serial) && r.status == StatusOf(Some(m[r.serial])))
  }

  // An answer signed after looking the serial up in m fits every later m'.
  lemma LookedUpFits(m: Records, m': Records, cert: ResponderCert, serial: int, now: Instant, window: Span)
    requires Keeps(m, m') && serial in m
    ensures Fits(Answer(cert, serial, now, Some(m[serial]), window).response, m')
    ensures IsRevoked(m, serial) ==>
              Answer(cert, serial, now, Some(m[serial]), window).response.status == StatusOf(Some(m'[serial]))
  {
  }

  // The certificate may be signed under at now, with the stated skew.
  predicate InWindow(cert: Option<ResponderCert>, now: Instant) {
    cert.Some? && cert.value.notBefore <= now + CLOCK_SKEW && now <= cert.value.notAfter
  }

  // What an answer to a request says of a serial, when the store held m at its beginning and
  // m' at its end: nothing the store did not hold at one of them or in between.
  ghost predicate TellsOf(r: Response, m: Records, m': Records) {
    && (r.serial !in m' ==> r.status.Unknown?)
    && (r.status.Unknown? ==> r.serial !in m)
    && (r.serial in m && r.serial in m' && !IsRevoked(m', r.serial) ==> r.status.Good?)
    && (IsRevoked(m, r.serial) ==> r.status == RevokedAt(m[r.serial].revokedAt, m[r.serial].reason))
    && (r.status.RevokedAt? ==> IsRevoked(m', r.serial) && r.status == RevokedAt(m'[r.serial].revokedAt, m'[r.serial].reason))
  }

  datatype Outcome = Malformed | Unauthorized | TryLater | Served(response: Response, cached: bool)

  class OcspResponder {
    var cert: Option<ResponderCert>
    var cache: map<int, Cached>
    const window: Span

    ghost function Abs(): Responder
      reads this
    {
      Responder(cert, cache)
    }

    // Cached answers were signed under the certificate in use and fit the records.
    ghost predicate Coherent(m: Records)
      reads this
    {
      forall serial <- cache ::
        cache[serial].response.serial == serial && cert == Some(cache[serial].response.cert)
        && Fits(cache[serial].response, m)
    }

    constructor (window: Span)
      ensures Abs() == Responder(None, map[]) && this.window == window
    {
      cert := None;
      cache := map[];
      this.window := window;
    }

    method Invalidate()
      modifies this
      ensures Abs() == Dropped(old(Abs()))
    {
      cache := map[];
    }

    method Swap(next: ResponderCert)
      modifies this
      ensures Abs() == Renewed(next)
    {
      cert := Some(next);
      cache := map[];
    }

    method Probe(serial: int, now: Instant) returns (current: Option<ResponderCert>, hit: Option<Cached>)
      ensures current == Abs().cert && hit == Hit(Abs(), serial, now)
    {
      current := cert;
      hit := None;
      if serial in cache && now < cache[serial].nextUpdate {
        hit := Some(cache[serial]);
      }
    }

    method KeepAnswer(answer: Cached, ghost m: Records)
      requires Coherent(m) && Fits(answer.response, m)
      modifies this
      ensures Abs() == Kept(old(Abs()), answer)
      ensures Coherent(m)
    {
      if cert == Some(answer.response.cert) {
        cache := cache[answer.response.serial := answer];
      }
    }

    // The answer is cached, unless the certificate it was signed under was replaced.
    ghost predicate Caches(answer: Cached)
      reads this
    {
      cert == Some(answer.response.cert) ==> answer.response.serial in cache && cache[answer.response.serial] == answer
    }

    method Interleave(store: SQLite)
      requires store.Valid() && Coherent(store.Abs())
      modifies this, store`rows
      ensures store.Valid() && Keeps(old(store.Abs()), store.Abs()) && Coherent(store.Abs())
    {
    }

    // A cache miss: the store is asked and the answer signed, with a gap before each.
    method LookUpAndSign(current: Option<ResponderCert>, serial: int, now: Instant, store: SQLite, storeFault: bool, signs: bool)
      returns (out: Outcome)
      requires store.Valid() && Coherent(store.Abs())
      modifies this, store`rows
      ensures store.Valid() && Keeps(old(store.Abs()), store.Abs()) && Coherent(store.Abs())
      ensures out.TryLater? || (out.Served? && !out.cached)
      ensures out.Served? <==> !storeFault && signs && InWindow(current, now)
      ensures out.Served? ==>
                && Answers(Cached(out.response, now + window), current.value, serial, now, window)
                && TellsOf(out.response, old(store.Abs()), store.Abs())
                && (!out.response.status.Unknown? ==> Caches(Cached(out.response, now + window)))
    {
      ghost var m0 := store.Abs();
      Interleave(store);
      if !MaySign(current, now) {
        return TryLater;
      }
      ghost var m1 := store.Abs();
      assert Keeps(m0, m1);
      var looked := store.Get(serial, storeFault);
      if looked.Err? {
        return TryLater;
      }
      out := SignAndKeep(current.value, serial, now, looked.value, store, signs);
    }

    // The answer to what a look-up found, signed and kept, with a gap before.
    method SignAndKeep(current: ResponderCert, serial: int, now: Instant, found: Option<CertRecord>, store: SQLite, signs: bool)
      returns (out: Outcome)
      requires store.Valid() && Coherent(store.Abs())
      requires found == if serial in store.Abs() then Some(store.Abs()[serial]) else None
      modifies this, store`rows
      ensures store.Valid() && Keeps(old(store.Abs()), store.Abs()) && Coherent(store.Abs())
      ensures if signs then out == Served(Answer(current, serial, now, found, window).response, false) else out == TryLater
      ensures out.Served? && found.Some? ==> Fits(out.response, store.Abs()) && Caches(Answer(current, serial, now, found, window))
    {
      ghost var m1 := store.Abs();
      Interleave(store);
      ghost var m2 := store.Abs();
      if !signs {
        return TryLater;
      }
      var answer := Answer(current, serial, now, found, window);
      if found.Some? {
        LookedUpFits(m1, m2, current, serial, now, window);
        KeepAnswer(answer, m2);
      }
      out := Served(answer.response, false);
    }

    /**
    One request. Whatever the others do in the two gaps: a fresh cached answer is served, and
    else a new one exactly when the store and the token answer and the certificate is in its
    window. It speaks about the serial asked, calls good what was on record and is unrevoked
    on return, revoked only what the record says, and stays cached under its certificate.
    */
    method Respond(serial: int, hashKnown: bool, issuerMatches: bool, now: Instant, store: SQLite, storeFault: bool, signs: bool)
      returns (out: Outcome)
      requires store.Valid() && Coherent(store.Abs())
      modifies this, store`rows
      ensures store.Valid() && Keeps(old(store.Abs()), store.Abs()) && Coherent(store.Abs())
      ensures serial <= 0 || !hashKnown <==> out.Malformed?
      ensures serial > 0 && hashKnown && !issuerMatches <==> out.Unauthorized?
      ensures serial > 0 && hashKnown && issuerMatches && old(serial in cache && now < cache[serial].nextUpdate) ==>
                out == Served(old(cache[serial].response), true)
      ensures serial > 0 && hashKnown && issuerMatches && !old(serial in cache && now < cache[serial].nextUpdate) ==>
                && (out.TryLater? || (out.Served? && !out.cached))
                && (out.TryLater? <==> storeFault || !signs || !InWindow(old(cert), now))
      ensures out.Served? && !out.cached ==>
                && old(cert).Some? && Answers(Cached(out.response, now + window), old(cert).value, serial, now, window)
                && TellsOf(out.response, old(store.Abs()), store.Abs())
                && (!out.response.status.Unknown? ==> Caches(Cached(out.response, now + window)))
      ensures out.Served? ==>
                && out.response.serial == serial
                && (out.response.status != Unknown ==> Fits(out.response, store.Abs()))
    {
      if serial <= 0 || !hashKnown {
        return Malformed;
      }
      if !issuerMatches {
        return Unauthorized;
      }
      var current, hit := Probe(serial, now);
      if hit.Some? {
        return Served(hit.value.response, true);
      }
      out := LookUpAndSign(current, serial, now, store, storeFault, signs);
    }
  }

  // The listing holds every record that was revoked in m0, as it was there.
  ghost predicate ListsSince(listing: seq<CertRecord>, m0: Records) {
    forall serial :: IsRevoked(m0, serial) ==> m0[serial] in listing
  }

  // A CRL whose window is good and that lists everything revoked in m0.
  ghost predicate AccountsFor(crl: Crl, m0: Records, issuerNotAfter: Instant) {
    && GoodWindow(crl, issuerNotAfter)
    && forall serial :: IsRevoked(m0, serial) ==> Lists(crl, m0[serial])
  }

  lemma BuiltAccountsFor(m0: Records, listing: seq<CertRecord>, now: Instant, validity: Span, issuerNotAfter: Instant, number: int)
    requires WholeSecond(validity) && WholeSecond(issuerNotAfter) && ListsSince(listing, m0)
    ensures
      var built := Build(listing, now - CLOCK_SKEW, NextUpdate(now, validity, issuerNotAfter), number, true);
      built.Ok? ==> AccountsFor(built.value, m0, issuerNotAfter) && built.value.number == number
  {
    var built := Build(listing, now - CLOCK_SKEW, NextUpdate(now, validity, issuerNotAfter), number, true);
    if built.Ok? {
      BuiltWindowIsGood(listing, now, validity, issuerNotAfter, number, true);
      forall serial | IsRevoked(m0, serial) ensures Lists(built.value, m0[serial]) {
        var i :| 0 <= i < |listing| && listing[i] == m0[serial];
        assert built.value.entries[i] == EntryOf(m0[serial]);
      }
    }
  }

  // The two store transactions of a CRL, with other requests' commits before each.
  method ReadForCrl(store: SQLite, later: Instant, faultRead: bool, faultNumber: bool)
    returns (read: Result<(seq<CertRecord>, int), StoreError>)
    requires store.Valid() && store.CounterReadable()
    modifies store`rows, store`counter
    ensures store.Valid() && store.CounterReadable() && Keeps(old(store.Abs()), store.Abs())
    ensures read.Ok? <==> !faultRead && !faultNumber
    ensures read.Ok? ==>
              && ListsSince(read.value.0, old(store.Abs()))
              && read.value.1 == NextNumber(old(store.LastNumber()), store.crlNumberFloor, later)
              && store.LastNumber() == Some(read.value.1)
    ensures read.Err? ==> store.counter == old(store.counter)
  {
    ghost var m0 := store.Abs();
    CommitsByOthers(store);
    ghost var m1 := store.Abs();
    var records := store.ListRevoked(faultRead);
    if records.Err? {
      return Err(Fault);
    }
    CommitsByOthers(store);
    ghost var m2 := store.Abs();
    assert Keeps(m0, m1) && Keeps(m1, m2);
    var number := store.NextCrlNumber(later, faultNumber);
    if number.Err? {
      return Err(Fault);
    }
    read := Ok((records.value, number.value));
  }

  datatype FetchError = StoreFailed | BuildFailed(error: BuildError)

  datatype Reply = NoContent | NotFound | BadRequest | InternalError

  class CrlServer {
    var cachedCrl: Option<Crl>
    var cachedNextUpdate: Instant
    const crlValidity: Span
    const issuerNotAfter: Instant

    ghost function Abs(): CrlCache
      reads this
    {
      CrlCache(cachedCrl, cachedNextUpdate)
    }

    constructor (crlValidity: Span, issuerNotAfter: Instant)
      ensures cachedCrl == None && this.crlValidity == crlValidity && this.issuerNotAfter == issuerNotAfter
    {
      cachedCrl := None;
      cachedNextUpdate := ZERO_INSTANT;
      this.crlValidity := crlValidity;
      this.issuerNotAfter := issuerNotAfter;
    }

    method InvalidateCrlCache()
      modifies this
      ensures Abs() == CacheDropped(old(Abs()))
    {
      cachedCrl := None;
    }

    // Nothing stands in the way of a new CRL: the store and the token answer, the last number
    // was not negative, and some time is left of the validity and of the issuer.
    ghost predicate CanBuild(last: Option<int>, now: Instant, faultRead: bool, faultNumber: bool, signs: bool) {
      && !faultRead && !faultNumber && signs && (last.Some? ==> last.value >= 0)
      && -CLOCK_SKEW < crlValidity && now - CLOCK_SKEW < issuerNotAfter
    }

    /**
    The single-flight fetch: one region of crlMu, during which other requests may still
    commit revocations. A fresh cached CRL is served as it is. Otherwise a CRL is served
    exactly when nothing stands in its way: it is cached, lists everything that was revoked
    when the region was entered, is dated back by the skew and ends with the configured
    validity or with the issuer. A failure leaves the cache alone.
    */
    method CurrentCrl(store: SQLite, now: Instant, later: Instant, faultRead: bool, faultNumber: bool, signs: bool)
      returns (crl: Result<Crl, FetchError>)
      requires store.Valid() && store.CounterReadable()
      requires WholeSecond(crlValidity) && WholeSecond(issuerNotAfter)
      modifies this, store`rows, store`counter
      ensures store.Valid() && store.CounterReadable() && Keeps(old(store.Abs()), store.Abs())
      ensures old(cachedCrl.Some? && now < cachedNextUpdate) ==>
                crl == Ok(old(cachedCrl).value) && Abs() == old(Abs()) && store.counter == old(store.counter)
      ensures !old(cachedCrl.Some? && now < cachedNextUpdate) ==>
                && (crl.Ok? <==> CanBuild(old(store.LastNumber()), now, faultRead, faultNumber, signs))
                && (crl.Ok? ==>
                      && cachedCrl == Some(crl.value) && EndsAt(now, crlValidity, issuerNotAfter, cachedNextUpdate)
                      && DatedAt(crl.value, now, cachedNextUpdate)
                      && AccountsFor(crl.value, old(store.Abs()), issuerNotAfter)
                      && crl.value.number == NextNumber(old(store.LastNumber()), store.crlNumberFloor, later)
                      && store.LastNumber() == Some(crl.value.number))
      ensures crl.Err? ==> Abs() == old(Abs())
    {
      if cachedCrl.Some? && now < cachedNextUpdate {
        return Ok(cachedCrl.value);
      }
      var rebuilt := Regenerate(store, now, later, faultRead, faultNumber, signs);
      if rebuilt.Err? {
        return Err(rebuilt.error);
      }
      var nextUpdate := now + crlValidity;
      if nextUpdate > issuerNotAfter {
        nextUpdate := issuerNotAfter;
      }
      cachedCrl := Some(rebuilt.value);
      cachedNextUpdate := nextUpdate;
      crl := Ok(rebuilt.value);
    }

    // A cache miss: two store transactions, then the guards and the signature.
    method Regenerate(store: SQLite, now: Instant, later: Instant, faultRead: bool, faultNumber: bool, signs: bool)
      returns (crl: Result<Crl, FetchError>)
      requires store.Valid() && store.CounterReadable()
      requires WholeSecond(crlValidity) && WholeSecond(issuerNotAfter)
      modifies store`rows, store`counter
      ensures store.Valid() && store.CounterReadable() && Keeps(old(store.Abs()), store.Abs())
      ensures crl.Ok? <==> CanBuild(old(store.LastNumber()), now, faultRead, faultNumber, signs)
      ensures crl.Ok? ==>
                && AccountsFor(crl.value, old(store.Abs()), issuerNotAfter)
                && DatedAt(crl.value, now, NextUpdate(now, crlValidity, issuerNotAfter))
                && crl.value.number == NextNumber(old(store.LastNumber()), store.crlNumberFloor, later)
                && store.LastNumber() == Some(crl.value.number)
    {
      ghost var m0 := store.Abs();
      var read := ReadForCrl(store, later, faultRead, faultNumber);
      if read.Err? {
        return Err(StoreFailed);
      }
      var (records, number) := read.value;
      crl := BuildOver(records, number, now, signs, m0);
    }

    method BuildOver(records: seq<CertRecord>, number: int, now: Instant, signs: bool, ghost m0: Records)
      returns (crl: Result<Crl, FetchError>)
      requires WholeSecond(crlValidity) && WholeSecond(issuerNotAfter) && ListsSince(records, m0)
      ensures crl.Ok? <==> signs && number > 0 && -CLOCK_SKEW < crlValidity && now - CLOCK_SKEW < issuerNotAfter
      ensures crl.Ok? ==>
                && AccountsFor(crl.value, m0, issuerNotAfter) && crl.value.number == number
                && DatedAt(crl.value, now, NextUpdate(now, crlValidity, issuerNotAfter))
    {
      var nextUpdate := now + crlValidity;
      if nextUpdate > issuerNotAfter {
        nextUpdate := issuerNotAfter;
      }
      var built := BuildCrl(records, now - CLOCK_SKEW, nextUpdate, number, signs);
      if built.Err? {
        return Err(BuildFailed(built.error));
      }
      BuiltAccountsFor(m0, records, now, crlValidity, issuerNotAfter, number);
      crl := Ok(built.value);
    }

    // What the other requests may have done to the CRL cache since it was looked at with the
    // store holding m: left it, dropped it, or filled it from a read of their own.
    ghost predicate Moved(was: Option<Crl>, m: Records)
      reads this`cachedCrl
    {
      cachedCrl == was || (cachedCrl.Some? ==> AccountsFor(cachedCrl.value, m, issuerNotAfter))
    }

    // The other requests between two locked regions of this one.
    method OthersAct(store: SQLite, responder: OcspResponder)
      requires store.Valid()
      modifies this, responder, store`rows, store`counter
      ensures store.Valid() && Keeps(old(store.Abs()), store.Abs()) && Moved(old(cachedCrl), old(store.Abs()))
    {
    }

    /**
    Revocation: the commit first, then each cache under its own lock, with the other requests
    in between. Success leaves the serial revoked with the reason and time asked for, or with
    the first ones if it was revoked before, no CRL cached that misses it, and no status
    answer cached; every refusal leaves all three as they were.
    */
    method HandleRevoke(store: SQLite, responder: OcspResponder, serialText: Option<int>, bodyReadable: bool,
                        reason: int, now: Instant, fault: bool)
      returns (reply: Reply)
      requires store.Valid()
      modifies this, responder, store`rows, store`counter
      ensures store.Valid()
      ensures serialText.None? || !bodyReadable ==> reply == BadRequest
      ensures serialText.Some? && bodyReadable ==>
                reply == (if !(0 <= reason <= 10) || reason == 7 || reason == 8 then BadRequest
                          else if fault then InternalError
                          else if serialText.value !in old(store.Abs()) then NotFound
                          else NoContent)
      ensures reply == NoContent ==>
                && Keeps(AfterRevoke(old(store.Abs()), serialText.value, reason, now), store.Abs())
                && IsRevoked(store.Abs(), serialText.value)
                && (if IsRevoked(old(store.Abs()), serialText.value)
                    then store.Abs()[serialText.value] == old(store.Abs())[serialText.value]
                    else RevokedAs(old(store.Abs())[serialText.value], reason, now, store.Abs()[serialText.value]))
                && (cachedCrl.Some? ==> Lists(cachedCrl.value, store.Abs()[serialText.value]))
                && responder.cache == map[]
      ensures reply != NoContent ==>
                && store.Abs() == old(store.Abs()) && store.counter == old(store.counter)
                && Abs() == old(Abs()) && responder.Abs() == old(responder.Abs())
    {
      if serialText.None? || !bodyReadable {
        return BadRequest;
      }
      var err := store.Revoke(serialText.value, reason, now, fault);
      match err {
        case Some(CertNotFound) => return NotFound;
        case Some(InvalidReason) => return BadRequest;
        case Some(_) => return InternalError;
        case None =>
      }
      DropBoth(store, responder, serialText.value);
      reply := NoContent;
    }

    // Both caches dropped for a revocation just committed, the others acting before each.
    method DropBoth(store: SQLite, responder: OcspResponder, ghost serial: int)
      requires store.Valid() && IsRevoked(store.Abs(), serial)
      modifies this, responder, store`rows, store`counter
      ensures store.Valid() && Keeps(old(store.Abs()), store.Abs())
      ensures store.Abs()[serial] == old(store.Abs())[serial]
      ensures cachedCrl.Some? ==> Lists(cachedCrl.value, store.Abs()[serial])
      ensures responder.cache == map[]
    {
      ghost var m1 := store.Abs();
      DropCrl(store, responder);
      ghost var m2 := store.Abs();
      OthersAct(store, responder);
      DropAccounts(m1, m2, store.Abs(), serial);
      responder.Invalidate();
    }

    method DropCrl(store: SQLite, responder: OcspResponder)
      requires store.Valid()
      modifies this, responder, store`rows, store`counter
      ensures store.Valid() && Keeps(old(store.Abs()), store.Abs()) && cachedCrl == None
    {
      OthersAct(store, responder);
      InvalidateCrlCache();
    }
  }

  // A revocation that is kept stays as it was committed.
  lemma DropAccounts(m1: Records, m2: Records, m3: Records, serial: int)
    requires Keeps(m1, m2) && Keeps(m2, m3) && IsRevoked(m1, serial)
    ensures Keeps(m1, m3) && IsRevoked(m2, serial) && m3[serial] == m2[serial] == m1[serial]
  {
  }
}
