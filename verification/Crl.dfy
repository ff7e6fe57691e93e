/**
The revocation list (internal/ca/crl.go) and the server's single-flight cache of it
(internal/api/server.go). A signed CRL is its contents; its two dates are encoded in whole
seconds.
*/
module Crl {
  import opened Clock
  import opened Store
  import opened Wrappers

  datatype Entry = Entry(serial: int, revokedAt: Instant, reason: int)

  datatype Crl = Crl(number: int, thisUpdate: Instant, nextUpdate: Instant, entries: seq<Entry>)

  datatype BuildError = EmptyWindow | BadNumber | SigningFailed

  function EntryOf(rec: CertRecord): Entry {
    Entry(rec.serial, rec.revokedAt, rec.reason)
  }

  function EntriesOf(records: seq<CertRecord>): (entries: seq<Entry>)
    ensures |entries| == |records|
    ensures forall i :: 0 <= i < |records| ==> entries[i] == EntryOf(records[i])
  {
    seq(|records|, i requires 0 <= i < |records| => EntryOf(records[i]))
  }

  // A window read at now ends with its validity or with the issuer, whichever comes first.
  predicate EndsAt(now: Instant, validity: Span, issuerNotAfter: Instant, next: Instant) {
    next <= now + validity && next <= issuerNotAfter && (next == now + validity || next == issuerNotAfter)
  }

  // The dates of a CRL built at a reading, dated back by the skew and in whole seconds.
  predicate DatedAt(crl: Crl, now: Instant, next: Instant) {
    SameSecond(now - CLOCK_SKEW, crl.thisUpdate) && SameSecond(next, crl.nextUpdate)
  }

  // The end of a CRL's window: never past the issuer's own.
  function NextUpdate(now: Instant, validity: Span, issuerNotAfter: Instant): (next: Instant)
    ensures EndsAt(now, validity, issuerNotAfter, next)
  {
    if now + validity > issuerNotAfter then issuerNotAfter else now + validity
  }

  function Build(revoked: seq<CertRecord>, thisUpdate: Instant, nextUpdate: Instant, number: int, signs: bool): (built: Result<Crl, BuildError>)
    ensures built.Ok? <==> thisUpdate < nextUpdate && number > 0 && signs
    ensures built.Ok? ==>
              && built.value.number == number && |built.value.entries| == |revoked|
              && SameSecond(thisUpdate, built.value.thisUpdate) && SameSecond(nextUpdate, built.value.nextUpdate)
              && forall i :: 0 <= i < |revoked| ==>
                   built.value.entries[i] == Entry(revoked[i].serial, revoked[i].revokedAt, revoked[i].reason)
  {
    if nextUpdate <= thisUpdate then Err(EmptyWindow)
    else if number <= 0 then Err(BadNumber)
    else if !signs then Err(SigningFailed)
    else Ok(Crl(number, TruncateToSecond(thisUpdate), TruncateToSecond(nextUpdate), EntriesOf(revoked)))
  }

  ghost predicate Lists(crl: Crl, rec: CertRecord) {
    EntryOf(rec) in crl.entries
  }

  // The window every CRL of this issuer promises.
  predicate GoodWindow(crl: Crl, issuerNotAfter: Instant) {
    crl.thisUpdate < crl.nextUpdate <= issuerNotAfter
  }

  /**
  A CRL that is built has a non-empty window inside the issuer's, in the seconds it is
  encoded in: a validity given in whole seconds leaves either a second or nothing.
  */
  lemma BuiltWindowIsGood(revoked: seq<CertRecord>, now: Instant, validity: Span, issuerNotAfter: Instant, number: int, signs: bool)
    requires WholeSecond(validity) && WholeSecond(issuerNotAfter)
    ensures
      var built := Build(revoked, now - CLOCK_SKEW, NextUpdate(now, validity, issuerNotAfter), number, signs);
      built.Ok? ==> GoodWindow(built.value, issuerNotAfter) && built.value.number > 0
  {
    var next := NextUpdate(now, validity, issuerNotAfter);
    if next > now - CLOCK_SKEW {
      TruncateIsMonotone(next, issuerNotAfter);
      TruncateIsGreatest(issuerNotAfter, issuerNotAfter);
      if next == now + validity {
        WholeSpanIsASecond(validity + CLOCK_SKEW);
      }
      TruncateKeepsWindow(now - CLOCK_SKEW, next);
    }
  }

  lemma WholeSpanIsASecond(w: Span)
    requires w > 0 && w % SECOND == 0
    ensures w >= SECOND
  {
  }

  /** The loop that turns store records into entries, and the guards before it. */
  method BuildCrl(revoked: seq<CertRecord>, thisUpdate: Instant, nextUpdate: Instant, number: int, signs: bool)
    returns (built: Result<Crl, BuildError>)
    ensures built == Build(revoked, thisUpdate, nextUpdate, number, signs)
  {
    if nextUpdate <= thisUpdate {
      return Err(EmptyWindow);
    }
    if number <= 0 {
      return Err(BadNumber);
    }
    var entries: seq<Entry> := [];
    for i := 0 to |revoked|
      invariant |entries| == i
      invariant forall j :: 0 <= j < i ==> entries[j] == EntryOf(revoked[j])
    {
      entries := entries + [Entry(revoked[i].serial, revoked[i].revokedAt, revoked[i].reason)];
    }
    if !signs {
      return Err(SigningFailed);
    }
    assert entries == EntriesOf(revoked);
    built := Ok(Crl(number, TruncateToSecond(thisUpdate), TruncateToSecond(nextUpdate), entries));
  }

  // The cache behind crlMu.
  datatype CrlCache = CrlCache(crl: Option<Crl>, nextUpdate: Instant)

  function CacheHit(cache: CrlCache, now: Instant): Option<Crl> {
    if cache.crl.Some? && now < cache.nextUpdate then cache.crl else None
  }

  function CacheDropped(cache: CrlCache): CrlCache {
    cache.(crl := None)
  }
}
