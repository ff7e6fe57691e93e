/**
What the delegated responder keeps and signs (internal/responder/responder.go). A signed
response is its contents; a responder certificate has an identity, because the code asks
whether it is still the same certificate and not whether it looks the same.
*/
module Ocsp {
  import opened Clock
  import opened Store
  import opened Wrappers

  datatype CertStatus = Good | RevokedAt(at: Instant, reason: int) | Unknown

  datatype ResponderCert = ResponderCert(id: nat, serial: int, notBefore: Instant, notAfter: Instant)

  // asked is the instant the request was read at; the dates are encoded in whole seconds.
  datatype Response = Response(
    serial: int,
    status: CertStatus,
    asked: Instant,
    thisUpdate: Instant,
    nextUpdate: Instant,
    cert: ResponderCert
  )

  datatype Cached = Cached(response: Response, nextUpdate: Instant)

  datatype Responder = Responder(cert: Option<ResponderCert>, cache: map<int, Cached>)

  function Hit(r: Responder, serial: int, now: Instant): Option<Cached> {
    if serial in r.cache && now < r.cache[serial].nextUpdate then Some(r.cache[serial]) else None
  }

  predicate MaySign(cert: Option<ResponderCert>, now: Instant) {
    cert.Some? && !(now + CLOCK_SKEW < cert.value.notBefore) && !(now > cert.value.notAfter)
  }

  function StatusOf(found: Option<CertRecord>): CertStatus {
    match found
    case None => Unknown
    case Some(rec) => if rec.status == Revoked then RevokedAt(rec.revokedAt, rec.reason) else Good
  }

  // answer is what a request read at now is told of a serial, dated back and in whole seconds.
  predicate Answers(answer: Cached, cert: ResponderCert, serial: int, now: Instant, window: Span) {
    var r := answer.response;
    && r.serial == serial && r.asked == now && r.cert == cert && answer.nextUpdate == now + window
    && SameSecond(now - CLOCK_SKEW, r.thisUpdate) && SameSecond(now + window, r.nextUpdate)
  }

  function Answer(cert: ResponderCert, serial: int, now: Instant, found: Option<CertRecord>, window: Span): (answer: Cached)
    ensures Answers(answer, cert, serial, now, window)
    ensures answer.response.status.Unknown? <==> found.None?
    ensures answer.response.status.Good? <==> found.Some? && found.value.status == Valid
    ensures found.Some? && found.value.status == Revoked ==>
              answer.response.status == RevokedAt(found.value.revokedAt, found.value.reason)
  {
    Cached(
      Response(serial, StatusOf(found), now,
               TruncateToSecond(now - CLOCK_SKEW), TruncateToSecond(now + window), cert),
      now + window)
  }

  // The write after signing: only under the certificate the response was signed with.
  function Kept(r: Responder, answer: Cached): Responder {
    if r.cert == Some(answer.response.cert)
    then r.(cache := r.cache[answer.response.serial := answer])
    else r
  }

  function Dropped(r: Responder): Responder {
    r.(cache := map[])
  }

  function Renewed(cert: ResponderCert): Responder {
    Responder(Some(cert), map[])
  }

  // The certificate issued over the responder key at an instant.
  function IssuedAt(id: nat, serial: int, now: Instant, validity: Span): (cert: ResponderCert)
    ensures cert.id == id && cert.serial == serial
    ensures SameSecond(now - CLOCK_SKEW, cert.notBefore) && SameSecond(now + validity, cert.notAfter)
  {
    ResponderCert(id, serial, TruncateToSecond(now - CLOCK_SKEW), TruncateToSecond(now + validity))
  }
}
