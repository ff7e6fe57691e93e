/**
Instants and spans, both in nanoseconds, and the two roundings the service applies to
them. A certificate, a CRL and a stored row carry whole seconds; a CRL number is seeded
from whole milliseconds. Division and remainder by a positive number round down here, as
the source's truncation of an instant does on both sides of the epoch.
*/
module Clock {

  type Instant = int
  type Span = int

  const MILLISECOND: Span := 1_000_000
  const SECOND: Span := 1_000_000_000
  const MINUTE: Span := 60 * SECOND
  const HOUR: Span := 60 * MINUTE
  const DAY: Span := 24 * HOUR

  // How far issuance, CRLs and OCSP responses are backdated.
  const CLOCK_SKEW: Span := 5 * MINUTE

  // The instant of a zero-valued time: the first second of the year 1.
  const ZERO_INSTANT: Instant := -62_135_596_800 * SECOND

  function TruncateToSecond(t: Instant): (r: Instant)
    ensures r <= t < r + SECOND
    ensures r % SECOND == 0
  {
    t - t % SECOND
  }

  function UnixMilli(t: Instant): (ms: int)
    ensures ms * MILLISECOND <= t < (ms + 1) * MILLISECOND
  {
    t / MILLISECOND
  }

  predicate WholeSecond(t: Instant) {
    t % SECOND == 0
  }

  // w is t as it is encoded or stored, in whole seconds.
  predicate SameSecond(t: Instant, w: Instant) {
    w % SECOND == 0 && w <= t < w + SECOND
  }

  // A whole second is not after t exactly when it is not after t's own second.
  lemma TruncateIsGreatest(t: Instant, w: Instant)
    requires WholeSecond(w)
    ensures w <= t <==> w <= TruncateToSecond(t)
  {
    var k := w / SECOND;
    var q := t / SECOND;
    assert w == k * SECOND && TruncateToSecond(t) == q * SECOND;
  }

  lemma TruncateIsMonotone(a: Instant, b: Instant)
    requires a <= b
    ensures TruncateToSecond(a) <= TruncateToSecond(b)
  {
    TruncateIsGreatest(b, TruncateToSecond(a));
  }

  // Truncation never reverses a window of at least a second, nor one that ends on a
  // whole second.
  lemma TruncateKeepsWindow(a: Instant, b: Instant)
    requires a + SECOND <= b || (a < b && WholeSecond(b))
    ensures TruncateToSecond(a) < TruncateToSecond(b)
  {
    if a + SECOND <= b {
      TruncateIsGreatest(b, TruncateToSecond(a) + SECOND);
    } else {
      TruncateIsGreatest(b, b);
    }
  }

  // A whole-second shift commutes with truncation.
  lemma TruncateShift(t: Instant, w: Span)
    requires WholeSecond(w)
    ensures TruncateToSecond(t + w) == TruncateToSecond(t) + w
  {
    var q, k := t / SECOND, w / SECOND;
    var rest := t % SECOND;
    assert t + w == (q + k) * SECOND + rest;
    RemainderOf(q + k, rest);
  }

  lemma RemainderOf(q: int, rest: int)
    requires 0 <= rest < SECOND
    ensures (q * SECOND + rest) % SECOND == rest
  {
  }
}
