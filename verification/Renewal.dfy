/**
The background renewal of the responder certificate (RunRenewal and dueForRenewal in
internal/responder/responder.go): a ticker, a check for half the certificate's life, and
renewals that may fail. How many in a row it can afford is settled by the check interval
and the profile's validity.
*/
module Renewal {
  import opened Clock
  import opened Ocsp
  import opened Server
  import opened Wrappers

  // One tick of the loop, and whether a renewal attempted then succeeds, and with which serial.
  datatype Tick = Tick(at: Instant, succeeds: bool, serial: int)

  function Half(cert: ResponderCert): Instant {
    cert.notBefore + (cert.notAfter - cert.notBefore) / 2
  }

  predicate DueForRenewal(cert: ResponderCert, now: Instant) {
    now > Half(cert)
  }

  function AfterTick(cert: ResponderCert, tick: Tick, validity: Span): ResponderCert {
    if DueForRenewal(cert, tick.at) && tick.succeeds
    then IssuedAt(cert.id + 1, tick.serial, tick.at, validity)
    else cert
  }

  function AfterTicks(cert: ResponderCert, ticks: seq<Tick>, validity: Span): ResponderCert
    decreases ticks
  {
    if ticks == [] then cert else AfterTicks(AfterTick(cert, ticks[0], validity), ticks[1..], validity)
  }

  // The renewals that have failed in a row once a tick has passed.
  function FailuresAfter(failures: nat, cert: ResponderCert, tick: Tick): nat {
    if !DueForRenewal(cert, tick.at) then failures
    else if tick.succeeds then 0
    else failures + 1
  }

  // The ticker fires within the interval every time, and at most k renewals fail in a row.
  predicate Ticking(last: Instant, ticks: seq<Tick>, interval: Span, cert: ResponderCert, failures: nat, k: nat, validity: Span)
    decreases ticks
  {
    failures <= k &&
    (ticks == [] ||
     (&& last <= ticks[0].at <= last + interval
      && Ticking(ticks[0].at, ticks[1..], interval, AfterTick(cert, ticks[0], validity),
                 FailuresAfter(failures, cert, ticks[0]), k, validity)))
  }

  // A profile's validity is configured in whole hours.
  predicate ProfileValidity(validity: Span) {
    validity >= HOUR && WholeSecond(validity)
  }

  // Half a life leaves room for k failures and the attempt that ends them.
  predicate Affords(interval: Span, k: nat, validity: Span) {
    interval > 0 && (k + 1) * interval <= (validity + CLOCK_SKEW) / 2
  }

  // What the loop keeps: the last tick is at most one interval per failure past the half.
  ghost predicate OnTime(last: Instant, cert: ResponderCert, failures: nat, interval: Span, validity: Span) {
    && cert.notAfter == cert.notBefore + validity + CLOCK_SKEW
    && last <= Half(cert) + failures * interval
    && (failures > 0 ==> DueForRenewal(cert, last))
  }

  // A certificate just issued has at least half its life left.
  lemma JustIssuedIsOnTime(id: nat, serial: int, now: Instant, interval: Span, validity: Span)
    requires ProfileValidity(validity)
    ensures OnTime(now, IssuedAt(id, serial, now, validity), 0, interval, validity)
  {
    var cert := IssuedAt(id, serial, now, validity);
    SkewIsWhole();
    TruncateShift(now, validity);
    TruncateShift(now, -CLOCK_SKEW);
  }

  lemma SkewIsWhole()
    ensures WholeSecond(CLOCK_SKEW) && WholeSecond(-CLOCK_SKEW)
  {
  }

  lemma UnexpiredUntilNextTick(last: Instant, cert: ResponderCert, failures: nat, interval: Span, k: nat, validity: Span)
    requires Affords(interval, k, validity) && failures <= k && OnTime(last, cert, failures, interval, validity)
    ensures last + interval <= cert.notAfter
  {
    assert (failures + 1) * interval <= (k + 1) * interval;
  }

  lemma TickKeepsOnTime(last: Instant, tick: Tick, cert: ResponderCert, failures: nat, interval: Span, k: nat, validity: Span)
    requires Affords(interval, k, validity) && failures <= k && ProfileValidity(validity)
    requires OnTime(last, cert, failures, interval, validity) && last <= tick.at <= last + interval
    ensures OnTime(tick.at, AfterTick(cert, tick, validity), FailuresAfter(failures, cert, tick), interval, validity)
  {
    if DueForRenewal(cert, tick.at) {
      if tick.succeeds {
        JustIssuedIsOnTime(cert.id + 1, tick.serial, tick.at, interval, validity);
      } else {
        assert (failures + 1) * interval == failures * interval + interval;
      }
    }
  }

  // now lies after n ticks and not after the next one, which comes within the interval.
  predicate Between(last: Instant, ticks: seq<Tick>, interval: Span, n: nat, now: Instant) {
    && n <= |ticks|
    && (if n == 0 then last else ticks[n - 1].at) <= now
    && now <= (if n < |ticks| then ticks[n].at else (if n == 0 then last else ticks[n - 1].at) + interval)
  }

  /**
  The renewal bound. From a certificate just issued, while the ticker keeps its interval and
  no more than k renewals fail in a row, the certificate in use at any instant, up to the
  next tick however far off, has not expired.
  */
  lemma {:induction false} NeverExpires(last: Instant, ticks: seq<Tick>, interval: Span, cert: ResponderCert,
                                        failures: nat, k: nat, validity: Span, n: nat, now: Instant)
    requires Affords(interval, k, validity) && ProfileValidity(validity)
    requires OnTime(last, cert, failures, interval, validity) && Ticking(last, ticks, interval, cert, failures, k, validity)
    requires Between(last, ticks, interval, n, now)
    ensures now <= AfterTicks(cert, ticks[..n], validity).notAfter
    decreases ticks
  {
    if n == 0 {
      UnexpiredUntilNextTick(last, cert, failures, interval, k, validity);
    } else {
      var tick := ticks[0];
      TickKeepsOnTime(last, tick, cert, failures, interval, k, validity);
      NeverExpires(tick.at, ticks[1..], interval, AfterTick(cert, tick, validity),
                   FailuresAfter(failures, cert, tick), k, validity, n - 1, now);
      assert ticks[..n][1..] == ticks[1..][..n - 1];
    }
  }

  // The bound is exact: past it, the slowest ticker that still keeps its interval outlives
  // the certificate.

  // Ticks at the interval up to instant to, and one there.
  function Walk(from: Instant, goal: Instant, interval: Span): seq<Tick>
    requires from <= goal && interval > 0
    decreases goal - from
  {
    if from + interval >= goal
    then [Tick(goal, false, 1)]
    else [Tick(from + interval, false, 1)] + Walk(from + interval, goal, interval)
  }

  function Failing(from: Instant, interval: Span, k: nat): seq<Tick>
    decreases k
  {
    if k == 0 then [] else [Tick(from + interval, false, 1)] + Failing(from + interval, interval, k - 1)
  }

  lemma OneTimesMore(k: nat, interval: Span)
    requires k > 0
    ensures k * interval == interval + (k - 1) * interval
  {
  }

  // The last of the failing ticks.
  lemma {:induction false} FailingEnds(from: Instant, interval: Span, left: nat)
    requires left > 0
    ensures |Failing(from, interval, left)| == left
    ensures Failing(from, interval, left)[left - 1].at == from + left * interval
    decreases left
  {
    OneTimesMore(left, interval);
    if left == 1 {
      assert Failing(from + interval, interval, 0) == [];
    } else {
      FailingEnds(from + interval, interval, left - 1);
    }
  }

  lemma {:induction false} FailingTicks(from: Instant, interval: Span, cert: ResponderCert, failures: nat, left: nat, validity: Span)
    requires interval > 0 && from >= Half(cert)
    ensures Ticking(from, Failing(from, interval, left), interval, cert, failures, failures + left, validity)
    ensures AfterTicks(cert, Failing(from, interval, left), validity) == cert
    decreases left
  {
    if left == 0 {
    } else {
      FailingTicks(from + interval, interval, cert, failures + 1, left - 1, validity);
      assert Failing(from, interval, left)[1..] == Failing(from + interval, interval, left - 1);
    }
  }

  // One tick before half-life leaves the certificate and the count of failures alone.
  lemma EarlyTick(from: Instant, tick: Tick, rest: seq<Tick>, interval: Span, cert: ResponderCert, k: nat, validity: Span)
    requires from <= tick.at <= from + interval && tick.at <= Half(cert)
    requires Ticking(tick.at, rest, interval, cert, 0, k, validity) && AfterTicks(cert, rest, validity) == cert
    ensures Ticking(from, [tick] + rest, interval, cert, 0, k, validity)
    ensures AfterTicks(cert, [tick] + rest, validity) == cert
  {
    assert ([tick] + rest)[1..] == rest;
    assert AfterTick(cert, tick, validity) == cert && FailuresAfter(0, cert, tick) == 0;
  }

  // What the slowest ticker does from an instant no later than half-life: ticks up to
  // half-life, and k failures after it, the last of them held after it.
  ghost predicate Slowest(from: Instant, ticks: seq<Tick>, interval: Span, cert: ResponderCert, k: nat, held: Span, validity: Span) {
    && Ticking(from, ticks, interval, cert, 0, k, validity)
    && AfterTicks(cert, ticks, validity) == cert
    && ticks != [] && ticks[|ticks| - 1].at == Half(cert) + held
  }

  lemma LastWalk(from: Instant, interval: Span, cert: ResponderCert, k: nat, validity: Span)
    requires interval > 0 && from <= Half(cert) <= from + interval
    ensures Slowest(from, [Tick(Half(cert), false, 1)] + Failing(Half(cert), interval, k), interval, cert, k, k * interval, validity)
  {
    var half := Half(cert);
    FailingTicks(half, interval, cert, 0, k, validity);
    if k > 0 {
      FailingEnds(half, interval, k);
    }
    EarlyTick(from, Tick(half, false, 1), Failing(half, interval, k), interval, cert, k, validity);
  }

  lemma EarlierWalk(from: Instant, tick: Tick, later: seq<Tick>, interval: Span, cert: ResponderCert, k: nat, held: Span, validity: Span)
    requires from <= tick.at <= from + interval && tick.at <= Half(cert)
    requires Slowest(tick.at, later, interval, cert, k, held, validity)
    ensures Slowest(from, [tick] + later, interval, cert, k, held, validity)
  {
    EarlyTick(from, tick, later, interval, cert, k, validity);
    assert ([tick] + later)[|later|] == later[|later| - 1];
  }

  lemma {:induction false} WalkThenFail(from: Instant, interval: Span, cert: ResponderCert, k: nat, validity: Span)
    requires interval > 0 && from <= Half(cert)
    ensures Slowest(from, Walk(from, Half(cert), interval) + Failing(Half(cert), interval, k), interval, cert, k, k * interval, validity)
    decreases Half(cert) - from
  {
    var half := Half(cert);
    if from + interval >= half {
      LastWalk(from, interval, cert, k, validity);
    } else {
      WalkThenFail(from + interval, interval, cert, k, validity);
      var tick, later := Tick(from + interval, false, 1), Walk(from + interval, half, interval);
      EarlierWalk(from, tick, later + Failing(half, interval, k), interval, cert, k, k * interval, validity);
      assert [tick] + later + Failing(half, interval, k) == [tick] + (later + Failing(half, interval, k));
    }
  }

  ghost predicate AlwaysUnexpired(start: Instant, cert: ResponderCert, interval: Span, k: nat, validity: Span) {
    forall ticks: seq<Tick>, n: nat, now: Instant ::
      Ticking(start, ticks, interval, cert, 0, k, validity) && Between(start, ticks, interval, n, now) ==>
        now <= AfterTicks(cert, ticks[..n], validity).notAfter
  }

  /**
  With a check interval i, a profile validity V and a skew d, a certificate just issued is
  kept alive through every run with at most k failures in a row if and only if
  (k + 1) * i is at most (V + d) / 2.
  */
  lemma RenewalBoundIsExact(id: nat, serial: int, start: Instant, interval: Span, k: nat, validity: Span)
    requires ProfileValidity(validity) && interval > 0
    ensures AlwaysUnexpired(start, IssuedAt(id, serial, start, validity), interval, k, validity)
       <==> Affords(interval, k, validity)
  {
    var cert := IssuedAt(id, serial, start, validity);
    JustIssuedIsOnTime(id, serial, start, interval, validity);
    if Affords(interval, k, validity) {
      forall ticks: seq<Tick>, n: nat, now: Instant |
        Ticking(start, ticks, interval, cert, 0, k, validity) && Between(start, ticks, interval, n, now)
        ensures now <= AfterTicks(cert, ticks[..n], validity).notAfter
      {
        NeverExpires(start, ticks, interval, cert, 0, k, validity, n, now);
      }
    } else {
      SlowestOutlives(start, cert, interval, k, validity);
    }
  }

  // k failures after half-life and one more interval, when that is not afforded.
  lemma PastTheEnd(notBefore: Instant, notAfter: Instant, held: Span, interval: Span, life: Span)
    requires notAfter == notBefore + life && life - life / 2 == life / 2 && held + interval > life / 2
    ensures notBefore + (notAfter - notBefore) / 2 + held + interval > notAfter
  {
  }

  lemma SlowestOutlives(start: Instant, cert: ResponderCert, interval: Span, k: nat, validity: Span)
    requires interval > 0 && WholeSecond(validity) && OnTime(start, cert, 0, interval, validity) && !Affords(interval, k, validity)
    ensures !AlwaysUnexpired(start, cert, interval, k, validity)
  {
    var held: Span := k * interval;
    var life := validity + CLOCK_SKEW;
    assert (k + 1) * interval == held + interval;
    assert WholeSecond(life) by {
      SumIsWhole(validity, CLOCK_SKEW);
    }
    EvenSeconds(life);
    PastTheEnd(cert.notBefore, cert.notAfter, held, interval, life);
    WalkThenFail(start, interval, cert, k, validity);
    var ticks := Walk(start, Half(cert), interval) + Failing(Half(cert), interval, k);
    var now := Half(cert) + held + interval;
    assert ticks[..|ticks|] == ticks;
    assert now > cert.notAfter && Between(start, ticks, interval, |ticks|, now);
  }

  lemma SumIsWhole(w: Span, w': Span)
    requires WholeSecond(w) && WholeSecond(w')
    ensures WholeSecond(w + w')
  {
  }

  lemma EvenSeconds(w: Span)
    requires WholeSecond(w)
    ensures w - w / 2 == w / 2
  {
    var seconds, halves := w / SECOND, SECOND / 2;
    assert w == 2 * (seconds * halves) by {
      assert w == seconds * SECOND && SECOND == 2 * halves;
    }
    HalfOfDouble(seconds * halves);
  }

  lemma HalfOfDouble(n: int)
    ensures 2 * n - (2 * n) / 2 == n == (2 * n) / 2
  {
  }

  lemma {:induction false} AfterOneMoreTick(cert: ResponderCert, ticks: seq<Tick>, n: nat, validity: Span)
    requires n < |ticks|
    ensures AfterTicks(cert, ticks[..n + 1], validity) == AfterTick(AfterTicks(cert, ticks[..n], validity), ticks[n], validity)
    decreases n
  {
    if n == 0 {
      assert ticks[..1][1..] == [];
    } else {
      var first := AfterTick(cert, ticks[0], validity);
      AfterOneMoreTick(first, ticks[1..], n - 1, validity);
      assert ticks[..n + 1][1..] == ticks[1..][..n] && ticks[..n][1..] == ticks[1..][..n - 1];
    }
  }

  /**
  The loop itself, over the responder object: it installs what the ticks say and nothing
  else, and at every tick the certificate it finds installed is still inside its life.
  */
  method RunRenewal(responder: OcspResponder, started: Instant, ticks: seq<Tick>, interval: Span, ghost k: nat, validity: Span)
    requires Affords(interval, k, validity) && ProfileValidity(validity)
    requires responder.cert.Some? && OnTime(started, responder.cert.value, 0, interval, validity)
    requires Ticking(started, ticks, interval, responder.cert.value, 0, k, validity)
    modifies responder
    ensures responder.cert == Some(AfterTicks(old(responder.cert).value, ticks, validity))
    ensures responder.cert == old(responder.cert) ==> responder.cache == old(responder.cache)
    ensures forall n :: 0 <= n < |ticks| ==>
              ticks[n].at <= AfterTicks(old(responder.cert).value, ticks[..n], validity).notAfter
  {
    ghost var first := responder.cert.value;
    ghost var cacheThen := responder.cache;
    for n := 0 to |ticks|
      invariant responder.cert == Some(AfterTicks(first, ticks[..n], validity))
      invariant responder.cert.value.id >= first.id
      invariant responder.cert.value.id == first.id ==> responder.cache == cacheThen
    {
      AfterOneMoreTick(first, ticks, n, validity);
      var cert := responder.cert.value;
      if DueForRenewal(cert, ticks[n].at) && ticks[n].succeeds {
        responder.Swap(IssuedAt(cert.id + 1, ticks[n].serial, ticks[n].at, validity));
      }
    }
    assert ticks[..|ticks|] == ticks;
    forall n | 0 <= n < |ticks| ensures ticks[n].at <= AfterTicks(first, ticks[..n], validity).notAfter {
      TicksAreOrdered(started, ticks, interval, first, 0, k, validity, n);
      NeverExpires(started, ticks, interval, first, 0, k, validity, n, ticks[n].at);
    }
  }

  lemma {:induction false} TicksAreOrdered(last: Instant, ticks: seq<Tick>, interval: Span, cert: ResponderCert,
                                           failures: nat, k: nat, validity: Span, n: nat)
    requires Ticking(last, ticks, interval, cert, failures, k, validity) && n < |ticks|
    ensures (if n == 0 then last else ticks[n - 1].at) <= ticks[n].at
    decreases ticks
  {
    if n == 0 {
    } else {
      TicksAreOrdered(ticks[0].at, ticks[1..], interval, AfterTick(cert, ticks[0], validity),
                      FailuresAfter(failures, cert, ticks[0]), k, validity, n - 1);
    }
  }
}
