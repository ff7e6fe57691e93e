/**
CRL numbers over the life of a deployment (internal/store/sqlite.go, memory.go): numbers
handed out, calls that fail, restarts over the same store, and stores lost and rebuilt
empty, each opening with its own configured floor. Section 5.2.3 of RFC 5280 asks that the
numbers increase: a verifier ignores every CRL numbered below one it holds.
*/
module CrlNumber {
  import opened Clock
  import opened Store
  import opened Wrappers

  datatype Counter = Counter(last: Option<int>, floor: Option<int>)

  datatype Event =
    | HandOut(now: Instant)
    | Fail(now: Instant)
    | Reopen(floor: Option<int>)
    | Rebuild(floor: Option<int>)

  function After(c: Counter, e: Event): Counter {
    match e
    case HandOut(now) => c.(last := Some(NextNumber(c.last, c.floor, now)))
    case Fail(_) => c
    case Reopen(floor) => c.(floor := floor)
    case Rebuild(floor) => Counter(None, floor)
  }

  // The numbers a run hands out, in order.
  function Numbers(c: Counter, run: seq<Event>): seq<int>
    decreases run
  {
    if run == [] then []
    else
      var rest := Numbers(After(c, run[0]), run[1..]);
      if run[0].HandOut? then [NextNumber(c.last, c.floor, run[0].now)] + rest else rest
  }

  ghost predicate Increasing(ns: seq<int>) {
    forall i, j :: 0 <= i < j < |ns| ==> ns[i] < ns[j]
  }

  ghost predicate AllAbove(ns: seq<int>, bound: Option<int>) {
    bound.Some? ==> forall i :: 0 <= i < |ns| ==> bound.value < ns[i]
  }

  // Every number that must be seeded finds either the clock or the configured floor above
  // the highest number already out. An operator can check it before reopening a rebuilt store.
  predicate SeedsAbove(c: Counter, run: seq<Event>, highest: Option<int>)
    decreases run
  {
    run == [] ||
    match run[0]
    case HandOut(now) =>
      && (c.last.None? && highest.Some? ==>
            SeedCrlNumber(now) > highest.value || (c.floor.Some? && c.floor.value > highest.value))
      && SeedsAbove(After(c, run[0]), run[1..], Some(NextNumber(c.last, c.floor, now)))
    case _ => SeedsAbove(After(c, run[0]), run[1..], highest)
  }

  // The counter continues the numbers already out, or is empty.
  predicate Continues(c: Counter, highest: Option<int>) {
    c.last.Some? ==> highest == c.last
  }

  /**
  The numbers of a run increase, and stay above those already out, exactly when every seed
  is drawn from a clock or a floor above the last number.
  */
  lemma {:induction false} IncreasingIffSeedsAbove(c: Counter, run: seq<Event>, highest: Option<int>)
    requires Continues(c, highest)
    ensures SeedsAbove(c, run, highest) <==>
            Increasing(Numbers(c, run)) && AllAbove(Numbers(c, run), highest)
    decreases run
  {
    if run == [] {
    } else {
      var next := After(c, run[0]);
      var rest := Numbers(next, run[1..]);
      if run[0].HandOut? {
        var n := NextNumber(c.last, c.floor, run[0].now);
        IncreasingIffSeedsAbove(next, run[1..], Some(n));
        assert Numbers(c, run) == [n] + rest;
        assert Increasing(Numbers(c, run)) <==> Increasing(rest) && AllAbove(rest, Some(n)) by {
          if Increasing(Numbers(c, run)) {
            forall i, j | 0 <= i < j < |rest| ensures rest[i] < rest[j] {
              assert Numbers(c, run)[i + 1] < Numbers(c, run)[j + 1];
            }
            forall i | 0 <= i < |rest| ensures n < rest[i] {
              assert Numbers(c, run)[0] < Numbers(c, run)[i + 1];
            }
          }
        }
        if Increasing(rest) && AllAbove(rest, Some(n)) && highest.Some? && highest.value < n {
          assert AllAbove(Numbers(c, run), highest);
        }
        assert AllAbove(Numbers(c, run), highest) ==> (highest.Some? ==> highest.value < Numbers(c, run)[0]);
      } else {
        IncreasingIffSeedsAbove(next, run[1..], highest);
      }
    }
  }

  predicate KeepsStore(run: seq<Event>) {
    forall e <- run :: !e.Rebuild?
  }

  /** One store: restarts, new floors and failed calls never disturb the order. */
  lemma {:induction false} OneStoreIncreases(c: Counter, run: seq<Event>)
    requires KeepsStore(run)
    ensures Increasing(Numbers(c, run))
    ensures AllAbove(Numbers(c, run), c.last)
  {
    KeptStoreSeedsOnce(c, run);
    IncreasingIffSeedsAbove(c, run, c.last);
  }

  lemma {:induction false} KeptStoreSeedsOnce(c: Counter, run: seq<Event>)
    requires KeepsStore(run)
    ensures SeedsAbove(c, run, c.last)
    decreases run
  {
    if run == [] {
    } else {
      assert run[0] in run;
      assert forall e <- run[1..] :: e in run;
      KeptStoreSeedsOnce(After(c, run[0]), run[1..]);
    }
  }

  // The clock stands after the epoch, gains a millisecond per number handed out, and no
  // configured floor is ahead of it when a store is seeded.
  predicate Paced(c: Counter, run: seq<Event>, previous: Option<Instant>)
    decreases run
  {
    run == [] ||
    match run[0]
    case HandOut(now) =>
      && UnixMilli(now) >= 1
      && (previous.Some? ==> now >= previous.value + MILLISECOND)
      && (c.last.None? && c.floor.Some? ==> c.floor.value <= UnixMilli(now))
      && Paced(After(c, run[0]), run[1..], Some(now))
    case _ => Paced(After(c, run[0]), run[1..], previous)
  }

  /** With such a clock the numbers increase across any number of lost stores. */
  lemma PacedClockIncreases(floor: Option<int>, run: seq<Event>)
    requires Paced(Counter(None, floor), run, None)
    ensures Increasing(Numbers(Counter(None, floor), run))
  {
    PacedSeedsAbove(Counter(None, floor), run, None, None);
    IncreasingIffSeedsAbove(Counter(None, floor), run, None);
  }

  // What the pace maintains: no number is ahead of the millisecond it was handed out in.
  lemma {:induction false} PacedSeedsAbove(c: Counter, run: seq<Event>, highest: Option<int>, previous: Option<Instant>)
    requires Paced(c, run, previous) && Continues(c, highest)
    requires highest.Some? ==> previous.Some? && highest.value <= UnixMilli(previous.value)
    ensures SeedsAbove(c, run, highest)
    decreases run
  {
    if run == [] {
    } else {
      match run[0] {
        case HandOut(now) =>
          if previous.Some? {
            assert UnixMilli(now) >= UnixMilli(previous.value + MILLISECOND) == UnixMilli(previous.value) + 1;
          }
          PacedSeedsAbove(After(c, run[0]), run[1..], Some(NextNumber(c.last, c.floor, now)), Some(now));
        case _ =>
          PacedSeedsAbove(After(c, run[0]), run[1..], highest, previous);
      }
    }
  }

  /**
  The pace is needed: two numbers in one millisecond, a lost store and a third number in
  that millisecond, and verifiers holding the second CRL ignore the third.
  */
  lemma StalledClockRepeats(now: Instant)
    requires UnixMilli(now) >= 1
    ensures !Increasing(Numbers(Counter(None, None), [HandOut(now), HandOut(now), Rebuild(None), HandOut(now)]))
  {
    var c := Counter(None, None);
    var run := [HandOut(now), HandOut(now), Rebuild(None), HandOut(now)];
    var n := UnixMilli(now);
    assert Numbers(c, run[3..]) == [n] by {
      assert run[3..][1..] == [];
    }
    assert Numbers(Counter(Some(n + 1), None), run[2..]) == [n] by {
      assert run[2..][1..] == run[3..];
    }
    assert Numbers(Counter(Some(n), None), run[1..]) == [n + 1, n] by {
      assert run[1..][1..] == run[2..];
    }
    assert Numbers(c, run) == [n, n + 1, n];
    assert Numbers(c, run)[0] == Numbers(c, run)[2];
  }

  /**
  So is a clock past the epoch: before it every seed is 1, whatever the clock gains.
  */
  lemma ClockBeforeEpochRepeats(a: Instant, b: Instant)
    requires UnixMilli(a) < 1 && UnixMilli(b) < 1
    ensures !Increasing(Numbers(Counter(None, None), [HandOut(a), Rebuild(None), HandOut(b)]))
  {
    var c := Counter(None, None);
    var run := [HandOut(a), Rebuild(None), HandOut(b)];
    assert Numbers(c, run[2..]) == [1] by {
      assert run[2..][1..] == [];
    }
    assert Numbers(Counter(Some(1), None), run[1..]) == [1] by {
      assert run[1..][1..] == run[2..];
    }
    assert Numbers(c, run) == [1, 1];
    assert Numbers(c, run)[0] == Numbers(c, run)[1];
  }
}
