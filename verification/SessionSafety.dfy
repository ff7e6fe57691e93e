/**
Every interleaving of the adapter's session calls (internal/pkcs11/base.go, tokenlogin.go),
one step for each region a lock covers. The sweep and the shutdown take their entries one
step at a time, which allows more interleavings than the locks do. The log records what
happened; no step reads it.
*/
module SessionSafety {
  import opened Clock
  import opened Sessions
  import opened Wrappers

  datatype Event =
    | Opened(h: Handle, at: Instant, idle: Span, ttl: Span)
    | Used(h: Handle, at: Instant)
    | Retired(h: Handle)
    | Released(h: Handle)
    | Unlisted(h: Handle)
    | Finalized

  // A CloseSession call: after marking the session, and after an answer that lets it drop
  // the entry.
  datatype ClosePhase = Marking(h: Handle) | Told(h: Handle)

  // issued and open are the module's; the rest is the adapter's. budgets outlives the
  // listing, as callers keep their sessions.
  datatype State = State(
    clock: Instant,
    issued: set<Handle>,
    open: set<Handle>,
    budgets: map<Handle, Budget>,
    listed: set<Handle>,
    registering: set<Handle>,
    closing: map<nat, ClosePhase>,
    sweeping: set<Handle>,
    anchor: Option<Handle>,
    shut: bool,
    log: seq<Event>
  )

  datatype Answer = Done | HandleInvalid | OtherError

  datatype Action =
    | Tick(span: nat)
    | OpenHandle(h: Handle)
    | Register(h: Handle, idle: Span, ttl: Span)
    | Touch(h: Handle)
    | SetLoggedIn(h: Handle, v: bool)
    | StartClose(call: nat, h: Handle)
    | TellModule(call: nat, answer: Answer)
    | Unlist(call: nat)
    | SweepTake(h: Handle)
    | SweepClose(h: Handle, ok: bool)
    | AnchorIn(h: Handle)
    | AnchorFailed(h: Handle, released: bool)
    | AnchorOut(released: bool)
    | ModuleDrops(h: Handle)
    | ShutdownTake(h: Handle)
    | Finalize

  predicate Enabled(s: State, a: Action) {
    match a
    case OpenHandle(h) => !s.shut && h !in s.issued
    case Register(h, _, _) => h in s.registering
    case Touch(h) => h in s.budgets
    case SetLoggedIn(h, _) => h in s.budgets
    case StartClose(call, h) => call !in s.closing && h in s.budgets
    case TellModule(call, answer) =>
      && call in s.closing && s.closing[call].Marking?
      && (!s.shut ==> (answer == Done ==> s.closing[call].h in s.open) && (answer == HandleInvalid ==> s.closing[call].h !in s.open))
    case Unlist(call) => call in s.closing && s.closing[call].Told?
    case SweepTake(h) => h in s.listed && h in s.budgets && (s.budgets[h].closed || Exceeded(s.budgets[h], s.clock))
    case SweepClose(h, ok) => h in s.sweeping && (ok ==> !s.shut && h in s.open)
    case AnchorIn(h) => !s.shut && s.anchor.None? && h !in s.issued
    case AnchorFailed(h, _) => !s.shut && s.anchor.None? && h !in s.issued
    case AnchorOut(released) => s.anchor.Some? && (released ==> !s.shut && s.anchor.value in s.open)
    case ModuleDrops(h) => h in s.open
    case ShutdownTake(h) => h in s.listed && h in s.budgets
    case _ => true
  }

  function Release(s: State, h: Handle): State {
    s.(open := s.open - {h}, log := s.log + [Released(h)])
  }

  function Mark(s: State, h: Handle): State
    requires h in s.budgets
  {
    s.(budgets := s.budgets[h := Marked(s.budgets[h])], log := s.log + [Retired(h)])
  }

  function Apply(s: State, a: Action): State
    requires Enabled(s, a)
  {
    match a
    case Tick(span) => s.(clock := s.clock + span)
    case OpenHandle(h) => s.(issued := s.issued + {h}, open := s.open + {h}, registering := s.registering + {h})
    case Register(h, idle, ttl) =>
      var b := OpenedWith(idle, ttl, s.clock);
      s.(budgets := s.budgets[h := b], listed := s.listed + {h}, registering := s.registering - {h},
         log := s.log + [Opened(h, s.clock, b.idle, b.ttl)])
    case Touch(h) =>
      var b := s.budgets[h];
      s.(budgets := s.budgets[h := AfterTouch(b, s.clock)],
         log := if b.closed then s.log else if Exceeded(b, s.clock) then s.log + [Retired(h)] else s.log + [Used(h, s.clock)])
    case SetLoggedIn(h, v) => s.(budgets := s.budgets[h := s.budgets[h].(loggedIn := v)])
    case StartClose(call, h) => Mark(s, h).(closing := s.closing[call := Marking(h)])
    case TellModule(call, answer) =>
      var h := s.closing[call].h;
      if s.shut || answer == HandleInvalid then s.(closing := s.closing[call := Told(h)])
      else if answer == Done then Release(s, h).(closing := s.closing[call := Told(h)])
      else s.(closing := s.closing - {call})
    case Unlist(call) =>
      var h := s.closing[call].h;
      s.(listed := s.listed - {h}, closing := s.closing - {call}, log := s.log + [Unlisted(h)])
    case SweepTake(h) => Mark(s, h).(listed := s.listed - {h}, sweeping := s.sweeping + {h})
    case SweepClose(h, ok) => (if ok then Release(s, h) else s).(sweeping := s.sweeping - {h})
    case AnchorIn(h) => s.(issued := s.issued + {h}, open := s.open + {h}, anchor := Some(h))
    case AnchorFailed(h, released) =>
      if released then s.(issued := s.issued + {h}, log := s.log + [Released(h)])
      else s.(issued := s.issued + {h}, open := s.open + {h})
    case AnchorOut(released) => (if released then Release(s, s.anchor.value) else s).(anchor := None)
    case ModuleDrops(h) => Release(s, h)
    case ShutdownTake(h) => Mark(s, h).(listed := s.listed - {h})
    case Finalize => s.(shut := true, open := {}, log := s.log + [Finalized])
  }

  ghost predicate Init(s: State) {
    && s.issued == {} && s.open == {} && s.budgets == map[] && s.listed == {} && s.registering == {}
    && s.closing == map[] && s.sweeping == {} && s.anchor == None && !s.shut && s.log == []
  }

  ghost predicate Runs(s: State, run: seq<Action>, s': State)
    decreases run
  {
    if run == [] then s' == s else Enabled(s, run[0]) && Runs(Apply(s, run[0]), run[1..], s')
  }

  // What the log says of a session.

  // The event that opened it, and its latest use.
  function OpeningOf(log: seq<Event>, h: Handle): Option<Event> {
    if log == [] then None
    else
      var last := log[|log| - 1];
      if last.Opened? && last.h == h then Some(last) else OpeningOf(log[..|log| - 1], h)
  }

  function LastUse(log: seq<Event>, h: Handle): Option<Instant> {
    if log == [] then None
    else
      var last := log[|log| - 1];
      if (last.Opened? || last.Used?) && last.h == h then Some(last.at) else LastUse(log[..|log| - 1], h)
  }

  ghost predicate WasReleased(log: seq<Event>, h: Handle) {
    Released(h) in log || Finalized in log
  }

  // A use within the idle gap since the one before it and within the session's life, and
  // after nothing that retired the session.
  ghost predicate GoodUse(log: seq<Event>, k: nat)
    requires k < |log|
  {
    log[k].Used? ==>
      && var (before, h, at) := (log[..k], log[k].h, log[k].at);
      && OpeningOf(before, h).Some? && OpeningOf(before, h).value.Opened? && LastUse(before, h).Some?
      && at - OpeningOf(before, h).value.at <= OpeningOf(before, h).value.ttl
      && at - LastUse(before, h).value <= OpeningOf(before, h).value.idle
      && Retired(h) !in before
  }

  ghost predicate GoodDrop(log: seq<Event>, k: nat)
    requires k < |log|
  {
    log[k].Unlisted? ==> WasReleased(log[..k], log[k].h)
  }

  // Invariants.

  ghost predicate BudgetInv(s: State, h: Handle)
    requires h in s.budgets
  {
    var b := s.budgets[h];
    && OpeningOf(s.log, h) == Some(Opened(h, b.openedAt, b.idle, b.ttl))
    && LastUse(s.log, h) == Some(b.lastUsedAt)
    && (Retired(h) in s.log ==> b.closed)
  }

  ghost predicate HandlesInv(s: State) {
    && s.open <= s.issued && s.budgets.Keys <= s.issued && s.registering <= s.issued
    && s.budgets.Keys !! s.registering
    && s.listed <= s.budgets.Keys && s.sweeping <= s.budgets.Keys
    && (forall call <- s.closing :: s.closing[call].h in s.budgets)
  }

  // The anchor is nobody's session: no close, sweep or shutdown of sessions reaches it.
  ghost predicate AnchorInv(s: State) {
    s.anchor.Some? ==>
      && s.anchor.value in s.issued && s.anchor.value !in s.budgets && s.anchor.value !in s.registering
      && s.anchor.value !in s.listed && s.anchor.value !in s.sweeping
  }

  ghost predicate ReleaseInv(s: State) {
    && (s.shut ==> Finalized in s.log)
    && (forall h <- s.issued :: h in s.open || WasReleased(s.log, h))
    && (forall call <- s.closing :: s.closing[call].Told? ==> WasReleased(s.log, s.closing[call].h))
  }

  ghost predicate LogInv(log: seq<Event>) {
    forall k :: 0 <= k < |log| ==> GoodUse(log, k) && GoodDrop(log, k)
  }

  // Nothing is logged of a handle that has no session yet.
  ghost predicate UnknownInv(s: State) {
    forall h: Handle :: h !in s.budgets ==> Retired(h) !in s.log
  }

  ghost predicate Inv(s: State) {
    && HandlesInv(s) && AnchorInv(s) && ReleaseInv(s) && LogInv(s.log) && UnknownInv(s)
    && forall h <- s.budgets :: BudgetInv(s, h)
  }

  lemma LogGrows(s: State, a: Action)
    requires Enabled(s, a)
    ensures Apply(s, a).log == s.log || (|Apply(s, a).log| == |s.log| + 1 && Apply(s, a).log[..|s.log|] == s.log)
  {
  }

  lemma LogKeeps(log: seq<Event>, log': seq<Event>)
    requires log' == log || (|log'| == |log| + 1 && log'[..|log|] == log)
    ensures forall e <- log :: e in log'
    ensures forall e <- log' :: e in log || e == log'[|log|]
  {
    forall e <- log ensures e in log' {
      var i :| 0 <= i < |log| && log[i] == e;
      assert log' != log ==> log'[..|log|][i] == e;
    }
    forall e <- log' ensures e in log || e == log'[|log|] {
      var i :| 0 <= i < |log'| && log'[i] == e;
      assert i < |log| ==> log'[..|log|][i] == e;
    }
  }

  lemma StepKeepsOpen(s: State, a: Action)
    requires HandlesInv(s) && Enabled(s, a)
    ensures Apply(s, a).open <= Apply(s, a).issued && s.issued <= Apply(s, a).issued
    ensures s.budgets.Keys <= Apply(s, a).budgets.Keys
  {
  }

  lemma StepKeepsSessions(s: State, a: Action)
    requires HandlesInv(s) && Enabled(s, a)
    ensures
      var s' := Apply(s, a);
      && s'.budgets.Keys <= s'.issued && s'.registering <= s'.issued && s'.budgets.Keys !! s'.registering
  {
  }

  lemma StepKeepsLists(s: State, a: Action)
    requires HandlesInv(s) && Enabled(s, a)
    ensures
      var s' := Apply(s, a);
      && s'.listed <= s'.budgets.Keys && s'.sweeping <= s'.budgets.Keys
      && forall call <- s'.closing :: s'.closing[call].h in s'.budgets
  {
  }

  lemma StepKeepsAnchor(s: State, a: Action)
    requires HandlesInv(s) && AnchorInv(s) && Enabled(s, a)
    ensures AnchorInv(Apply(s, a))
  {
  }

  lemma StepKeepsHandles(s: State, a: Action)
    requires HandlesInv(s) && AnchorInv(s) && Enabled(s, a)
    ensures HandlesInv(Apply(s, a)) && AnchorInv(Apply(s, a))
  {
    StepKeepsOpen(s, a);
    StepKeepsSessions(s, a);
    StepKeepsLists(s, a);
    StepKeepsAnchor(s, a);
  }

  lemma StepKeepsRelease(s: State, a: Action)
    requires HandlesInv(s) && ReleaseInv(s) && Enabled(s, a)
    ensures ReleaseInv(Apply(s, a))
  {
    var s' := Apply(s, a);
    LogGrows(s, a);
    LogKeeps(s.log, s'.log);
    if s'.log != s.log {
      assert s'.log[|s.log|] in s'.log;
    }
  }

  lemma StepKeepsUnknown(s: State, a: Action)
    requires HandlesInv(s) && UnknownInv(s) && Enabled(s, a)
    ensures UnknownInv(Apply(s, a))
  {
    LogGrows(s, a);
    LogKeeps(s.log, Apply(s, a).log);
  }

  // One more event leaves what the log says of a session unless it is about that session.
  lemma LogSaysTheSame(log: seq<Event>, e: Event, h: Handle)
    ensures OpeningOf(log + [e], h) == if e.Opened? && e.h == h then Some(e) else OpeningOf(log, h)
    ensures LastUse(log + [e], h) == if (e.Opened? || e.Used?) && e.h == h then Some(e.at) else LastUse(log, h)
    ensures Retired(h) in log + [e] <==> Retired(h) in log || e == Retired(h)
  {
    assert (log + [e])[..|log|] == log;
  }

  // The event a step logs, with what the step makes of a session.
  lemma StepLogs(s: State, a: Action, h: Handle)
    requires HandlesInv(s) && Enabled(s, a) && h in Apply(s, a).budgets
    ensures
      var s' := Apply(s, a);
      || (h in s.budgets && SameBudget(s.budgets[h], s'.budgets[h]) && (s'.log == s.log || exists e :: s'.log == s.log + [e] && !About(e, h)))
      || (h in s.budgets && s'.log == s.log + [Retired(h)] && s'.budgets[h] == Marked(s.budgets[h]))
      || (a == Touch(h) && !s.budgets[h].closed && s'.log == s.log + [Used(h, s.clock)] && s'.budgets[h] == s.budgets[h].(lastUsedAt := s.clock))
      || (a.Register? && a.h == h && h !in s.budgets
          && s'.log == s.log + [Opened(h, s.clock, s'.budgets[h].idle, s'.budgets[h].ttl)]
          && s'.budgets[h].openedAt == s'.budgets[h].lastUsedAt == s.clock)
  {
    var s' := Apply(s, a);
    if s'.log != s.log {
      var e := s'.log[|s.log|];
      assert s'.log == s.log + [e];
    }
  }

  predicate About(e: Event, h: Handle) {
    (e.Opened? || e.Used? || e.Retired?) && e.h == h
  }

  // All but the login flag.
  predicate SameBudget(b: Budget, b': Budget) {
    b' == b.(loggedIn := b'.loggedIn)
  }

  lemma StepKeepsBudget(s: State, a: Action, h: Handle)
    requires Inv(s) && Enabled(s, a) && h in Apply(s, a).budgets
    ensures BudgetInv(Apply(s, a), h)
  {
    var s' := Apply(s, a);
    StepLogs(s, a, h);
    if h in s.budgets {
      assert BudgetInv(s, h);
    }
    if s'.log != s.log {
      LogGrows(s, a);
      var e := s'.log[|s.log|];
      assert s'.log == s.log + [e];
      LogSaysTheSame(s.log, e, h);
    }
  }

  lemma StepKeepsLog(s: State, a: Action)
    requires Inv(s) && Enabled(s, a)
    ensures LogInv(Apply(s, a).log)
  {
    var s' := Apply(s, a);
    LogGrows(s, a);
    forall k | 0 <= k < |s'.log| ensures GoodUse(s'.log, k) && GoodDrop(s'.log, k) {
      if k < |s.log| {
        assert s'.log[..k] == s.log[..k] && s'.log[k] == s.log[k];
        assert GoodUse(s.log, k) && GoodDrop(s.log, k);
      } else {
        assert s'.log[..k] == s.log;
        if a.Touch? {
          assert BudgetInv(s, a.h);
        }
      }
    }
  }

  lemma StepKeepsInv(s: State, a: Action)
    requires Inv(s) && Enabled(s, a)
    ensures Inv(Apply(s, a))
  {
    StepKeepsHandles(s, a);
    StepKeepsRelease(s, a);
    StepKeepsUnknown(s, a);
    StepKeepsLog(s, a);
    forall h <- Apply(s, a).budgets ensures BudgetInv(Apply(s, a), h) {
      StepKeepsBudget(s, a, h);
    }
  }

  lemma {:induction false} RunKeepsInv(s: State, run: seq<Action>, s': State)
    requires Inv(s) && Runs(s, run, s')
    ensures Inv(s')
    decreases run
  {
    if run == [] {
    } else {
      StepKeepsInv(s, run[0]);
      RunKeepsInv(Apply(s, run[0]), run[1..], s');
    }
  }

  /** Every use of a session is within its idle gap and its life, and none follows what closed it. */
  lemma UsesStayWithinBudget(s: State, run: seq<Action>, s': State, k: nat)
    requires Init(s) && Runs(s, run, s') && k < |s'.log|
    ensures GoodUse(s'.log, k)
  {
    RunKeepsInv(s, run, s');
  }

  /** CloseSession drops an entry only after the module released the handle or was finalized. */
  lemma DropsFollowReleases(s: State, run: seq<Action>, s': State, k: nat)
    requires Init(s) && Runs(s, run, s') && k < |s'.log|
    ensures GoodDrop(s'.log, k)
  {
    RunKeepsInv(s, run, s');
  }

  /** The anchor is never listed, nor swept, nor any session's handle. */
  lemma AnchorIsNeverSwept(s: State, run: seq<Action>, s': State, h: Handle)
    requires Init(s) && Runs(s, run, s') && s'.anchor == Some(h)
    ensures h !in s'.listed && h !in s'.sweeping && h !in s'.budgets
    ensures !Enabled(s', SweepTake(h)) && forall ok: bool :: !Enabled(s', SweepClose(h, ok))
  {
    RunKeepsInv(s, run, s');
  }

  predicate Over(s: State, h: Handle) {
    h in s.budgets && (s.budgets[h].closed || Exceeded(s.budgets[h], s.clock))
  }

  lemma StaysOver(s: State, a: Action, h: Handle)
    requires HandlesInv(s) && Over(s, h) && Enabled(s, a)
    ensures Over(Apply(s, a), h)
    ensures Apply(s, a).log == s.log || !(Apply(s, a).log[|s.log|].Used? && Apply(s, a).log[|s.log|].h == h)
  {
  }

  /** From the moment a session is closed or past its budget, touched or not, no run uses it again. */
  lemma {:induction false} OverIsForever(s: State, run: seq<Action>, s': State, h: Handle)
    requires Inv(s) && Over(s, h) && Runs(s, run, s')
    ensures |s.log| <= |s'.log| && forall k :: |s.log| <= k < |s'.log| ==> !(s'.log[k].Used? && s'.log[k].h == h)
    ensures s'.log[..|s.log|] == s.log
    decreases run
  {
    if run == [] {
    } else {
      var next := Apply(s, run[0]);
      StaysOver(s, run[0], h);
      StepKeepsInv(s, run[0]);
      LogGrows(s, run[0]);
      OverIsForever(next, run[1..], s', h);
      assert s'.log[..|s.log|] == s'.log[..|next.log|][..|s.log|];
      assert |next.log| > |s.log| ==> s'.log[|s.log|] == s'.log[..|next.log|][|s.log|];
    }
  }

  /** The same from a fresh adapter: once over at some point of a run, never used after it. */
  lemma NeverUsedAgain(s: State, before: seq<Action>, mid: State, after: seq<Action>, s': State, h: Handle, k: nat)
    requires Init(s) && Runs(s, before, mid) && Runs(mid, after, s') && Over(mid, h)
    requires |mid.log| <= k < |s'.log|
    ensures !(s'.log[k].Used? && s'.log[k].h == h)
  {
    RunKeepsInv(s, before, mid);
    OverIsForever(mid, after, s', h);
  }
}
