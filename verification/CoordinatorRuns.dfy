/** Retries and the plain way to publication, over all runs of the coordinator. */
module CoordinatorRuns {
  import opened Outcome
  import opened Words
  import opened DeviceCoordinator

  /** The nanoseconds between the end of a cleanup and the next launch. */
  const DELAY: nat := 25 * 1000 * 1000

  ghost predicate CleanedUpAt(run: seq<Event>, i: nat, now: Word) {
    i < |run| && run[i] == CompleteFailureCleanup(now) && Took(run, i)
  }

  /** The clock was seen at or past `from` by an accepted end of backoff. */
  ghost predicate ElapsedAt(run: seq<Event>, j: nat, from: nat) {
    j < |run| && run[j].BackoffElapsed? && Took(run, j) && run[j].now >= from
  }

  ghost predicate ElapsedIn(run: seq<Event>, i: nat, n: nat, from: nat) {
    exists j: nat :: i < j < n && ElapsedAt(run, j, from)
  }

  /** After a failed driver was cleaned up, the coordinator waits out the delay or has given up. */
  lemma {:induction false} WaitsOut(run: seq<Event>, i: nat, n: nat, now: Word)
    requires CleanedUpAt(run, i, now) && i < n <= |run|
    ensures ElapsedIn(run, i, n, now + DELAY) || After(run, n).phase.PermanentFailure?
            || (After(run, n).phase.Backoff? && After(run, n).phase.until == now + DELAY)
    decreases n
  {
    if n > i + 1 {
      WaitsOut(run, i, n - 1, now);
      if ElapsedIn(run, i, n - 1, now + DELAY) {
        var j: nat :| i < j < n - 1 && ElapsedAt(run, j, now + DELAY);
      } else if run[n - 1].BackoffElapsed? && Took(run, n - 1) {
        assert ElapsedAt(run, n - 1, now + DELAY);
      }
    }
  }

  /** No launch follows a failed one sooner than the delay: between them the clock was seen 25 ms later. */
  lemma RetriesWait(run: seq<Event>, i: nat, k: nat, now: Word)
    requires CleanedUpAt(run, i, now) && i < k < |run| && run[k].BeginLaunch? && Took(run, k)
    ensures ElapsedIn(run, i, k, now + DELAY)
  {
    WaitsOut(run, i, k, now);
  }

  /** A cleanup ends in permanent failure exactly after the fourth launch of the bundle, and otherwise in a backoff
      that names the next launch. */
  lemma FailureLeadsOn(run: seq<Event>, i: nat, now: Word)
    requires CleanedUpAt(run, i, now)
    ensures var p, launched := After(run, i + 1).phase, Launches(run, i);
            if launched == 4 then p.PermanentFailure?
            else p.Backoff? && p.attempt == launched + 1 && p.until == now + DELAY
  {
    LaunchesBounded(run, i);
  }

  /** A cleanup is refused for the clock exactly when a retry is due and its time leaves 64 bits. */
  lemma CleanupRefused(run: seq<Event>, now: Word)
    requires After(run, |run|).phase.CleaningUp?
    ensures Refusal(After(run, |run|), CompleteFailureCleanup(now)) ==
            if Launches(run, |run|) < 4 && now + DELAY >= TWO64 then Some(TimeOverflow) else None
  {
    LaunchesBounded(run, |run|);
  }

  /** A backoff can be left exactly from its time on, and the bundle is then launched again. */
  lemma RetryFollows(run: seq<Event>, t: Word)
    requires After(run, |run|).phase.Backoff? && After(run, |run|).nextAttempt + 1 < TWO64
    ensures var more := run + [BackoffElapsed(t), BeginLaunch];
            && (Took(more, |run|) <==> t >= After(run, |run|).phase.until)
            && (Took(more, |run|) ==> Took(more, |run| + 1) && After(more, |run| + 2).bundle == After(run, |run|).bundle
                                      && Launches(more, |run| + 2) == Launches(run, |run|) + 1)
  {
    var n, more := |run|, run + [BackoffElapsed(t), BeginLaunch];
    SamePrefix(run, more, n);
    RunKeeps(run, n);
    assert more[n] == BackoffElapsed(t) && more[n + 1] == BeginLaunch;
    assert After(more, n + 1) == Step(After(run, n), BackoffElapsed(t));
  }

  lemma {:induction false} SamePrefix(run: seq<Event>, more: seq<Event>, n: nat)
    requires n <= |run| && run <= more
    ensures After(more, n) == After(run, n) && Launches(more, n) == Launches(run, n)
  {
    if n > 0 {
      SamePrefix(run, more, n - 1);
      assert more[n - 1] == run[n - 1];
    }
  }

  // ---- The plain way ---------------------------------------------------------------------

  /** Intake, registry, bundle, launch, acceptance, readiness and publication. */
  function PlainRun(role: Word, registry: Binding, bundle: Bundle, generation: Word): seq<Event> {
    var a := Attempt(1, 1, DriverEndpoint(1, 1));
    [IntakeManifest(Ok(role)), RegistryReady(registry), AcceptBundle(bundle), BeginLaunch,
     LaunchAccepted(a.endpoint), DriverReady(a.endpoint), Publish(a, registry.endpoint, generation)]
  }

  /** With usable identities every step of the plain way is taken, and ends in publication at the registry. */
  lemma PlainRunPublishes(role: Word, registry: Binding, bundle: Bundle, generation: Word)
    requires registry.generation > 0 && registry.endpoint.id > 0 && registry.endpoint.generation > 0
    requires bundle.role == role && bundle.generation > 0 && generation > 0
    ensures var run := PlainRun(role, registry, bundle, generation);
            && (forall i :: 0 <= i < 7 ==> Took(run, i))
            && var v := After(run, 7);
               && v.phase.Published? && v.publishedGeneration == Some(generation)
               && v.publicationEndpoint == Some(registry.endpoint) && v.bundle == Some(bundle)
               && v.attempt == Some(Attempt(1, 1, DriverEndpoint(1, 1)))
  {
    var run := PlainRun(role, registry, bundle, generation);
    var v0, v1, v2, v3 := After(run, 0), After(run, 1), After(run, 2), After(run, 3);
    var v4, v5, v6 := After(run, 4), After(run, 5), After(run, 6);
    assert v0 == FRESH;
    assert v1 == Step(v0, run[0]) && v1.phase == WaitingForRegistry;
    assert v2 == Step(v1, run[1]) && v2.phase == WaitingForDeviceBundle;
    assert v3 == Step(v2, run[2]) && v3.phase == Matched;
    assert v4 == Step(v3, run[3]) && v4.phase == LaunchingDriver;
    assert v5 == Step(v4, run[4]) && v5.phase == AwaitingDriverReady;
    assert v6 == Step(v5, run[5]) && v6.phase == AwaitingPublication;
    assert After(run, 7) == Step(v6, run[6]);
    forall i | 0 <= i < 7 ensures Took(run, i) {
      assert i == 0 || i == 1 || i == 2 || i == 3 || i == 4 || i == 5 || i == 6;
    }
  }

  // ---- Ways on from publication ----------------------------------------------------------

  lemma TwoMore(run: seq<Event>, a: Event, b: Event)
    ensures var n, more := |run|, run + [a, b];
            && After(more, n) == After(run, n) && Launches(more, n) == Launches(run, n)
            && More(run, a, b, Step(After(run, n), a), Step(Step(After(run, n), a), b))
  {
    var n, more := |run|, run + [a, b];
    SamePrefix(run, more, n);
    assert more[n] == a && more[n + 1] == b;
    StepOf(more, n);
    StepOf(more, n + 1);
  }

  lemma StepOf(run: seq<Event>, n: nat)
    requires n < |run|
    ensures After(run, n + 1) == Step(After(run, n), run[n])
  {
  }

  /** Two more calls lead through `v` to `w`. */
  ghost predicate More(run: seq<Event>, a: Event, b: Event, v: View, w: View) {
    var n, more := |run|, run + [a, b];
    more[n] == a && more[n + 1] == b && After(more, n + 1) == v && After(more, n + 2) == w
  }

  ghost predicate BothTaken(run: seq<Event>, a: Event, b: Event) {
    Took(run + [a, b], |run|) && Took(run + [a, b], |run| + 1)
  }

  /** A published driver can be retired, and then the coordinator waits for another bundle. */
  lemma RetireLeadsOn(run: seq<Event>)
    requires After(run, |run|).phase.Published?
    ensures BothTaken(run, Retire, CompleteRetireCleanup)
    ensures var w := After(run + [Retire, CompleteRetireCleanup], |run| + 2);
            w.phase.WaitingForDeviceBundle? && w.bundle.None? && w.attempt.None? && w.publishedGeneration.None?
  {
    TwoMore(run, Retire, CompleteRetireCleanup);
  }

  /** A published driver that fails is cleaned up, and its bundle gets another attempt after the delay. */
  lemma FailureIsRetried(run: seq<Event>, now: Word)
    requires After(run, |run|).phase.Published? && Launches(run, |run|) < 4 && now + DELAY < TWO64
    ensures After(run, |run|).attempt.Some?
    ensures var failed := DriverFailed(After(run, |run|).attempt.value.endpoint);
            var cleaned := CompleteFailureCleanup(now);
            && BothTaken(run, failed, cleaned)
            && var w := After(run + [failed, cleaned], |run| + 2);
               && w.phase.Backoff? && w.phase.until == now + DELAY && w.bundle == After(run, |run|).bundle
               && w.publishedGeneration.None? && w.attempt.None?
  {
    RunKeeps(run, |run|);
    LaunchesBounded(run, |run|);
    TwoMore(run, DriverFailed(After(run, |run|).attempt.value.endpoint), CompleteFailureCleanup(now));
  }

  /** When the registry is replaced, the same attempt is published again, at the new registry. */
  lemma ReplacementRepublishes(run: seq<Event>, b: Binding, generation: Word)
    requires After(run, |run|).phase.Published? && After(run, |run|).registry.Some?
    requires b.generation > After(run, |run|).registry.value.generation && b.endpoint.id > 0
             && b.endpoint.generation > 0
    requires b.endpoint.id != After(run, |run|).registry.value.endpoint.id
    requires generation > After(run, |run|).lastPublished
    ensures After(run, |run|).attempt.Some?
    ensures var again := Publish(After(run, |run|).attempt.value, b.endpoint, generation);
            && BothTaken(run, ReplaceRegistry(b), again)
            && var w := After(run + [ReplaceRegistry(b), again], |run| + 2);
               && w.phase.Published? && w.publicationEndpoint == Some(b.endpoint)
               && w.attempt == After(run, |run|).attempt && w.bundle == After(run, |run|).bundle
  {
    RunKeeps(run, |run|);
    TwoMore(run, ReplaceRegistry(b), Publish(After(run, |run|).attempt.value, b.endpoint, generation));
  }
}
