/** The device coordinator: launch attempts, retry budget, backoff and publication of one driver. */
module DeviceCoordinator {
  import opened Outcome
  import opened Words

  const MAX_ATTEMPTS: nat := 4
  const RETRY_BACKOFF_NS: nat := 25_000_000

  datatype Bundle = Bundle(role: Word, generation: Word)
  datatype DriverEndpoint = DriverEndpoint(id: Word, generation: Word)
  datatype Attempt = Attempt(generation: Word, session: Word, endpoint: DriverEndpoint)
  datatype RegistryEndpoint = RegistryEndpoint(id: Word, generation: Word)
  datatype Binding = Binding(generation: Word, endpoint: RegistryEndpoint)

  datatype Phase =
    | Starting | WaitingForRegistry | WaitingForDeviceBundle | Matched | LaunchingDriver | AwaitingDriverReady
    | AwaitingPublication | Published | CleaningUp | Backoff(attempt: nat, until: Word) | PermanentFailure

  datatype CoordinatorError =
    | InvalidSupervisorGeneration | InvalidState | ManifestRejected(code: nat) | StaleRegistry | InvalidRegistryIdentity
    | InvalidBundle | StaleBundle | InvalidAttempt | AttemptBudgetExhausted | StaleDriverEndpoint | DriverAlreadyReady
    | StaleDriverAttempt | StalePublicationEndpoint | StalePublishedGeneration | BackoffNotElapsed | TimeOverflow

  /** The coordinator's fields. */
  datatype View = View(phase: Phase, role: Option<Word>, bundle: Option<Bundle>, attempt: Option<Attempt>, started: nat,
                       registry: Option<Binding>, publicationEndpoint: Option<RegistryEndpoint>,
                       publishedGeneration: Option<Word>,
                       lastPublished: Word, nextAttempt: Word, nextSession: Word, nextEndpoint: Word, lastBundle: Word)

  const FRESH: View := View(Starting, None, None, None, 0, None, None, None, 0, 1, 1, 1, 0)

  /** One call on the coordinator. The outcome of matching a manifest comes from outside. */
  datatype Event =
    | IntakeManifest(matched: Result<Word, nat>)
    | RegistryReady(binding: Binding)
    | ReplaceRegistry(binding: Binding)
    | AcceptBundle(bundle: Bundle)
    | BeginLaunch
    | LaunchAccepted(endpoint: DriverEndpoint)
    | DriverReady(endpoint: DriverEndpoint)
    | Publish(attempt: Attempt, at: RegistryEndpoint, generation: Word)
    | Retire
    | CompleteRetireCleanup
    | DriverFailed(endpoint: DriverEndpoint)
    | CleanupFailed
    | CompleteFailureCleanup(now: Word)
    | BackoffElapsed(now: Word)

  predicate GoodBinding(b: Binding) { b.generation != 0 && b.endpoint.id != 0 && b.endpoint.generation != 0 }

  predicate Newer(b: Binding, old_: Binding) {
    b.generation > old_.generation
      && (b.endpoint.id == old_.endpoint.id ==> b.endpoint.generation > old_.endpoint.generation)
  }

  predicate IsAttemptEndpoint(v: View, endpoint: DriverEndpoint) {
    v.attempt.Some? && v.attempt.value.endpoint == endpoint
  }

  function Unpublished(v: View): View { v.(publicationEndpoint := None, publishedGeneration := None) }

  /** Why a call is refused, in the order the code checks. */
  function Refusal(v: View, e: Event): Option<CoordinatorError> {
    match e
    case IntakeManifest(matched) =>
      if !v.phase.Starting? then Some(InvalidState)
      else if matched.Err? then Some(ManifestRejected(matched.error)) else None
    case RegistryReady(b) =>
      if !GoodBinding(b) then Some(InvalidRegistryIdentity)
      else if !v.phase.WaitingForRegistry? then Some(InvalidState) else None
    case ReplaceRegistry(b) =>
      if !GoodBinding(b) then Some(InvalidRegistryIdentity)
      else if v.registry.Some? && !Newer(b, v.registry.value) then Some(StaleRegistry) else None
    case AcceptBundle(b) =>
      if !v.phase.WaitingForDeviceBundle? then Some(InvalidState)
      else if b.generation == 0 || v.role != Some(b.role) then Some(InvalidBundle)
      else if b.generation <= v.lastBundle then Some(StaleBundle) else None
    case BeginLaunch =>
      if !v.phase.Matched? then Some(InvalidState)
      else if v.started >= MAX_ATTEMPTS then Some(AttemptBudgetExhausted)
      else if v.nextAttempt + 1 >= TWO64 || v.nextSession + 1 >= TWO64 || v.nextEndpoint + 1 >= TWO64
        then Some(InvalidAttempt) else None
    case LaunchAccepted(ep) =>
      if !v.phase.LaunchingDriver? then Some(InvalidState)
      else if !IsAttemptEndpoint(v, ep) || ep.id == 0 || ep.generation == 0 then Some(StaleDriverEndpoint) else None
    case DriverReady(ep) =>
      if v.phase.AwaitingPublication? then Some(DriverAlreadyReady)
      else if !v.phase.AwaitingDriverReady? then Some(InvalidState)
      else if !IsAttemptEndpoint(v, ep) then Some(StaleDriverEndpoint) else None
    case Publish(attempt, at, generation) =>
      if !v.phase.AwaitingPublication? then Some(InvalidState)
      else if v.attempt != Some(attempt) then Some(StaleDriverAttempt)
      else if v.registry.None? || v.registry.value.endpoint != at then Some(StalePublicationEndpoint)
      else if generation == 0 || generation <= v.lastPublished then Some(StalePublishedGeneration) else None
    case Retire => if !v.phase.Published? && !v.phase.AwaitingPublication? then Some(InvalidState) else None
    case CompleteRetireCleanup => if !v.phase.CleaningUp? then Some(InvalidState) else None
    case DriverFailed(ep) =>
      if !v.phase.AwaitingDriverReady? && !v.phase.AwaitingPublication? && !v.phase.Published? then Some(InvalidState)
      else if !IsAttemptEndpoint(v, ep) then Some(StaleDriverEndpoint) else None
    case CleanupFailed => if !v.phase.CleaningUp? then Some(InvalidState) else None
    case CompleteFailureCleanup(now) =>
      if !v.phase.CleaningUp? then Some(InvalidState)
      else if v.started < MAX_ATTEMPTS && now + RETRY_BACKOFF_NS >= TWO64 then Some(TimeOverflow) else None
    case BackoffElapsed(now) =>
      if !v.phase.Backoff? then Some(InvalidState)
      else if now < v.phase.until then Some(BackoffNotElapsed)
      else if v.bundle.None? then Some(InvalidBundle) else None
  }

  function NextAttempt(v: View): Attempt {
    Attempt(v.nextAttempt, v.nextSession, DriverEndpoint(v.nextEndpoint, v.nextAttempt))
  }

  /** What an accepted call changes. */
  function Accepted(v: View, e: Event): View
    requires Refusal(v, e).None?
  {
    match e
    case IntakeManifest(matched) => v.(role := Some(matched.value), phase := WaitingForRegistry)
    case RegistryReady(b) => v.(registry := Some(b), phase := WaitingForDeviceBundle)
    case ReplaceRegistry(b) =>
      Unpublished(v).(registry := Some(b), phase := if v.phase.Published? then AwaitingPublication else v.phase)
    case AcceptBundle(b) => v.(lastBundle := b.generation, started := 0, bundle := Some(b), phase := Matched)
    case BeginLaunch =>
      v.(nextAttempt := v.nextAttempt + 1, nextSession := v.nextSession + 1, nextEndpoint := v.nextEndpoint + 1,
         started := v.started + 1, attempt := Some(NextAttempt(v)), phase := LaunchingDriver)
    case LaunchAccepted(_) => v.(phase := AwaitingDriverReady)
    case DriverReady(_) => v.(phase := AwaitingPublication)
    case Publish(_, at, generation) =>
      v.(publicationEndpoint := Some(at), publishedGeneration := Some(generation), lastPublished := generation,
         phase := Published)
    case Retire => Unpublished(v).(phase := CleaningUp)
    case CompleteRetireCleanup => v.(bundle := None, attempt := None, phase := WaitingForDeviceBundle)
    case DriverFailed(_) => Unpublished(v).(phase := CleaningUp)
    case CleanupFailed => v.(phase := PermanentFailure)
    case CompleteFailureCleanup(now) =>
      v.(attempt := None,
         phase := if v.started >= MAX_ATTEMPTS then PermanentFailure
         else Backoff(v.started + 1, now + RETRY_BACKOFF_NS))
    case BackoffElapsed(_) => v.(phase := Matched)
  }

  /** A refused call changes nothing, except that a clock overflow after cleanup has already dropped the attempt. */
  function Step(v: View, e: Event): View {
    match Refusal(v, e)
    case None => Accepted(v, e)
    case Some(error) => if error == TimeOverflow then v.(attempt := None) else v
  }

  // ---- The coordinator -------------------------------------------------------------------

  class Coordinator {
    const supervisor: Word
    var phase: Phase
    var role: Option<Word>
    var bundle: Option<Bundle>
    var attempt: Option<Attempt>
    var started: nat
    var registry: Option<Binding>
    var publicationEndpoint: Option<RegistryEndpoint>
    var publishedGeneration: Option<Word>
    var lastPublished: Word
    var nextAttempt: Word
    var nextSession: Word
    var nextEndpoint: Word
    var lastBundle: Word

    ghost function Now(): View
      reads this
    {
      View(phase, role, bundle, attempt, started, registry, publicationEndpoint, publishedGeneration,
           lastPublished, nextAttempt, nextSession, nextEndpoint, lastBundle)
    }

    /** The counters move together; every method keeps this. */
    ghost predicate Valid()
      reads this
    {
      Kept(Now())
    }

    constructor (supervisor: Word)
      requires supervisor != 0
      ensures Now() == FRESH && Valid() && this.supervisor == supervisor
    {
      this.supervisor := supervisor;
      phase, role, bundle, attempt, started, registry := Starting, None, None, None, 0, None;
      publicationEndpoint, publishedGeneration, lastPublished := None, None, 0;
      nextAttempt, nextSession, nextEndpoint, lastBundle := 1, 1, 1, 0;
    }

    method DoIntakeManifest(matched: Result<Word, nat>) returns (error: Option<CoordinatorError>)
      requires Valid()
      modifies this
      ensures Now() == Step(old(Now()), IntakeManifest(matched))
              && error == Refusal(old(Now()), IntakeManifest(matched)) && Valid()
    {
      StepKeeps(Now(), IntakeManifest(matched));
      if !phase.Starting? {
        return Some(InvalidState);
      }
      if matched.Err? {
        return Some(ManifestRejected(matched.error));
      }
      role := Some(matched.value);
      phase := WaitingForRegistry;
      return None;
    }

    method DoRegistryReady(binding: Binding) returns (error: Option<CoordinatorError>)
      requires Valid()
      modifies this
      ensures Now() == Step(old(Now()), RegistryReady(binding))
              && error == Refusal(old(Now()), RegistryReady(binding)) && Valid()
    {
      StepKeeps(Now(), RegistryReady(binding));
      if !GoodBinding(binding) {
        return Some(InvalidRegistryIdentity);
      }
      if !phase.WaitingForRegistry? {
        return Some(InvalidState);
      }
      registry := Some(binding);
      phase := WaitingForDeviceBundle;
      return None;
    }

    method DoReplaceRegistry(binding: Binding) returns (error: Option<CoordinatorError>)
      requires Valid()
      modifies this
      ensures Now() == Step(old(Now()), ReplaceRegistry(binding))
              && error == Refusal(old(Now()), ReplaceRegistry(binding)) && Valid()
    {
      StepKeeps(Now(), ReplaceRegistry(binding));
      if !GoodBinding(binding) {
        return Some(InvalidRegistryIdentity);
      }
      if registry.Some? {
        var was := registry.value;
        if was == binding {
          return Some(StaleRegistry);
        }
        if binding.generation <= was.generation
           || (binding.endpoint.id == was.endpoint.id && binding.endpoint.generation <= was.endpoint.generation) {
          return Some(StaleRegistry);
        }
      }
      registry := Some(binding);
      publicationEndpoint := None;
      publishedGeneration := None;
      if phase.Published? {
        phase := AwaitingPublication;
      }
      return None;
    }

    method DoAcceptBundle(offered: Bundle) returns (error: Option<CoordinatorError>)
      requires Valid()
      modifies this
      ensures Now() == Step(old(Now()), AcceptBundle(offered))
              && error == Refusal(old(Now()), AcceptBundle(offered)) && Valid()
    {
      StepKeeps(Now(), AcceptBundle(offered));
      if !phase.WaitingForDeviceBundle? {
        return Some(InvalidState);
      }
      if offered.generation == 0 || role != Some(offered.role) {
        return Some(InvalidBundle);
      }
      if offered.generation <= lastBundle {
        return Some(StaleBundle);
      }
      lastBundle := offered.generation;
      started := 0;
      bundle := Some(offered);
      phase := Matched;
      return None;
    }

    /** The three counters advance one after the other; because they agree, a refusal has advanced none of them. */
    method DoBeginLaunch() returns (error: Option<CoordinatorError>)
      requires Valid()
      modifies this
      ensures Now() == Step(old(Now()), BeginLaunch) && error == Refusal(old(Now()), BeginLaunch) && Valid()
    {
      StepKeeps(Now(), BeginLaunch);
      if !phase.Matched? {
        return Some(InvalidState);
      }
      if started >= MAX_ATTEMPTS {
        return Some(AttemptBudgetExhausted);
      }
      var next := Attempt(nextAttempt, nextSession, DriverEndpoint(nextEndpoint, nextAttempt));
      if nextAttempt + 1 >= TWO64 {
        return Some(InvalidAttempt);
      }
      nextAttempt := nextAttempt + 1;
      if nextSession + 1 >= TWO64 {
        return Some(InvalidAttempt);
      }
      nextSession := nextSession + 1;
      if nextEndpoint + 1 >= TWO64 {
        return Some(InvalidAttempt);
      }
      nextEndpoint := nextEndpoint + 1;
      started := started + 1;
      attempt := Some(next);
      phase := LaunchingDriver;
      return None;
    }

    method DoLaunchAccepted(endpoint: DriverEndpoint) returns (error: Option<CoordinatorError>)
      requires Valid()
      modifies this
      ensures Now() == Step(old(Now()), LaunchAccepted(endpoint))
              && error == Refusal(old(Now()), LaunchAccepted(endpoint)) && Valid()
    {
      StepKeeps(Now(), LaunchAccepted(endpoint));
      if !phase.LaunchingDriver? {
        return Some(InvalidState);
      }
      if attempt.None? || attempt.value.endpoint != endpoint || endpoint.id == 0 || endpoint.generation == 0 {
        return Some(StaleDriverEndpoint);
      }
      phase := AwaitingDriverReady;
      return None;
    }

    method DoDriverReady(endpoint: DriverEndpoint) returns (error: Option<CoordinatorError>)
      requires Valid()
      modifies this
      ensures Now() == Step(old(Now()), DriverReady(endpoint))
              && error == Refusal(old(Now()), DriverReady(endpoint)) && Valid()
    {
      StepKeeps(Now(), DriverReady(endpoint));
      if phase.AwaitingPublication? {
        return Some(DriverAlreadyReady);
      }
      if !phase.AwaitingDriverReady? {
        return Some(InvalidState);
      }
      if attempt.None? || attempt.value.endpoint != endpoint {
        return Some(StaleDriverEndpoint);
      }
      phase := AwaitingPublication;
      return None;
    }

    method DoPublish(named: Attempt, at: RegistryEndpoint, generation: Word) returns (error: Option<CoordinatorError>)
      requires Valid()
      modifies this
      ensures Now() == Step(old(Now()), Publish(named, at, generation))
              && error == Refusal(old(Now()), Publish(named, at, generation)) && Valid()
    {
      StepKeeps(Now(), Publish(named, at, generation));
      if !phase.AwaitingPublication? {
        return Some(InvalidState);
      }
      if attempt != Some(named) {
        return Some(StaleDriverAttempt);
      }
      if registry.None? || registry.value.endpoint != at {
        return Some(StalePublicationEndpoint);
      }
      if generation == 0 || generation <= lastPublished {
        return Some(StalePublishedGeneration);
      }
      publicationEndpoint := Some(at);
      publishedGeneration := Some(generation);
      lastPublished := generation;
      phase := Published;
      return None;
    }

    method DoRetire() returns (error: Option<CoordinatorError>)
      requires Valid()
      modifies this
      ensures Now() == Step(old(Now()), Retire) && error == Refusal(old(Now()), Retire) && Valid()
    {
      StepKeeps(Now(), Retire);
      if !phase.Published? && !phase.AwaitingPublication? {
        return Some(InvalidState);
      }
      publicationEndpoint := None;
      publishedGeneration := None;
      phase := CleaningUp;
      return None;
    }

    method DoCompleteRetireCleanup() returns (error: Option<CoordinatorError>)
      requires Valid()
      modifies this
      ensures Now() == Step(old(Now()), CompleteRetireCleanup)
              && error == Refusal(old(Now()), CompleteRetireCleanup) && Valid()
    {
      StepKeeps(Now(), CompleteRetireCleanup);
      if !phase.CleaningUp? {
        return Some(InvalidState);
      }
      bundle := None;
      attempt := None;
      phase := WaitingForDeviceBundle;
      return None;
    }

    method DoDriverFailed(endpoint: DriverEndpoint) returns (error: Option<CoordinatorError>)
      requires Valid()
      modifies this
      ensures Now() == Step(old(Now()), DriverFailed(endpoint))
              && error == Refusal(old(Now()), DriverFailed(endpoint)) && Valid()
    {
      StepKeeps(Now(), DriverFailed(endpoint));
      if !phase.AwaitingDriverReady? && !phase.AwaitingPublication? && !phase.Published? {
        return Some(InvalidState);
      }
      if attempt.None? || attempt.value.endpoint != endpoint {
        return Some(StaleDriverEndpoint);
      }
      publicationEndpoint := None;
      publishedGeneration := None;
      phase := CleaningUp;
      return None;
    }

    method DoCleanupFailed() returns (error: Option<CoordinatorError>)
      requires Valid()
      modifies this
      ensures Now() == Step(old(Now()), CleanupFailed) && error == Refusal(old(Now()), CleanupFailed) && Valid()
    {
      StepKeeps(Now(), CleanupFailed);
      if !phase.CleaningUp? {
        return Some(InvalidState);
      }
      phase := PermanentFailure;
      return None;
    }

    method DoCompleteFailureCleanup(now: Word) returns (error: Option<CoordinatorError>)
      requires Valid()
      modifies this
      ensures Now() == Step(old(Now()), CompleteFailureCleanup(now))
              && error == Refusal(old(Now()), CompleteFailureCleanup(now)) && Valid()
    {
      StepKeeps(Now(), CompleteFailureCleanup(now));
      if !phase.CleaningUp? {
        return Some(InvalidState);
      }
      attempt := None;
      if started >= MAX_ATTEMPTS {
        phase := PermanentFailure;
        return None;
      }
      if now + RETRY_BACKOFF_NS >= TWO64 {
        return Some(TimeOverflow);
      }
      phase := Backoff(started + 1, now + RETRY_BACKOFF_NS);
      return None;
    }

    method DoBackoffElapsed(now: Word) returns (error: Option<CoordinatorError>)
      requires Valid()
      modifies this
      ensures Now() == Step(old(Now()), BackoffElapsed(now))
              && error == Refusal(old(Now()), BackoffElapsed(now)) && Valid()
    {
      StepKeeps(Now(), BackoffElapsed(now));
      if !phase.Backoff? {
        return Some(InvalidState);
      }
      if now < phase.until {
        return Some(BackoffNotElapsed);
      }
      if bundle.None? {
        return Some(InvalidBundle);
      }
      phase := Matched;
      return None;
    }

    /** Any one call. A refused one leaves the object as it was, except that a time overflow has dropped the attempt. */
    method Do(e: Event) returns (error: Option<CoordinatorError>)
      requires Valid()
      modifies this
      ensures Now() == Step(old(Now()), e) && error == Refusal(old(Now()), e) && Valid()
      ensures error.Some? ==> Now() == if error.value.TimeOverflow? then old(Now()).(attempt := None) else old(Now())
    {
      ghost var before := Now();
      match e {
        case IntakeManifest(matched) => error := DoIntakeManifest(matched);
        case RegistryReady(binding) => error := DoRegistryReady(binding);
        case ReplaceRegistry(binding) => error := DoReplaceRegistry(binding);
        case AcceptBundle(offered) => error := DoAcceptBundle(offered);
        case BeginLaunch => error := DoBeginLaunch();
        case LaunchAccepted(endpoint) => error := DoLaunchAccepted(endpoint);
        case DriverReady(endpoint) => error := DoDriverReady(endpoint);
        case Publish(named, at, generation) => error := DoPublish(named, at, generation);
        case Retire => error := DoRetire();
        case CompleteRetireCleanup => error := DoCompleteRetireCleanup();
        case DriverFailed(endpoint) => error := DoDriverFailed(endpoint);
        case CleanupFailed => error := DoCleanupFailed();
        case CompleteFailureCleanup(now) => error := DoCompleteFailureCleanup(now);
        case BackoffElapsed(now) => error := DoBackoffElapsed(now);
      }
      if error.Some? {
        RefusedChangesNothing(before, e);
      }
    }

    /** A sequence of calls on a new coordinator: the object is where the run theorems say, and call `i` was
        refused as they say. */
    method Perform(run: seq<Event>) returns (errors: seq<Option<CoordinatorError>>)
      requires Valid() && Now() == FRESH
      modifies this
      ensures Valid() && Now() == After(run, |run|)
      ensures |errors| == |run| && Answers(run, errors)
    {
      errors := [];
      for n := 0 to |run|
        invariant Valid() && Now() == After(run, n)
        invariant |errors| == n && Answers(run, errors)
      {
        var error := DoNext(run, n);
        AnswersNext(run, errors, error);
        errors := errors + [error];
      }
    }

    method DoNext(run: seq<Event>, n: nat) returns (error: Option<CoordinatorError>)
      requires n < |run| && Valid() && Now() == After(run, n)
      modifies this
      ensures Valid() && Now() == After(run, n + 1) && AnswerAt(run, n, error)
    {
      error := Do(run[n]);
    }
  }

  /** `Coordinator::new`. */
  method Create(supervisor: Word) returns (r: Result<Coordinator, CoordinatorError>)
    ensures r.Err? <==> supervisor == 0
    ensures r.Err? ==> r.error == InvalidSupervisorGeneration
    ensures r.Ok? ==> fresh(r.value) && r.value.Now() == FRESH && r.value.Valid() && r.value.supervisor == supervisor
  {
    if supervisor == 0 {
      return Err(InvalidSupervisorGeneration);
    }
    var c := new Coordinator(supervisor);
    return Ok(c);
  }

  // ---- What every call keeps -------------------------------------------------------------

  predicate HasDriver(p: Phase) {
    p.LaunchingDriver? || p.AwaitingDriverReady? || p.AwaitingPublication? || p.Published?
  }

  predicate BeforeRegistry(p: Phase) { p.Starting? || p.WaitingForRegistry? }

  /** The invariant of the coordinator. */
  ghost predicate Kept(v: View) {
    // Publication: published means both fields are set, at the current registry, with the latest generation.
    && (v.phase.Published? <==> v.publishedGeneration.Some?) && (v.phase.Published? <==> v.publicationEndpoint.Some?)
    && (v.phase.Published? ==> v.registry.Some? && v.publicationEndpoint == Some(v.registry.value.endpoint))
    && (v.phase.Published? ==> v.publishedGeneration == Some(v.lastPublished))
    // Identities advance in lockstep and lie ahead of the current attempt.
    && v.nextAttempt == v.nextSession == v.nextEndpoint && v.nextAttempt >= 1
    && (v.attempt.Some? ==> var n := v.attempt.value.generation;
          1 <= n < v.nextAttempt && v.attempt.value == Attempt(n, n, DriverEndpoint(n, n)))
    && (HasDriver(v.phase) ==> v.attempt.Some?)
    // The retry budget.
    && v.started <= MAX_ATTEMPTS
    && (v.phase.Matched? || v.phase.Backoff? ==> v.started < MAX_ATTEMPTS && v.bundle.Some?)
    && (HasDriver(v.phase) || v.phase.CleaningUp? ==> v.bundle.Some?)
    && (v.bundle.Some? ==> v.bundle.value.generation == v.lastBundle)
    // The registry.
    && (!BeforeRegistry(v.phase) ==> v.registry.Some?)
    && (v.registry.Some? ==> GoodBinding(v.registry.value))
  }

  lemma StepKeeps(v: View, e: Event)
    requires Kept(v)
    ensures Kept(Step(v, e))
  {
  }

  /** The budget check in front of a launch never fires, and a backoff always finds its bundle. */
  lemma UnreachableRefusals(v: View, e: Event)
    requires Kept(v)
    ensures Refusal(v, e) != Some(AttemptBudgetExhausted)
    ensures e.BackoffElapsed? ==> Refusal(v, e) != Some(InvalidBundle)
  {
  }

  /** A refused call leaves everything as it was, except the one that has dropped the attempt. */
  lemma RefusedChangesNothing(v: View, e: Event)
    requires Refusal(v, e).Some?
    ensures Refusal(v, e) != Some(TimeOverflow) ==> Step(v, e) == v
    ensures Refusal(v, e) == Some(TimeOverflow) ==>
              e.CompleteFailureCleanup? && v.phase.CleaningUp? && Step(v, e) == v.(attempt := None)
  {
  }

  // ---- Runs ------------------------------------------------------------------------------

  /** The state after the first `n` calls. */
  function After(run: seq<Event>, n: nat): View
    requires n <= |run|
  {
    if n == 0 then FRESH else Step(After(run, n - 1), run[n - 1])
  }

  /** Call `i` was answered with `error`. */
  ghost predicate AnswerAt(run: seq<Event>, i: nat, error: Option<CoordinatorError>)
    requires i < |run|
  {
    error == Refusal(After(run, i), run[i])
  }

  ghost predicate Answers(run: seq<Event>, errors: seq<Option<CoordinatorError>>) {
    |errors| <= |run|
      && forall i {:trigger AnswerAt(run, i, errors[i])} :: 0 <= i < |errors| ==> AnswerAt(run, i, errors[i])
  }

  lemma AnswersNext(run: seq<Event>, errors: seq<Option<CoordinatorError>>, error: Option<CoordinatorError>)
    requires |errors| < |run| && Answers(run, errors) && AnswerAt(run, |errors|, error)
    ensures Answers(run, errors + [error])
  {
    var more := errors + [error];
    forall i | 0 <= i < |more| ensures AnswerAt(run, i, more[i]) {
      if i < |errors| {
        assert AnswerAt(run, i, errors[i]);
      }
    }
  }

  /** Call `i` was accepted. */
  predicate Took(run: seq<Event>, i: nat)
    requires i < |run|
  {
    Refusal(After(run, i), run[i]).None?
  }

  lemma {:induction false} RunKeeps(run: seq<Event>, n: nat)
    requires n <= |run|
    ensures Kept(After(run, n))
  {
    if n > 0 {
      RunKeeps(run, n - 1);
      StepKeeps(After(run, n - 1), run[n - 1]);
    }
  }

  /** A step never takes back a counter, and gives up permanence or a registry never. */
  ghost predicate Forward(v: View, w: View) {
    && v.nextAttempt <= w.nextAttempt && v.lastPublished <= w.lastPublished && v.lastBundle <= w.lastBundle
    && (v.phase.PermanentFailure? ==> w.phase.PermanentFailure?)
    && (!BeforeRegistry(v.phase) ==> !BeforeRegistry(w.phase) && v.registry.Some? && w.registry.Some?)
    && (!BeforeRegistry(v.phase) ==>
        w.registry == v.registry || w.registry.value.generation > v.registry.value.generation)
  }

  lemma StepForward(v: View, e: Event)
    requires Kept(v)
    ensures Forward(v, Step(v, e))
  {
  }

  lemma {:induction false} RunForward(run: seq<Event>, i: nat, n: nat)
    requires i <= n <= |run|
    ensures Forward(After(run, i), After(run, n))
    decreases n - i
  {
    RunKeeps(run, i);
    if i < n {
      RunForward(run, i, n - 1);
      RunKeeps(run, n - 1);
      StepForward(After(run, n - 1), run[n - 1]);
    }
  }

  /** Attempt identities never repeat: a later launch has strictly larger generation, session and endpoint. */
  lemma AttemptsAreFresh(run: seq<Event>, i: nat, k: nat)
    requires i < k < |run| && run[i].BeginLaunch? && run[k].BeginLaunch? && Took(run, i) && Took(run, k)
    ensures var a, b := NextAttempt(After(run, i)), NextAttempt(After(run, k));
            a.generation < b.generation && a.session < b.session && a.endpoint.id < b.endpoint.id
              && a.endpoint.generation < b.endpoint.generation
  {
    RunKeeps(run, i);
    RunKeeps(run, k);
    RunForward(run, i + 1, k);
  }

  /** Published generations strictly increase over the whole run. */
  lemma PublishedIncrease(run: seq<Event>, i: nat, k: nat)
    requires i < k < |run| && run[i].Publish? && run[k].Publish? && Took(run, i) && Took(run, k)
    ensures run[i].generation < run[k].generation
  {
    RunForward(run, i + 1, k);
  }

  /** Bundles strictly increase over the whole run. */
  lemma BundlesIncrease(run: seq<Event>, i: nat, k: nat)
    requires i < k < |run| && run[i].AcceptBundle? && run[k].AcceptBundle? && Took(run, i) && Took(run, k)
    ensures run[i].bundle.generation < run[k].bundle.generation
  {
    RunForward(run, i + 1, k);
  }

  /** Launches since the bundle was accepted. */
  function Launches(run: seq<Event>, n: nat): nat
    requires n <= |run|
  {
    if n == 0 then 0
    else if run[n - 1].AcceptBundle? && Took(run, n - 1) then 0
    else Launches(run, n - 1) + (if run[n - 1].BeginLaunch? && Took(run, n - 1) then 1 else 0)
  }

  /** Each accepted bundle is launched at most four times. */
  lemma {:induction false} LaunchesBounded(run: seq<Event>, n: nat)
    requires n <= |run|
    ensures Launches(run, n) == After(run, n).started && Launches(run, n) <= MAX_ATTEMPTS
  {
    RunKeeps(run, n);
    if n > 0 {
      LaunchesBounded(run, n - 1);
    }
  }

  // ---- Publication -----------------------------------------------------------------------

  /** An accepted call that ends the current driver. */
  predicate Ends(run: seq<Event>, i: nat)
    requires i < |run|
  {
    Took(run, i) && (run[i].DriverFailed? || run[i].Retire? || run[i].BeginLaunch?)
  }

  /** No driver has failed, been retired or been launched in `[from, n)`. */
  ghost predicate Undisturbed(run: seq<Event>, from: nat, n: nat)
    requires n <= |run|
  {
    forall i: nat {:trigger Ends(run, i)} :: from <= i < n ==> !Ends(run, i)
  }

  ghost predicate BegunAt(run: seq<Event>, i: nat, a: Attempt) {
    i < |run| && run[i].BeginLaunch? && Took(run, i) && NextAttempt(After(run, i)) == a
  }

  ghost predicate AcceptedAt(run: seq<Event>, i: nat, a: Attempt) {
    i < |run| && run[i] == LaunchAccepted(a.endpoint) && Took(run, i)
  }

  ghost predicate ReadyAt(run: seq<Event>, i: nat, a: Attempt) {
    i < |run| && run[i] == DriverReady(a.endpoint) && Took(run, i)
  }

  ghost predicate Begun(run: seq<Event>, n: nat, a: Attempt)
    requires n <= |run|
  {
    exists i: nat :: i < n && BegunAt(run, i, a) && Undisturbed(run, i + 1, n)
  }

  ghost predicate BegunAndAccepted(run: seq<Event>, n: nat, a: Attempt)
    requires n <= |run|
  {
    exists i: nat, j: nat :: i < j < n && BegunAt(run, i, a) && AcceptedAt(run, j, a) && Undisturbed(run, i + 1, n)
  }

  /** The attempt was begun, accepted and reported ready, in that order, and nothing has ended it since. */
  ghost predicate BegunAcceptedReady(run: seq<Event>, n: nat, a: Attempt)
    requires n <= |run|
  {
    exists i: nat, j: nat, k: nat ::
        i < j < k < n && BegunAt(run, i, a) && AcceptedAt(run, j, a) && ReadyAt(run, k, a) && Undisturbed(run, i + 1, n)
  }

  /** What the phase tells about the history. */
  ghost predicate History(run: seq<Event>, n: nat)
    requires n <= |run|
  {
    var v := After(run, n);
    && (v.phase.LaunchingDriver? ==> v.attempt.Some? && Begun(run, n, v.attempt.value))
    && (v.phase.AwaitingDriverReady? ==> v.attempt.Some? && BegunAndAccepted(run, n, v.attempt.value))
    && (v.phase.AwaitingPublication? || v.phase.Published? ==>
        v.attempt.Some? && BegunAcceptedReady(run, n, v.attempt.value))
  }

  lemma UndisturbedNext(run: seq<Event>, from: nat, n: nat)
    requires n < |run| && Undisturbed(run, from, n) && !Ends(run, n)
    ensures Undisturbed(run, from, n + 1)
  {
  }

  lemma HistoryNext(run: seq<Event>, n: nat)
    requires n < |run| && History(run, n) && Kept(After(run, n))
    ensures History(run, n + 1)
  {
    var v, w, e := After(run, n), After(run, n + 1), run[n];
    if w.phase == v.phase || e.ReplaceRegistry? || e.Publish? {
      if HasDriver(w.phase) {
        SamePhase(run, n);
      }
    } else if e.BeginLaunch? {
      assert BegunAt(run, n, w.attempt.value);
    } else if e.LaunchAccepted? {
      AcceptedNext(run, n, v.attempt.value);
    } else if e.DriverReady? {
      ReadyNext(run, n, v.attempt.value);
    }
  }

  lemma AcceptedNext(run: seq<Event>, n: nat, a: Attempt)
    requires n < |run| && Begun(run, n, a) && AcceptedAt(run, n, a)
    ensures BegunAndAccepted(run, n + 1, a)
  {
    var i: nat :| i < n && BegunAt(run, i, a) && Undisturbed(run, i + 1, n);
    UndisturbedNext(run, i + 1, n);
  }

  lemma ReadyNext(run: seq<Event>, n: nat, a: Attempt)
    requires n < |run| && BegunAndAccepted(run, n, a) && ReadyAt(run, n, a)
    ensures BegunAcceptedReady(run, n + 1, a)
  {
    var i: nat, j: nat :| i < j < n && BegunAt(run, i, a) && AcceptedAt(run, j, a) && Undisturbed(run, i + 1, n);
    UndisturbedNext(run, i + 1, n);
  }

  /** Calls that keep the driver running keep its history. */
  lemma SamePhase(run: seq<Event>, n: nat)
    requires n < |run| && History(run, n) && Kept(After(run, n))
    requires var v, w := After(run, n), After(run, n + 1);
      HasDriver(w.phase) && (w.phase == v.phase || run[n].ReplaceRegistry? || run[n].Publish?)
    ensures History(run, n + 1)
  {
    var v := After(run, n);
    SameAttempt(run, n);
    if v.phase.LaunchingDriver? {
      BegunNext(run, n, v.attempt.value);
    } else if v.phase.AwaitingDriverReady? {
      BegunAndAcceptedNext(run, n, v.attempt.value);
    } else {
      BegunAcceptedReadyNext(run, n, v.attempt.value);
    }
  }

  lemma SameAttempt(run: seq<Event>, n: nat)
    requires n < |run| && Kept(After(run, n))
    requires var v, w := After(run, n), After(run, n + 1);
      HasDriver(w.phase) && (w.phase == v.phase || run[n].ReplaceRegistry? || run[n].Publish?)
    ensures var v, w := After(run, n), After(run, n + 1);
      HasDriver(v.phase) && w.attempt == v.attempt && v.attempt.Some? && !Ends(run, n)
      && (w.phase == v.phase
          || ((v.phase.AwaitingPublication? || v.phase.Published?)
              && (w.phase.AwaitingPublication? || w.phase.Published?)))
  {
  }

  lemma BegunNext(run: seq<Event>, n: nat, a: Attempt)
    requires n < |run| && !Ends(run, n) && Begun(run, n, a)
    ensures Begun(run, n + 1, a)
  {
    var i: nat :| i < n && BegunAt(run, i, a) && Undisturbed(run, i + 1, n);
    UndisturbedNext(run, i + 1, n);
  }

  lemma BegunAndAcceptedNext(run: seq<Event>, n: nat, a: Attempt)
    requires n < |run| && !Ends(run, n) && BegunAndAccepted(run, n, a)
    ensures BegunAndAccepted(run, n + 1, a)
  {
    var i: nat, j: nat :| i < j < n && BegunAt(run, i, a) && AcceptedAt(run, j, a) && Undisturbed(run, i + 1, n);
    UndisturbedNext(run, i + 1, n);
  }

  lemma BegunAcceptedReadyNext(run: seq<Event>, n: nat, a: Attempt)
    requires n < |run| && !Ends(run, n) && BegunAcceptedReady(run, n, a)
    ensures BegunAcceptedReady(run, n + 1, a)
  {
    var i: nat, j: nat, k: nat :|
      i < j < k < n && BegunAt(run, i, a) && AcceptedAt(run, j, a) && ReadyAt(run, k, a) && Undisturbed(run, i + 1, n);
    UndisturbedNext(run, i + 1, n);
  }

  lemma {:induction false} RunHistory(run: seq<Event>, n: nat)
    requires n <= |run|
    ensures History(run, n)
  {
    if n > 0 {
      RunHistory(run, n - 1);
      RunKeeps(run, n - 1);
      HistoryNext(run, n - 1);
    }
  }

  /** Publication safety: what is published was begun, accepted and ready, and is at the registry of the moment. */
  lemma PublishIsSafe(run: seq<Event>, n: nat)
    requires n < |run| && run[n].Publish? && Took(run, n)
    ensures BegunAcceptedReady(run, n, run[n].attempt)
    ensures After(run, n).registry.Some? && After(run, n).registry.value.endpoint == run[n].at
    ensures run[n].generation > After(run, n).lastPublished
  {
    RunHistory(run, n);
  }

  /** At every moment of every run, published means published at the current registry by a live attempt. */
  lemma PublishedMeans(run: seq<Event>, n: nat)
    requires n <= |run|
    ensures var v := After(run, n);
            && (v.phase.Published? <==> v.publishedGeneration.Some? && v.publicationEndpoint.Some?)
            && (v.phase.Published? ==> v.registry.Some? && v.publicationEndpoint == Some(v.registry.value.endpoint))
            && (v.phase.Published? ==> v.attempt.Some? && BegunAcceptedReady(run, n, v.attempt.value))
  {
    RunKeeps(run, n);
    RunHistory(run, n);
  }

  /** Permanent failure is absorbing. */
  lemma FailureIsPermanent(run: seq<Event>, i: nat, n: nat)
    requires i <= n <= |run| && After(run, i).phase.PermanentFailure?
    ensures After(run, n).phase.PermanentFailure?
  {
    RunForward(run, i, n);
  }
}
