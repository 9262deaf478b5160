/** The primordial bootstrap transaction as a sequence of platform effects, for every behaviour of the platform. */
module Bootstrap {
  import opened Outcome

  /** Whose handle is closed. */
  datatype Role = Received(index: nat) | LaunchChannel | ProcessHandle | BootstrapChannel

  datatype Supervision = Succeeded | ExitSeen | NoExitSeen

  /** One call on the platform, with its answer. */
  datatype Effect =
    | QueryChannel(ok: bool)
    | Receive(ok: bool)
    | Prepare(ok: bool)              // message, authority and mapping-plan checks
    | LoadChild(ok: bool)            // `ok`: a child is published
    | MapBootfs(ok: bool)
    | Relay(ok: bool)
    | WaitExit(ok: bool)
    | QueryExit(exited: bool)
    | Supervise(outcome: Supervision)
    | Terminate(ok: bool)
    | Close(role: Role, ok: bool)
    | SendReady(ok: bool)

  datatype Failure =
    | ChannelQuery | ChannelInvalid | ReceiveFailed | ReceiveCounts | InitInvalid | LoadFailed | MappingFailed
    | CleanupFailed | RelayFailed | SupervisionFailed | BadExit | HandleCloseFailed | ReadyFailed | ChannelCloseFailed

  /** What the platform decides at one call: success, a detail of the result, and the outcome of a supervision. */
  datatype Reply = Reply(ok: bool, detail: bool, outcome: Supervision)

  /** Call `i` was answered as the platform decides; a mapping succeeds only when it has run the loading callback. */
  ghost predicate AnsweredBy(t: seq<Effect>, i: nat, replies: nat -> Reply)
    requires i < |t|
  {
    match t[i]
    case Supervise(outcome) => outcome == replies(i).outcome
    case QueryExit(exited) => exited == replies(i).ok
    case MapBootfs(ok) => ok == (replies(i).ok && i > 0 && t[i - 1].LoadChild?)
    case QueryChannel(ok) => ok == replies(i).ok
    case Receive(ok) => ok == replies(i).ok
    case Prepare(ok) => ok == replies(i).ok
    case LoadChild(ok) => ok == replies(i).ok
    case Relay(ok) => ok == replies(i).ok
    case WaitExit(ok) => ok == replies(i).ok
    case Terminate(ok) => ok == replies(i).ok
    case Close(_, ok) => ok == replies(i).ok
    case SendReady(ok) => ok == replies(i).ok
  }

  /** The platform: it answers its n-th call as it likes, and every call is recorded. */
  class Platform {
    const replies: nat -> Reply
    var trace: seq<Effect>

    constructor (replies: nat -> Reply)
      ensures trace == [] && this.replies == replies && Faithful()
    {
      this.replies, trace := replies, [];
    }

    /** Every recorded answer is the platform's. */
    ghost predicate Faithful()
      reads this
    {
      forall i {:trigger AnsweredBy(trace, i, replies)} :: 0 <= i < |trace| ==> AnsweredBy(trace, i, replies)
    }

    /** The decision on the next call. */
    function Next(): Reply
      reads this
    {
      replies(|trace|)
    }

    function Answer(): bool
      reads this
    {
      Next().ok
    }

    method Call(e: Effect)
      requires Faithful() && AnsweredBy(trace + [e], |trace|, replies)
      modifies this
      ensures Faithful() && trace == old(trace) + [e]
    {
      ghost var before := trace;
      trace := trace + [e];
      forall i | 0 <= i < |trace| ensures AnsweredBy(trace, i, replies) {
        if i < |before| { assert AnsweredBy(before, i, replies); }
      }
    }

    /** Closes the handle of the given role; the answer may be an error, but the attempt is made. */
    method CloseHandle(role: Role) returns (ok: bool)
      requires Faithful()
      modifies this
      ensures Faithful()
      ensures trace == old(trace) + [Close(role, ok)]
    {
      ok := Answer();
      Call(Close(role, ok));
    }

    /** The exit status if the process has exited; its value is the platform's choice. */
    method QueryTermination() returns (exited: Option<bool>)
      requires Faithful()
      modifies this
      ensures Faithful()
      ensures trace == old(trace) + [QueryExit(exited.Some?)]
    {
      exited := if Answer() then Some(Next().detail) else None;
      Call(QueryExit(exited.Some?));
    }
  }

  // ---- Segments of a trace ---------------------------------------------------------------

  /** The effects that are counted: closes of a handle, successful ones, terminations, READY messages, sent ones. */
  datatype Kind = Closing(role: Role) | Closed(role: Role) | Terminating | Readying | Sent

  predicate IsKind(e: Effect, k: Kind) {
    match k
    case Closing(role) => e.Close? && e.role == role
    case Closed(role) => e.Close? && e.role == role && e.ok
    case Terminating => e.Terminate?
    case Readying => e.SendReady?
    case Sent => e == SendReady(true)
  }

  function Bit(b: bool): nat { if b then 1 else 0 }

  /** How often a trace has an effect of a kind. */
  function Count(t: seq<Effect>, k: Kind): nat {
    if t == [] then 0 else Count(t[..|t| - 1], k) + Bit(IsKind(t[|t| - 1], k))
  }

  lemma {:induction false} CountJoin(a: seq<Effect>, b: seq<Effect>, k: Kind)
    ensures Count(a + b, k) == Count(a, k) + Count(b, k)
  {
    if b == [] {
      assert a + b == a;
    } else {
      var n := |b| - 1;
      assert (a + b)[..|a| + n] == a + b[..n] && (a + b)[|a| + n] == b[n];
      CountJoin(a, b[..n], k);
    }
  }

  lemma {:induction false} CountOne(e: Effect, k: Kind)
    ensures Count([e], k) == Bit(IsKind(e, k))
  {
    assert [e][..0] == [];
  }

  lemma {:induction false} CountTwo(e: Effect, f: Effect, k: Kind)
    ensures Count([e, f], k) == Bit(IsKind(e, k)) + Bit(IsKind(f, k))
  {
    assert [e, f] == [e] + [f];
    CountJoin([e], [f], k);
    CountOne(e, k);
    CountOne(f, k);
  }

  predicate Observes(e: Effect) { e == QueryExit(true) || e == Supervise(ExitSeen) || e == Supervise(Succeeded) }

  /** Nothing observed the process exit. */
  ghost predicate Unobserved(t: seq<Effect>) { forall i :: 0 <= i < |t| ==> !Observes(t[i]) }

  predicate Quiet(e: Effect) { !e.Terminate? && !e.Close? && !e.SendReady? }

  ghost predicate AllQuiet(t: seq<Effect>) { forall i :: 0 <= i < |t| ==> Quiet(t[i]) }

  /** The child's cleanup: an optional termination, then exactly one close of each handle. */
  ghost predicate IsCleanup(t: seq<Effect>, terminate: bool, launch: bool, process: bool) {
    && |t| >= 2 && t[|t| - 2..] == [Close(LaunchChannel, launch), Close(ProcessHandle, process)]
    && IsHead(t[..|t| - 2], terminate)
  }

  ghost predicate IsHead(head: seq<Effect>, terminate: bool) {
    if !terminate then head == []
    else head == [Terminate(true)] || head == [Terminate(false)]
         || head == [Terminate(false), QueryExit(true)] || head == [Terminate(false), QueryExit(false)]
  }

  /** A cleanup that succeeds has closed both handles, and without a termination that is all it takes. */
  predicate Reported(ok: bool, terminate: bool, launch: bool, process: bool) {
    (ok ==> launch && process) && (launch && process && !terminate ==> ok)
  }

  function Closes(launch: bool, process: bool): seq<Effect> {
    [Close(LaunchChannel, launch), Close(ProcessHandle, process)]
  }

  /** The cleanup of a child that was only loaded succeeds when the termination, if asked for, and both closes do. */
  ghost predicate LoadedCleanup(t: seq<Effect>, terminate: bool, ended: bool, launch: bool, process: bool, ok: bool) {
    && t == (if terminate then [Terminate(ended)] else []) + Closes(launch, process)
    && (ok <==> (terminate ==> ended) && launch && process)
  }

  /** The cleanup of a supervised child forgives a failed termination exactly when the exit is then seen. */
  ghost predicate SupervisedCleanup(t: seq<Effect>, terminate: bool, ended: bool, seen: bool, launch: bool,
                                    process: bool, ok: bool) {
    && t == (if !terminate then [] else if ended then [Terminate(true)] else [Terminate(false), QueryExit(seen)])
       + Closes(launch, process)
    && (ok <==> (terminate ==> ended || seen) && launch && process)
  }

  /** `cleanup_loaded_process`. */
  method CleanupLoaded(p: Platform, terminate: bool) returns (ok: bool, ghost done: seq<Effect>)
    requires p.Faithful()
    modifies p
    ensures p.Faithful()
    ensures p.trace == old(p.trace) + done
    ensures exists ended, launch, process :: LoadedCleanup(done, terminate, ended, launch, process, ok)
    ensures Later(done) && !Supervises(done) && (!ok ==> Uncleaned(done))
    ensures exists launch, process ::
              IsCleanup(done, terminate, launch, process) && Reported(ok, terminate, launch, process)
  {
    ok, done := true, [];
    var ended := true;
    if terminate {
      ended := p.Answer();
      p.Call(Terminate(ended));
      done := [Terminate(ended)];
      ok := ended;
    }
    var launch, process := CloseChild(p);
    done := done + [Close(LaunchChannel, launch), Close(ProcessHandle, process)];
    ok := ok && launch && process;
    assert LoadedCleanup(done, terminate, ended, launch, process, ok);
    LoadedCleanupMeans(done, terminate, ended, launch, process, ok);
  }

  lemma LoadedCleanupMeans(t: seq<Effect>, terminate: bool, ended: bool, launch: bool, process: bool, ok: bool)
    requires LoadedCleanup(t, terminate, ended, launch, process, ok)
    ensures Later(t) && !Supervises(t) && (!ok ==> Uncleaned(t))
    ensures IsCleanup(t, terminate, launch, process) && Reported(ok, terminate, launch, process)
  {
    var head := if terminate then [Terminate(ended)] else [];
    assert t[..|t| - 2] == head;
    CleanupParts(t, head, launch, process);
  }

  /** What a cleanup consists of. */
  lemma CleanupParts(t: seq<Effect>, head: seq<Effect>, launch: bool, process: bool)
    requires t == head + Closes(launch, process)
    ensures forall e :: e in t <==> e in head || e == Close(LaunchChannel, launch) || e == Close(ProcessHandle, process)
  {
    assert t[|head|] == Close(LaunchChannel, launch) && t[|head| + 1] == Close(ProcessHandle, process);
  }

  /** `cleanup_supervised_process`: a failed termination is forgiven when the process turns out to have exited. */
  method CleanupSupervised(p: Platform, terminate: bool) returns (ok: bool, exit: Option<bool>, ghost done: seq<Effect>)
    requires p.Faithful()
    modifies p
    ensures p.Faithful()
    ensures p.trace == old(p.trace) + done
    ensures exists ended, launch, process :: SupervisedCleanup(done, terminate, ended, exit.Some?, launch, process, ok)
    ensures Later(done) && !Supervises(done) && (!ok ==> Uncleaned(done)) && (exit.Some? ==> QueryExit(true) in done)
    ensures exit.Some? ==> terminate
  {
    ok, exit, done := true, None, [];
    var ended := true;
    if terminate {
      ended := p.Answer();
      p.Call(Terminate(ended));
      done := [Terminate(ended)];
      if !ended {
        exit := p.QueryTermination();
        done := done + [QueryExit(exit.Some?)];
        ok := exit.Some?;
      }
    }
    var launch, process := CloseChild(p);
    done := done + [Close(LaunchChannel, launch), Close(ProcessHandle, process)];
    ok := ok && launch && process;
    assert SupervisedCleanup(done, terminate, ended, exit.Some?, launch, process, ok);
    SupervisedCleanupMeans(done, terminate, ended, exit.Some?, launch, process, ok);
  }

  lemma SupervisedCleanupMeans(t: seq<Effect>, terminate: bool, ended: bool, seen: bool, launch: bool, process: bool,
                               ok: bool)
    requires SupervisedCleanup(t, terminate, ended, seen, launch, process, ok) && (seen ==> terminate && !ended)
    ensures Later(t) && !Supervises(t) && (!ok ==> Uncleaned(t)) && (seen ==> QueryExit(true) in t)
  {
    var head := if !terminate then [] else if ended then [Terminate(true)] else [Terminate(false), QueryExit(seen)];
    CleanupParts(t, head, launch, process);
  }

  /** The cleanup as the operation uses it. */
  method CleanChild(p: Platform, terminate: bool) returns (ok: bool, exit: Option<bool>, ghost done: seq<Effect>)
    requires p.Faithful()
    modifies p
    ensures p.Faithful()
    ensures p.trace == old(p.trace) + done
    ensures exists launch, process ::
              IsCleanup(done, terminate, launch, process) && Reported(ok, terminate, launch, process)
    ensures exit.Some? ==> terminate
    ensures Later(done) && !Supervises(done) && (!ok ==> Uncleaned(done)) && (exit.Some? ==> QueryExit(true) in done)
  {
    ok, exit, done := CleanupSupervised(p, terminate);
    ghost var ended, launch, process :| SupervisedCleanup(done, terminate, ended, exit.Some?, launch, process, ok);
    ghost var head := if !terminate then [] else if ended then [Terminate(true)]
                      else [Terminate(false), QueryExit(exit.Some?)];
    assert done == head + Closes(launch, process) && done[..|done| - 2] == head;
    assert IsCleanup(done, terminate, launch, process) && Reported(ok, terminate, launch, process);
  }

  /** Both handles of the child, whatever the first close answers. */
  method CloseChild(p: Platform) returns (launch: bool, process: bool)
    requires p.Faithful()
    modifies p
    ensures p.Faithful()
    ensures p.trace == old(p.trace) + [Close(LaunchChannel, launch), Close(ProcessHandle, process)]
  {
    launch := p.CloseHandle(LaunchChannel);
    process := p.CloseHandle(ProcessHandle);
  }

  /** The closes of the received handles, in order, one attempt each. */
  ghost predicate ClosesReceived(t: seq<Effect>, n: nat) {
    |t| == n && forall i :: 0 <= i < n ==> t[i] == Close(Received(i), t[i].Close? && t[i].ok)
  }

  /** `close_received_handles`: an error does not stop the remaining closes. */
  method CloseReceived(p: Platform, n: nat) returns (ok: bool, ghost done: seq<Effect>)
    requires p.Faithful()
    modifies p
    ensures p.Faithful()
    ensures p.trace == old(p.trace) + done && ClosesReceived(done, n)
    ensures ok <==> AllClosed(done)
  {
    ok, done := true, [];
    ghost var before := p.trace;
    for i := 0 to n
      invariant p.Faithful() && p.trace == before + done && ClosesReceived(done, i)
      invariant ok <==> AllClosed(done)
    {
      var closed := p.CloseHandle(Received(i));
      done := done + [Close(Received(i), closed)];
      ok := ok && closed;
    }
  }

  /** `observe_terminal_after_relay_failure`. */
  method ObserveTerminal(p: Platform) returns (exit: Option<bool>, ghost done: seq<Effect>)
    requires p.Faithful()
    modifies p
    ensures p.Faithful()
    ensures p.trace == old(p.trace) + done && AllQuiet(done)
    ensures exit.None? <==> Unobserved(done)
    ensures Later(done) && !Supervises(done) && (exit.Some? ==> QueryExit(true) in done)
  {
    exit := p.QueryTermination();
    done := [QueryExit(exit.Some?)];
    if exit.Some? {
      assert Observes(done[0]);
      return;
    }
    var waited := p.Answer();
    p.Call(WaitExit(waited));
    done := done + [WaitExit(waited)];
    if !waited {
      return;
    }
    exit := p.QueryTermination();
    done := done + [QueryExit(exit.Some?)];
    assert exit.Some? ==> Observes(done[2]);
  }

  // ---- The operation ---------------------------------------------------------------------

  /** What the part between receiving INIT and closing the received handles may do. */
  ghost predicate IsOperation(t: seq<Effect>, ok: bool) {
    || (!ok && AllQuiet(t) && LoadChild(true) !in t && Unobserved(t))
    || exists quiet, cleanup, terminate, launch, process :: WithChild(t, ok, quiet, cleanup, terminate, launch, process)
  }

  /** An operation that published a child: quiet effects, then its cleanup. */
  ghost predicate WithChild(t: seq<Effect>, ok: bool, quiet: seq<Effect>, cleanup: seq<Effect>, terminate: bool,
                            launch: bool, process: bool) {
    && t == quiet + cleanup && AllQuiet(quiet) && LoadChild(true) in quiet
    && IsCleanup(cleanup, terminate, launch, process)
    && (terminate <==> Unobserved(quiet))
    && (ok <==> launch && process && Supervise(Succeeded) in quiet)
  }

  // ---- What is tried, and what a failure says --------------------------------------------

  predicate Prepares(t: seq<Effect>) { Prepare(true) in t || Prepare(false) in t }
  predicate Maps(t: seq<Effect>) { MapBootfs(true) in t || MapBootfs(false) in t }
  predicate Loads(t: seq<Effect>) { LoadChild(true) in t || LoadChild(false) in t }
  predicate Relays(t: seq<Effect>) { Relay(true) in t || Relay(false) in t }
  predicate Supervises(t: seq<Effect>) {
    Supervise(Succeeded) in t || Supervise(ExitSeen) in t || Supervise(NoExitSeen) in t
  }

  /** Each step is tried exactly when the one before it has succeeded. */
  ghost predicate Attempts(t: seq<Effect>) {
    && Prepares(t) && (Maps(t) <==> Prepare(true) in t)
    && (Relays(t) <==> LoadChild(true) in t && MapBootfs(true) in t)
    && (Supervises(t) <==> Relay(true) in t)
  }

  /** A step of the child's cleanup failed. */
  predicate Uncleaned(t: seq<Effect>) {
    Close(LaunchChannel, false) in t || Close(ProcessHandle, false) in t || Terminate(false) in t
  }

  /** The failure of an operation names the step that failed. */
  ghost predicate Explains(t: seq<Effect>, failure: Option<Failure>) {
    match failure
    case None => Supervise(Succeeded) in t
    case Some(InitInvalid) => Prepare(false) in t
    case Some(LoadFailed) => MapBootfs(true) in t && LoadChild(true) !in t
    case Some(MappingFailed) => MapBootfs(false) in t
    case Some(CleanupFailed) => LoadChild(true) in t && Uncleaned(t)
    case Some(BadExit) => Relays(t) && QueryExit(true) in t
    case Some(RelayFailed) => Relay(false) in t
    case Some(SupervisionFailed) => Supervise(ExitSeen) in t || Supervise(NoExitSeen) in t
    case _ => false
  }

  /** Effects after the relay. */
  ghost predicate Later(t: seq<Effect>) { !Prepares(t) && !Maps(t) && !Loads(t) && !Relays(t) }

  /** Maps the boot archive and loads the child. When mapping reports an error after the child was published, the
      child is cleaned up. */
  method LoadPhase(p: Platform) returns (failure: Option<Failure>, ghost done: seq<Effect>)
    requires p.Faithful()
    modifies p
    ensures p.Faithful()
    ensures p.trace == old(p.trace) + done
    ensures failure.None? ==> AllQuiet(done) && Unobserved(done) && LoadChild(true) in done
    ensures failure.Some? ==> IsOperation(done, false) && Explains(done, failure)
    ensures Prepares(done) && (Maps(done) <==> Prepare(true) in done) && !Relays(done) && !Supervises(done)
    ensures failure.None? <==> LoadChild(true) in done && MapBootfs(true) in done
  {
    ghost var before := p.trace;
    var ready, loaded, mapped;
    ghost var entered;
    ready, loaded, mapped, entered := TryLoad(p);
    done := LoadEffects(ready, entered, loaded, mapped);
    LoadMeans(ready, entered, loaded, mapped);
    if !ready {
      return Some(InitInvalid), done;
    }
    if !mapped && loaded {
      var clean;
      ghost var cleanup;
      clean, cleanup := CleanupLoaded(p, true);
      Joined(before, done, cleanup);
      CleanedExplains(done, cleanup, clean);
      done := done + cleanup;
      return Some(if clean then MappingFailed else CleanupFailed), done;
    }
    if !mapped {
      return Some(MappingFailed), done;
    }
    if !loaded {
      return Some(LoadFailed), done;
    }
    return None, done;
  }

  /** The checks, the loading callback if the platform runs it, and the mapping around it. */
  function LoadEffects(ready: bool, entered: bool, loaded: bool, mapped: bool): seq<Effect> {
    if !ready then [Prepare(false)]
    else if !entered then [Prepare(true), MapBootfs(mapped)]
    else [Prepare(true), LoadChild(loaded), MapBootfs(mapped)]
  }

  /** The platform runs the loading callback at most once, and always when it reports success. */
  method TryLoad(p: Platform) returns (ready: bool, loaded: bool, mapped: bool, ghost entered: bool)
    requires p.Faithful()
    modifies p
    ensures p.Faithful()
    ensures p.trace == old(p.trace) + LoadEffects(ready, entered, loaded, mapped)
    ensures loaded || mapped ==> ready && entered
  {
    loaded, mapped, entered := false, false, false;
    ready := p.Answer();
    p.Call(Prepare(ready));
    if !ready {
      return;
    }
    var runs := p.Next().detail;
    entered := runs;
    if runs {
      loaded := p.Answer();
      p.Call(LoadChild(loaded));
    }
    mapped := runs && p.Answer();
    p.Call(MapBootfs(mapped));
  }

  lemma LoadMeans(ready: bool, entered: bool, loaded: bool, mapped: bool)
    requires loaded || mapped ==> ready && entered
    ensures var t := LoadEffects(ready, entered, loaded, mapped);
            && AllQuiet(t) && Unobserved(t) && Prepares(t) && !Relays(t) && !Supervises(t)
            && (Prepare(true) in t <==> ready) && (Prepare(false) in t <==> !ready) && (Maps(t) <==> ready)
            && (LoadChild(true) in t <==> loaded) && (MapBootfs(true) in t <==> mapped)
            && (MapBootfs(false) in t <==> ready && !mapped)
  {
    var t := LoadEffects(ready, entered, loaded, mapped);
    if ready && entered {
      assert t[0] == Prepare(true) && t[1] == LoadChild(loaded) && t[2] == MapBootfs(mapped);
    } else if ready {
      assert t[0] == Prepare(true) && t[1] == MapBootfs(mapped);
    } else {
      assert t[0] == Prepare(false);
    }
  }

  /** A child that was published although mapping failed is terminated and closed. */
  lemma CleanedExplains(quiet: seq<Effect>, cleanup: seq<Effect>, clean: bool)
    requires AllQuiet(quiet) && Unobserved(quiet) && LoadChild(true) in quiet && Prepare(true) in quiet
    requires MapBootfs(false) in quiet && MapBootfs(true) !in quiet && !Relays(quiet) && !Supervises(quiet)
    requires Later(cleanup) && !Supervises(cleanup) && (!clean ==> Uncleaned(cleanup))
    requires exists launch, process :: IsCleanup(cleanup, true, launch, process)
    ensures IsOperation(quiet + cleanup, false)
    ensures Explains(quiet + cleanup, Some(if clean then MappingFailed else CleanupFailed))
    ensures var t := quiet + cleanup;
            Prepare(true) in t && Maps(t) && !Relays(t) && !Supervises(t) && MapBootfs(true) !in t
  {
    CleanedOperation(quiet, cleanup);
    CleanedMembers(quiet, cleanup, clean);
  }

  lemma CleanedOperation(quiet: seq<Effect>, cleanup: seq<Effect>)
    requires AllQuiet(quiet) && Unobserved(quiet) && LoadChild(true) in quiet && !Supervises(quiet)
    requires exists launch, process :: IsCleanup(cleanup, true, launch, process)
    ensures IsOperation(quiet + cleanup, false)
  {
    var launch, process :| IsCleanup(cleanup, true, launch, process);
    ChildOperation(quiet + cleanup, false, quiet, cleanup, true, launch, process);
  }

  lemma CleanedMembers(quiet: seq<Effect>, cleanup: seq<Effect>, clean: bool)
    requires LoadChild(true) in quiet && Prepare(true) in quiet
    requires MapBootfs(false) in quiet && MapBootfs(true) !in quiet && !Relays(quiet) && !Supervises(quiet)
    requires Later(cleanup) && !Supervises(cleanup) && (!clean ==> Uncleaned(cleanup))
    ensures Explains(quiet + cleanup, Some(if clean then MappingFailed else CleanupFailed))
    ensures var t := quiet + cleanup;
            Prepare(true) in t && Maps(t) && !Relays(t) && !Supervises(t) && MapBootfs(true) !in t
  {
  }

  lemma Joined(before: seq<Effect>, a: seq<Effect>, b: seq<Effect>)
    ensures before + a + b == before + (a + b)
  {
  }

  /** The operation closure of the transaction. */
  method Operate(p: Platform) returns (failure: Option<Failure>, ghost done: seq<Effect>)
    requires p.Faithful()
    modifies p
    ensures p.Faithful()
    ensures p.trace == old(p.trace) + done
    ensures IsOperation(done, failure.None?) && Attempts(done) && Explains(done, failure)
  {
    ghost var before := p.trace;
    failure, done := LoadPhase(p);
    if failure.Some? {
      return;
    }
    var relayed := p.Answer();
    p.Call(Relay(relayed));
    Joined(before, done, [Relay(relayed)]);
    ghost var rest, loading := [], done + [Relay(relayed)];
    assert loading[|done|] == Relay(relayed);
    Loaded(done, relayed);
    if relayed {
      failure, rest := Supervised(p, loading);
    } else {
      failure, rest := RelayFailure(p, loading);
    }
    Joined(before, loading, rest);
    AttemptsAfter(done, relayed, rest);
    done := loading + rest;
  }

  /** What is tried after a child was loaded. */
  lemma AttemptsAfter(loaded: seq<Effect>, relayed: bool, rest: seq<Effect>)
    requires Prepare(true) in loaded && MapBootfs(true) in loaded && LoadChild(true) in loaded
    requires !Relays(loaded) && !Supervises(loaded) && Later(rest) && (Supervises(rest) <==> relayed)
    ensures Attempts(loaded + [Relay(relayed)] + rest)
  {
    var t := loaded + [Relay(relayed)] + rest;
    assert t[|loaded|] == Relay(relayed);
    RelayMembers(loaded, relayed, rest, Relay(!relayed));
  }

  lemma RelayMembers(loaded: seq<Effect>, relayed: bool, rest: seq<Effect>, e: Effect)
    ensures e in loaded + [Relay(relayed)] + rest <==> e in loaded || e == Relay(relayed) || e in rest
  {
  }

  lemma Loaded(done: seq<Effect>, relayed: bool)
    requires AllQuiet(done) && Unobserved(done) && LoadChild(true) in done
    ensures var loading := done + [Relay(relayed)];
            AllQuiet(loading) && Unobserved(loading) && LoadChild(true) in loading
  {
  }

  /** The path after a failed relay: observe the exit, clean up, and report. */
  method RelayFailure(p: Platform, ghost loading: seq<Effect>)
    returns (failure: Option<Failure>, ghost rest: seq<Effect>)
    requires AllQuiet(loading) && Unobserved(loading) && LoadChild(true) in loading
    requires p.Faithful()
    modifies p
    ensures p.Faithful()
    ensures p.trace == old(p.trace) + rest
    ensures failure.Some? && IsOperation(loading + rest, false)
    ensures Later(rest) && !Supervises(rest)
    ensures Relay(false) in loading ==> Explains(loading + rest, failure)
  {
    ghost var before := p.trace;
    var terminal, clean, late;
    ghost var more, cleanup;
    terminal, more := ObserveTerminal(p);
    clean, late, cleanup := CleanChild(p, terminal.None?);
    rest := more + cleanup;
    Joined(before, more, cleanup);
    FinishOperation(loading, more, cleanup, terminal.None?, false);
    var exit := if terminal.Some? then terminal else late;
    failure := Some(if !clean then CleanupFailed else if exit.Some? && !exit.value then BadExit else RelayFailed);
  }

  /** Quiet effects before and after the relay, then the cleanup, make an operation. */
  lemma FinishOperation(loading: seq<Effect>, more: seq<Effect>, cleanup: seq<Effect>, terminate: bool, ok: bool)
    requires AllQuiet(loading) && LoadChild(true) in loading && AllQuiet(more)
    requires Unobserved(loading) && (terminate <==> Unobserved(more))
    requires exists launch, process ::
               IsCleanup(cleanup, terminate, launch, process)
                 && (ok <==> launch && process && Supervise(Succeeded) in more)
    ensures IsOperation(loading + (more + cleanup), ok)
  {
    var launch, process :|
      IsCleanup(cleanup, terminate, launch, process) && (ok <==> launch && process && Supervise(Succeeded) in more);
    var quiet, t := loading + more, loading + (more + cleanup);
    Joined(loading, more, cleanup);
    QuietTogether(loading, more);
    ChildOperation(t, ok, quiet, cleanup, terminate, launch, process);
  }

  lemma ChildOperation(t: seq<Effect>, ok: bool, quiet: seq<Effect>, cleanup: seq<Effect>, terminate: bool,
                       launch: bool, process: bool)
    requires WithChild(t, ok, quiet, cleanup, terminate, launch, process)
    ensures IsOperation(t, ok)
  {
  }

  lemma QuietTogether(a: seq<Effect>, b: seq<Effect>)
    requires AllQuiet(a) && AllQuiet(b)
    ensures AllQuiet(a + b) && (Unobserved(a + b) <==> Unobserved(a) && Unobserved(b))
    ensures forall e :: e in a || e in b <==> e in a + b
  {
    assert forall i :: 0 <= i < |a| ==> (a + b)[i] == a[i];
    assert forall i :: 0 <= i < |b| ==> (a + b)[|a| + i] == b[i];
  }

  /** Supervision, the late exit query and the cleanup that follows. */
  method Supervised(p: Platform, ghost loading: seq<Effect>) returns (failure: Option<Failure>, ghost rest: seq<Effect>)
    requires AllQuiet(loading) && Unobserved(loading) && LoadChild(true) in loading
    requires p.Faithful()
    modifies p
    ensures p.Faithful()
    ensures p.trace == old(p.trace) + rest
    ensures IsOperation(loading + rest, failure.None?)
    ensures Later(rest) && Supervises(rest)
    ensures Relay(true) in loading ==> Explains(loading + rest, failure)
  {
    ghost var before := p.trace;
    var outcome, late;
    ghost var more;
    outcome, late, more := Watch(p);
    var terminate := outcome == NoExitSeen && late.None?;
    var clean, exit;
    ghost var cleanup;
    clean, exit, cleanup := CleanChild(p, terminate);
    rest := more + cleanup;
    Joined(before, more, cleanup);
    var status := if late.Some? then late else exit;
    failure := if !clean then Some(CleanupFailed)
               else if status.Some? && !status.value then Some(BadExit)
               else if outcome != Succeeded then Some(SupervisionFailed)
               else None;
    FinishOperation(loading, more, cleanup, terminate, failure.None?);
    SupervisedExplains(loading, more, cleanup, outcome, failure);
  }

  lemma SupervisedExplains(loading: seq<Effect>, more: seq<Effect>, cleanup: seq<Effect>, outcome: Supervision,
                           failure: Option<Failure>)
    requires Later(more) && Later(cleanup) && Supervise(outcome) in more && LoadChild(true) in loading
    requires match failure
             case None => outcome == Succeeded
             case Some(CleanupFailed) => Uncleaned(cleanup)
             case Some(BadExit) => QueryExit(true) in more || QueryExit(true) in cleanup
             case Some(SupervisionFailed) => outcome != Succeeded
             case _ => false
    ensures Later(more + cleanup) && Supervises(more + cleanup)
    ensures Relay(true) in loading ==> Explains(loading + (more + cleanup), failure)
  {
    assert forall e :: e in loading + (more + cleanup) <==> e in loading || e in more || e in cleanup;
  }

  /** Supervises the child, and asks once more for its exit when supervision did not see one. */
  method Watch(p: Platform) returns (outcome: Supervision, late: Option<bool>, ghost more: seq<Effect>)
    requires p.Faithful()
    modifies p
    ensures p.Faithful()
    ensures p.trace == old(p.trace) + more && AllQuiet(more)
    ensures outcome == NoExitSeen && late.None? <==> Unobserved(more)
    ensures outcome == Succeeded <==> Supervise(Succeeded) in more
    ensures outcome == Succeeded ==> late.None?
    ensures Later(more) && Supervise(outcome) in more && (late.Some? ==> QueryExit(true) in more)
  {
    outcome, late := p.Next().outcome, None;
    p.Call(Supervise(outcome));
    more := [Supervise(outcome)];
    assert outcome != NoExitSeen ==> Observes(more[0]);
    if outcome == NoExitSeen {
      late := p.QueryTermination();
      more := more + [QueryExit(late.Some?)];
      assert late.Some? ==> Observes(more[1]);
    }
  }

  // ---- The transaction -------------------------------------------------------------------

  /** The whole trace: nothing of note before INIT is accepted, then operation, closes and READY. */
  ghost predicate IsTransaction(t: seq<Effect>, handles: nat, accepted: bool, completed: bool) {
    exists start, operation, closes, finish, ok ::
        Parts(t, handles, accepted, completed, start, operation, closes, finish, ok)
  }

  ghost predicate Parts(t: seq<Effect>, handles: nat, accepted: bool, completed: bool,
                        start: seq<Effect>, operation: seq<Effect>, closes: seq<Effect>,
                        finish: seq<Effect>, ok: bool) {
    && t == start + operation + closes + finish && AllQuiet(start) && LoadChild(true) !in start && Unobserved(start)
    && (if accepted then IsOperation(operation, ok) && ClosesReceived(closes, handles)
        else operation == [] && closes == [] && finish == [] && !ok)
    && IsFinish(finish, ok && AllClosed(closes), completed)
  }

  ghost predicate AllClosed(closes: seq<Effect>) {
    forall i :: 0 <= i < |closes| ==> closes[i] == Close(Received(i), true)
  }

  /** READY is sent only when everything before it succeeded, and the channel is closed only after a sent READY. */
  ghost predicate IsFinish(t: seq<Effect>, allowed: bool, completed: bool) {
    || (t == [] && !allowed && !completed)
    || (allowed && t == [SendReady(false)] && !completed)
    || (allowed && t == [SendReady(true), Close(BootstrapChannel, completed)])
  }

  /** `run_init0_bootstrap_with_fault_and_before_supervision`; the message's handle count is the platform's choice. */
  method RunBootstrap(p: Platform, handles: nat, inBounds: bool)
    returns (failure: Option<Failure>, ghost accepted: bool)
    requires p.trace == []
    requires p.Faithful()
    modifies p
    ensures p.Faithful()
    ensures IsTransaction(p.trace, handles, accepted, failure.None?)
    ensures accepted <==> inBounds && |p.trace| > 1 && p.trace[1] == Receive(true)
    ensures Verdict(p.trace, failure) && (accepted ==> Attempts(p.trace)) && (!accepted ==> |p.trace| <= 2)
  {
    accepted := false;
    var known, valid := p.Answer(), p.Next().detail;
    p.Call(QueryChannel(known));
    if !known {
      NotStarted(p.trace, handles);
      return Some(ChannelQuery), accepted;
    }
    if !valid {
      NotStarted(p.trace, handles);
      return Some(ChannelInvalid), accepted;
    }
    var received := p.Answer();
    p.Call(Receive(received));
    if !received || !inBounds {
      NotStarted(p.trace, handles);
      return Some(if !received then ReceiveFailed else ReceiveCounts), accepted;
    }
    accepted := true;
    failure := Transact(p, handles);
  }

  /** From the accepted INIT on. */
  method Transact(p: Platform, handles: nat) returns (failure: Option<Failure>)
    requires p.trace == [QueryChannel(true), Receive(true)]
    requires p.Faithful()
    modifies p
    ensures p.Faithful()
    ensures IsTransaction(p.trace, handles, true, failure.None?) && old(p.trace) <= p.trace
    ensures Attempts(p.trace) && Verdict(p.trace, failure)
  {
    ghost var start := p.trace;
    var operated, closed;
    ghost var operation, closes;
    operated, operation := Operate(p);
    closed, closes := CloseReceived(p, handles);
    ghost var finish := [];
    if operated.Some? || !closed {
      assert p.trace == p.trace + [];
      failure := if operated.Some? then operated else Some(HandleCloseFailed);
    } else {
      failure, finish := SendReadyAndClose(p);
    }
    TransactionIs(p.trace, handles, start, operation, closes, finish, operated.None?, failure.None?);
    Concludes(p.trace, handles, operation, closes, finish, operated, failure);
  }

  /** How the parts of a transaction decide its failure. */
  ghost predicate Decides(operated: Option<Failure>, closes: seq<Effect>, finish: seq<Effect>,
                          failure: Option<Failure>) {
    if operated.Some? then failure == operated && finish == []
    else if !AllClosed(closes) then failure == Some(HandleCloseFailed) && finish == []
    else finish == FinishOf(failure)
         && (failure.None? || failure.value.ReadyFailed? || failure.value.ChannelCloseFailed?)
  }

  function FinishOf(failure: Option<Failure>): seq<Effect> {
    if failure == Some(ReadyFailed) then [SendReady(false)]
    else [SendReady(true), Close(BootstrapChannel, failure.None?)]
  }

  lemma Concludes(t: seq<Effect>, handles: nat, operation: seq<Effect>, closes: seq<Effect>, finish: seq<Effect>,
                  operated: Option<Failure>, failure: Option<Failure>)
    requires t == [QueryChannel(true), Receive(true)] + operation + closes + finish
    requires Attempts(operation) && Explains(operation, operated) && ClosesReceived(closes, handles)
    requires Decides(operated, closes, finish, failure)
    ensures Attempts(t) && Verdict(t, failure)
  {
    WholeExplains(t, handles, operation, closes, finish, operated);
    if operated.None? && !AllClosed(closes) {
      SomeUnclosed(closes, handles);
    } else if operated.None? {
      assert finish[0] in finish && finish[|finish| - 1] in finish;
    }
  }

  /** The failure of a transaction names the step that failed. */
  ghost predicate Verdict(t: seq<Effect>, failure: Option<Failure>) {
    match failure
    case None => Supervise(Succeeded) in t && SendReady(true) in t && Close(BootstrapChannel, true) in t
    case Some(ChannelQuery) => t == [QueryChannel(false)]
    case Some(ChannelInvalid) => t == [QueryChannel(true)]
    case Some(ReceiveFailed) => t == [QueryChannel(true), Receive(false)]
    case Some(ReceiveCounts) => t == [QueryChannel(true), Receive(true)]
    case Some(HandleCloseFailed) => Supervise(Succeeded) in t && exists i :: Close(Received(i), false) in t
    case Some(ReadyFailed) => Supervise(Succeeded) in t && SendReady(false) in t
    case Some(ChannelCloseFailed) => SendReady(true) in t && Close(BootstrapChannel, false) in t
    case _ => Explains(t, failure)
  }

  /** Receiving, closing and finishing neither try nor explain a step of the operation. */
  lemma WholeExplains(t: seq<Effect>, handles: nat, operation: seq<Effect>, closes: seq<Effect>, finish: seq<Effect>,
                      operated: Option<Failure>)
    requires t == [QueryChannel(true), Receive(true)] + operation + closes + finish
    requires Attempts(operation) && Explains(operation, operated) && ClosesReceived(closes, handles)
    requires forall e :: e in finish ==> e.SendReady? || e.Close?
    ensures Attempts(t) && Explains(t, operated)
    ensures forall e :: e in operation || e in closes || e in finish ==> e in t
  {
    var start := [QueryChannel(true), Receive(true)];
    assert forall e :: e in closes ==> e.Close? && e.role.Received?;
    forall e ensures e in t <==> e in start || e in operation || e in closes || e in finish {
      assert e in t <==> e in start + operation + closes || e in finish;
    }
  }

  lemma SomeUnclosed(closes: seq<Effect>, handles: nat)
    requires ClosesReceived(closes, handles) && !AllClosed(closes)
    ensures exists i :: Close(Received(i), false) in closes
  {
    var i :| 0 <= i < |closes| && closes[i] != Close(Received(i), true);
    assert closes[i] == Close(Received(i), false);
  }

  /** `send_primordial_ready`. */
  method SendReadyAndClose(p: Platform) returns (failure: Option<Failure>, ghost finish: seq<Effect>)
    requires p.Faithful()
    modifies p
    ensures p.Faithful()
    ensures p.trace == old(p.trace) + finish && IsFinish(finish, true, failure.None?)
    ensures finish == FinishOf(failure)
            && (failure.None? || failure.value.ReadyFailed? || failure.value.ChannelCloseFailed?)
  {
    var sent := p.Answer();
    p.Call(SendReady(sent));
    finish := [SendReady(sent)];
    if !sent {
      return Some(ReadyFailed), finish;
    }
    var ended := p.CloseHandle(BootstrapChannel);
    finish := [SendReady(true), Close(BootstrapChannel, ended)];
    return if ended then None else Some(ChannelCloseFailed), finish;
  }

  lemma NotStarted(t: seq<Effect>, handles: nat)
    requires AllQuiet(t) && Unobserved(t) && LoadChild(true) !in t
    ensures IsTransaction(t, handles, false, false)
  {
    assert t == t + [] + [] + [];
    assert Parts(t, handles, false, false, t, [], [], [], false);
  }

  lemma TransactionIs(t: seq<Effect>, handles: nat, start: seq<Effect>, operation: seq<Effect>, closes: seq<Effect>,
                      finish: seq<Effect>, ok: bool, completed: bool)
    requires t == start + operation + closes + finish && AllQuiet(start) && LoadChild(true) !in start
             && Unobserved(start)
    requires IsOperation(operation, ok) && ClosesReceived(closes, handles)
             && IsFinish(finish, ok && AllClosed(closes), completed)
    ensures IsTransaction(t, handles, true, completed)
  {
    assert Parts(t, handles, true, completed, start, operation, closes, finish, ok);
  }

  // ---- What every transaction keeps ------------------------------------------------------

  lemma {:induction false} QuietCount(t: seq<Effect>, k: Kind)
    requires AllQuiet(t)
    ensures Count(t, k) == 0
  {
    if t != [] {
      QuietCount(t[..|t| - 1], k);
    }
  }

  /** What the cleanup of a child contributes. */
  function CleanupCount(k: Kind, terminate: bool, launch: bool, process: bool): nat {
    match k
    case Closing(role) => Bit(role.LaunchChannel? || role.ProcessHandle?)
    case Closed(role) => Bit((role.LaunchChannel? && launch) || (role.ProcessHandle? && process))
    case Terminating => Bit(terminate)
    case _ => 0
  }

  lemma {:induction false} CleanupCounts(t: seq<Effect>, terminate: bool, launch: bool, process: bool, k: Kind)
    requires IsCleanup(t, terminate, launch, process)
    ensures Count(t, k) == CleanupCount(k, terminate, launch, process)
  {
    var head, a, b := t[..|t| - 2], Close(LaunchChannel, launch), Close(ProcessHandle, process);
    CleanupSplits(t, terminate, launch, process);
    CountJoin(head, [a, b], k);
    CountTwo(a, b, k);
    HeadCount(head, terminate, k);
  }

  lemma CleanupSplits(t: seq<Effect>, terminate: bool, launch: bool, process: bool)
    requires IsCleanup(t, terminate, launch, process)
    ensures t == t[..|t| - 2] + [Close(LaunchChannel, launch), Close(ProcessHandle, process)]
  {
  }

  lemma {:induction false} HeadCount(head: seq<Effect>, terminate: bool, k: Kind)
    requires IsHead(head, terminate)
    ensures Count(head, k) == Bit(terminate && k.Terminating?)
  {
    if |head| == 1 {
      CountOne(head[0], k);
      assert head == [head[0]];
    } else if |head| == 2 {
      CountTwo(head[0], head[1], k);
      assert head == [head[0], head[1]];
    }
  }

  /** What an operation contributes: nothing, or exactly one cleanup. */
  lemma {:induction false} OperationCounts(t: seq<Effect>, ok: bool, k: Kind)
    returns (terminate: bool, launch: bool, process: bool)
    requires IsOperation(t, ok)
    ensures Count(t, k) == if LoadChild(true) in t then CleanupCount(k, terminate, launch, process) else 0
    ensures ok ==> launch && process && !terminate && LoadChild(true) in t && Supervise(Succeeded) in t
    ensures LoadChild(true) in t && Unobserved(t) ==> terminate
    ensures Supervise(Succeeded) in t && Close(LaunchChannel, false) !in t && Close(ProcessHandle, false) !in t ==> ok
  {
    terminate, launch, process := false, false, false;
    if AllQuiet(t) && LoadChild(true) !in t {
      QuietCount(t, k);
    }
    if quiet, cleanup, ended, a, b :| WithChild(t, ok, quiet, cleanup, ended, a, b) {
      terminate, launch, process := ended, a, b;
      ChildCounts(t, ok, quiet, cleanup, ended, a, b, k);
      ChildDecides(t, ok, quiet, cleanup, ended, a, b);
    }
  }

  lemma {:induction false} ChildCounts(t: seq<Effect>, ok: bool, quiet: seq<Effect>, cleanup: seq<Effect>,
                                       terminate: bool, launch: bool, process: bool, k: Kind)
    requires WithChild(t, ok, quiet, cleanup, terminate, launch, process)
    ensures Count(t, k) == CleanupCount(k, terminate, launch, process) && LoadChild(true) in t
  {
    QuietCount(quiet, k);
    CleanupCounts(cleanup, terminate, launch, process, k);
    CountJoin(quiet, cleanup, k);
  }

  /** What a published child's part of the trace shows decides both the termination and the outcome. */
  lemma ChildDecides(t: seq<Effect>, ok: bool, quiet: seq<Effect>, cleanup: seq<Effect>, terminate: bool, launch: bool,
                     process: bool)
    requires WithChild(t, ok, quiet, cleanup, terminate, launch, process)
    ensures ok ==> launch && process && !terminate && Supervise(Succeeded) in t
    ensures Unobserved(t) ==> terminate
    ensures Supervise(Succeeded) in t && Close(LaunchChannel, false) !in t && Close(ProcessHandle, false) !in t ==> ok
  {
    ChildHas(t, quiet, cleanup, terminate, launch, process);
    SucceededIsSeen(quiet);
    if Unobserved(t) { StartUnobserved(t, quiet, cleanup); }
  }

  /** What of a child's part the outcome depends on. */
  lemma ChildHas(t: seq<Effect>, quiet: seq<Effect>, cleanup: seq<Effect>, terminate: bool, launch: bool, process: bool)
    requires t == quiet + cleanup && IsCleanup(cleanup, terminate, launch, process)
    ensures Supervise(Succeeded) in t <==> Supervise(Succeeded) in quiet
    ensures !launch ==> Close(LaunchChannel, false) in t
    ensures !process ==> Close(ProcessHandle, false) in t
  {
    var n := |cleanup| - 2;
    CleanupSplits(cleanup, terminate, launch, process);
    HeadSilent(cleanup[..n], terminate);
    assert cleanup[n] == Close(LaunchChannel, launch) && cleanup[n + 1] == Close(ProcessHandle, process);
    assert t[|quiet| + n] == cleanup[n] && t[|quiet| + n + 1] == cleanup[n + 1];
    CleanupSilent(cleanup, n);
  }

  lemma CleanupSilent(cleanup: seq<Effect>, n: nat)
    requires |cleanup| == n + 2 && Supervise(Succeeded) !in cleanup[..n] && cleanup[n].Close? && cleanup[n + 1].Close?
    ensures Supervise(Succeeded) !in cleanup
  {
    forall i | 0 <= i < |cleanup| ensures cleanup[i] != Supervise(Succeeded) {
      if i < n { assert cleanup[..n][i] == cleanup[i]; }
    }
  }

  lemma HeadSilent(head: seq<Effect>, terminate: bool)
    requires IsHead(head, terminate)
    ensures Supervise(Succeeded) !in head
  {
  }

  lemma StartUnobserved(t: seq<Effect>, start: seq<Effect>, rest: seq<Effect>)
    requires t == start + rest && Unobserved(t)
    ensures Unobserved(start)
  {
    forall i | 0 <= i < |start| ensures !Observes(start[i]) {
      assert t[i] == start[i];
    }
  }

  lemma SucceededIsSeen(t: seq<Effect>)
    ensures Supervise(Succeeded) in t ==> !Unobserved(t)
  {
    if Supervise(Succeeded) in t {
      var i :| 0 <= i < |t| && t[i] == Supervise(Succeeded);
      assert Observes(t[i]);
    }
  }

  function ReceivedCount(k: Kind, n: nat): nat {
    Bit((k.Closing? || k.Closed?) && k.role.Received? && k.role.index < n)
  }

  lemma {:induction false} ReceivedCounts(t: seq<Effect>, n: nat, k: Kind)
    requires ClosesReceived(t, n)
    ensures (k.Closed? ==> AllClosed(t)) ==> Count(t, k) == ReceivedCount(k, n)
  {
    if n > 0 {
      var front := t[..n - 1];
      assert forall i :: 0 <= i < n - 1 ==> front[i] == t[i];
      ReceivedCounts(front, n - 1, k);
    }
  }

  /** What the end of a transaction contributes. */
  lemma {:induction false} FinishCounts(t: seq<Effect>, allowed: bool, completed: bool, k: Kind)
    requires IsFinish(t, allowed, completed)
    ensures k.Terminating? ==> Count(t, k) == 0
    ensures k.Readying? ==> Count(t, k) == Bit(allowed)
    ensures k.Sent? ==> Count(t, k) == Bit(|t| == 2)
    ensures k.Closing? ==> Count(t, k) == Bit(k.role.BootstrapChannel? && |t| == 2)
    ensures k.Closed? ==> Count(t, k) == Bit(k.role.BootstrapChannel? && completed)
  {
    if |t| == 1 {
      assert t == [t[0]];
      CountOne(t[0], k);
    } else if |t| == 2 {
      assert t == [t[0], t[1]];
      CountTwo(t[0], t[1], k);
    }
  }

  lemma {:induction false} CountParts(t: seq<Effect>, start: seq<Effect>, operation: seq<Effect>, closes: seq<Effect>,
                                      finish: seq<Effect>, k: Kind)
    requires t == start + operation + closes + finish && AllQuiet(start)
    ensures Count(t, k) == Count(operation, k) + Count(closes, k) + Count(finish, k)
  {
    CountFront(start, operation, closes, k);
    CountJoin(start + operation + closes, finish, k);
  }

  lemma {:induction false} CountFront(start: seq<Effect>, operation: seq<Effect>, closes: seq<Effect>, k: Kind)
    requires AllQuiet(start)
    ensures Count(start + operation + closes, k) == Count(operation, k) + Count(closes, k)
  {
    QuietCount(start, k);
    CountJoin(start, operation, k);
    CountJoin(start + operation, closes, k);
  }

  /** One kind of effect over a whole transaction. */
  lemma {:induction false} TransactionCount(t: seq<Effect>, handles: nat, accepted: bool, completed: bool,
                                            start: seq<Effect>, operation: seq<Effect>, closes: seq<Effect>,
                                            finish: seq<Effect>, ok: bool, k: Kind)
    requires Parts(t, handles, accepted, completed, start, operation, closes, finish, ok)
    ensures k.Closing? ==> Count(t, k) == ExpectedCloses(k.role, handles, accepted, LoadChild(true) in t, |finish| == 2)
    ensures k.Sent? ==> Count(t, k) == Bit(|finish| == 2)
    ensures k.Terminating? || k.Readying? ==> Count(t, k) <= 1
  {
    CountParts(t, start, operation, closes, finish, k);
    FinishCounts(finish, ok && AllClosed(closes), completed, k);
    PublishedIn(t, start, operation, closes, finish, handles, accepted);
    var published := LoadChild(true) in operation;
    if accepted {
      OperationTally(operation, ok, k);
      ReceivedCounts(closes, handles, k);
      Tally(k, handles, published, |finish| == 2, Count(operation, k), Count(closes, k), Count(finish, k));
    }
  }

  lemma {:induction false} OperationTally(t: seq<Effect>, ok: bool, k: Kind)
    requires IsOperation(t, ok)
    ensures k.Closing? ==> Count(t, k) == Bit(LoadChild(true) in t && (k.role.LaunchChannel? || k.role.ProcessHandle?))
    ensures k.Terminating? ==> Count(t, k) <= 1
    ensures k.Readying? || k.Sent? ==> Count(t, k) == 0
  {
    var terminate, launch, process := OperationCounts(t, ok, k);
  }

  /** The contributions of operation, closes and end add up. */
  lemma Tally(k: Kind, handles: nat, published: bool, sent: bool, operation: nat, closes: nat, finish: nat)
    requires k.Closing? ==> && operation == Bit(published && (k.role.LaunchChannel? || k.role.ProcessHandle?))
                            && closes == ReceivedCount(k, handles) && finish == Bit(k.role.BootstrapChannel? && sent)
    requires k.Sent? ==> operation == closes == 0 && finish == Bit(sent)
    requires k.Terminating? ==> operation <= 1 && closes == finish == 0
    requires k.Readying? ==> operation == closes == 0 && finish <= 1
    ensures k.Closing? ==> operation + closes + finish == ExpectedCloses(k.role, handles, true, published, sent)
    ensures k.Sent? ==> operation + closes + finish == Bit(sent)
    ensures k.Terminating? || k.Readying? ==> operation + closes + finish <= 1
  {
  }

  /** Exactly one close attempt for each received handle and for both handles of a published child; the bootstrap
      channel is closed exactly when READY was sent, termination is tried at most once, and READY is sent at most
      once. */
  lemma TransactionCounts(t: seq<Effect>, handles: nat, accepted: bool, completed: bool, role: Role)
    requires IsTransaction(t, handles, accepted, completed)
    ensures Count(t, Closing(role)) ==
            ExpectedCloses(role, handles, accepted, LoadChild(true) in t, Count(t, Sent) == 1)
    ensures Count(t, Terminating) <= 1 && Count(t, Readying) <= 1 && Count(t, Sent) <= 1
  {
    var start, operation, closes, finish, ok :|
      Parts(t, handles, accepted, completed, start, operation, closes, finish, ok);
    TransactionCount(t, handles, accepted, completed, start, operation, closes, finish, ok, Closing(role));
    TransactionCount(t, handles, accepted, completed, start, operation, closes, finish, ok, Sent);
    TransactionCount(t, handles, accepted, completed, start, operation, closes, finish, ok, Terminating);
    TransactionCount(t, handles, accepted, completed, start, operation, closes, finish, ok, Readying);
  }

  function ExpectedCloses(role: Role, handles: nat, accepted: bool, published: bool, sent: bool): nat {
    match role
    case Received(i) => Bit(accepted && i < handles)
    case BootstrapChannel => Bit(sent)
    case _ => Bit(published)
  }

  lemma PublishedIn(t: seq<Effect>, start: seq<Effect>, operation: seq<Effect>, closes: seq<Effect>,
                    finish: seq<Effect>, handles: nat, accepted: bool)
    requires t == start + operation + closes + finish && LoadChild(true) !in start && LoadChild(true) !in finish
    requires if accepted then ClosesReceived(closes, handles) else closes == []
    ensures LoadChild(true) in t <==> LoadChild(true) in operation
  {
  }

  /** Termination is tried only when no exit was observed before it. */
  lemma TransactionTerminates(t: seq<Effect>, handles: nat, accepted: bool, completed: bool, i: nat)
    requires IsTransaction(t, handles, accepted, completed) && i < |t| && t[i].Terminate?
    ensures Unobserved(t[..i])
  {
    var start, operation, closes, finish, ok :|
      Parts(t, handles, accepted, completed, start, operation, closes, finish, ok);
    PartsTerminate(t, handles, accepted, completed, start, operation, closes, finish, ok, i);
  }

  lemma PartsTerminate(t: seq<Effect>, handles: nat, accepted: bool, completed: bool,
                       start: seq<Effect>, operation: seq<Effect>, closes: seq<Effect>, finish: seq<Effect>,
                       ok: bool, i: nat)
    requires Parts(t, handles, accepted, completed, start, operation, closes, finish, ok) && i < |t| && t[i].Terminate?
    ensures Unobserved(t[..i])
  {
    NoTermination(closes, handles, accepted, finish, ok && AllClosed(closes), completed);
    var k := TerminateInOperation(t, start, operation, closes, finish, i);
    OperationTerminates(operation, ok, k);
    Joined(start + operation, closes, finish);
    UnobservedBefore(t, start, operation, closes + finish, k);
  }

  lemma NoTermination(closes: seq<Effect>, handles: nat, accepted: bool, finish: seq<Effect>, allowed: bool,
                      completed: bool)
    requires (if accepted then ClosesReceived(closes, handles) else closes == [])
             && IsFinish(finish, allowed, completed)
    ensures (forall j :: 0 <= j < |closes| ==> !closes[j].Terminate?)
            && forall j :: 0 <= j < |finish| ==> !finish[j].Terminate?
  {
  }

  lemma UnobservedBefore(t: seq<Effect>, start: seq<Effect>, operation: seq<Effect>, rest: seq<Effect>, k: nat)
    requires t == start + operation + rest && k <= |operation| && Unobserved(start) && Unobserved(operation[..k])
    ensures Unobserved(t[..|start| + k])
  {
    forall j | 0 <= j < |start| + k ensures !Observes(t[j]) {
      assert t[j] == if j < |start| then start[j] else operation[..k][j - |start|];
    }
  }

  lemma TerminateInOperation(t: seq<Effect>, start: seq<Effect>, operation: seq<Effect>, closes: seq<Effect>,
                             finish: seq<Effect>, i: nat) returns (k: nat)
    requires t == start + operation + closes + finish && AllQuiet(start) && i < |t| && t[i].Terminate?
    requires (forall j :: 0 <= j < |closes| ==> !closes[j].Terminate?)
             && forall j :: 0 <= j < |finish| ==> !finish[j].Terminate?
    ensures i == |start| + k && k < |operation| && operation[k] == t[i]
  {
    var n, m := |start| + |operation|, |start| + |operation| + |closes|;
    assert forall j :: 0 <= j < |start| ==> t[j] == start[j] && !t[j].Terminate?;
    assert forall j :: |start| <= j < n ==> t[j] == operation[j - |start|];
    assert forall j :: n <= j < m ==> t[j] == closes[j - n] && !t[j].Terminate?;
    assert forall j :: m <= j < |t| ==> t[j] == finish[j - m] && !t[j].Terminate?;
    k := i - |start|;
  }

  lemma OperationTerminates(t: seq<Effect>, ok: bool, k: nat)
    requires IsOperation(t, ok) && k < |t| && t[k].Terminate?
    ensures Unobserved(t[..k])
  {
    var quiet, cleanup, terminate, launch, process :| WithChild(t, ok, quiet, cleanup, terminate, launch, process);
    assert forall j :: 0 <= j < |quiet| ==> t[j] == quiet[j] && !t[j].Terminate?;
    assert t[k] == cleanup[k - |quiet|];
    CleanupTerminates(cleanup, terminate, launch, process, k - |quiet|);
    assert t[..k] == quiet;
  }

  lemma CleanupTerminates(t: seq<Effect>, terminate: bool, launch: bool, process: bool, k: nat)
    requires IsCleanup(t, terminate, launch, process) && k < |t| && t[k].Terminate?
    ensures terminate && k == 0
  {
    var head, tail := t[..|t| - 2], t[|t| - 2..];
    assert forall j :: 0 <= j < |head| ==> t[j] == head[j];
    assert forall j :: |head| <= j < |t| ==> t[j] == tail[j - |head|] && !t[j].Terminate?;
  }

  /** A published child whose exit nothing observes is terminated, once. */
  lemma ChildIsTerminated(t: seq<Effect>, handles: nat, accepted: bool, completed: bool)
    requires IsTransaction(t, handles, accepted, completed) && LoadChild(true) in t && Unobserved(t)
    ensures Count(t, Terminating) == 1
  {
    var start, operation, closes, finish, ok :|
      Parts(t, handles, accepted, completed, start, operation, closes, finish, ok);
    PublishedIn(t, start, operation, closes, finish, handles, accepted);
    CountParts(t, start, operation, closes, finish, Terminating);
    FinishCounts(finish, ok && AllClosed(closes), completed, Terminating);
    Joined(start + operation, closes, finish);
    UnobservedInside(t, start, operation, closes + finish);
    var terminate, launch, process := OperationCounts(operation, ok, Terminating);
    ReceivedCounts(closes, handles, Terminating);
  }

  lemma UnobservedInside(t: seq<Effect>, start: seq<Effect>, operation: seq<Effect>, rest: seq<Effect>)
    requires t == start + operation + rest && Unobserved(t)
    ensures Unobserved(operation)
  {
    forall j | 0 <= j < |operation| ensures !Observes(operation[j]) {
      assert t[|start| + j] == operation[j];
    }
  }

  /** READY is attempted whenever supervision succeeded and no close before it failed. */
  lemma ReadyIsAttempted(t: seq<Effect>, handles: nat, accepted: bool, completed: bool)
    requires IsTransaction(t, handles, accepted, completed) && Supervise(Succeeded) in t
    requires forall role: Role :: !role.BootstrapChannel? ==> Close(role, false) !in t
    ensures Count(t, Readying) == 1
  {
    var start, operation, closes, finish, ok :|
      Parts(t, handles, accepted, completed, start, operation, closes, finish, ok);
    InParts(t, start, operation, closes, finish);
    SupervisedInside(handles, accepted, start, operation, closes, finish, ok && AllClosed(closes), completed);
    AllCloseWell(closes, handles);
    OperationSucceeds(operation, ok);
    CountParts(t, start, operation, closes, finish, Readying);
    FinishCounts(finish, ok && AllClosed(closes), completed, Readying);
    ReceivedCounts(closes, handles, Readying);
  }

  lemma AllCloseWell(closes: seq<Effect>, n: nat)
    requires ClosesReceived(closes, n) && forall role: Role :: !role.BootstrapChannel? ==> Close(role, false) !in closes
    ensures AllClosed(closes)
  {
    forall i | 0 <= i < |closes| ensures closes[i] == Close(Received(i), true) {
      assert closes[i] in closes;
    }
  }

  lemma OperationSucceeds(t: seq<Effect>, ok: bool)
    requires IsOperation(t, ok) && Supervise(Succeeded) in t
    requires forall role: Role :: !role.BootstrapChannel? ==> Close(role, false) !in t
    ensures ok && Count(t, Readying) == 0
  {
    var terminate, launch, process := OperationCounts(t, ok, Readying);
  }

  lemma InParts(t: seq<Effect>, start: seq<Effect>, operation: seq<Effect>, closes: seq<Effect>, finish: seq<Effect>)
    requires t == start + operation + closes + finish
    ensures forall e :: e in t <==> e in start || e in operation || e in closes || e in finish
  {
  }

  /** The supervision is part of the operation. */
  lemma SupervisedInside(handles: nat, accepted: bool, start: seq<Effect>, operation: seq<Effect>, closes: seq<Effect>,
                         finish: seq<Effect>, allowed: bool, completed: bool)
    requires Unobserved(start) && (if accepted then ClosesReceived(closes, handles) else closes == [])
    requires IsFinish(finish, allowed, completed)
    ensures forall o :: Supervise(o) !in closes && Supervise(o) !in finish
    ensures Supervise(Succeeded) !in start
  {
  }

  /** READY comes only after a successful supervision and after every close before it has succeeded; the bootstrap
      channel is closed only after a READY that was sent. */
  lemma TransactionReady(t: seq<Effect>, handles: nat, accepted: bool, completed: bool, i: nat)
    requires IsTransaction(t, handles, accepted, completed) && i < |t|
    ensures t[i].SendReady? ==> accepted && Supervise(Succeeded) in t[..i]
    ensures t[i].SendReady? ==> ClosedOnce(t[..i], handles)
    ensures t[i].Close? && t[i].role.BootstrapChannel? ==> SendReady(true) in t[..i]
  {
    var start, operation, closes, finish, ok :|
      Parts(t, handles, accepted, completed, start, operation, closes, finish, ok);
    var front := start + operation + closes;
    InOneOf(front, finish, i);
    if i < |front| {
      BeforeFinish(start, operation, closes, ok, handles, accepted, i);
    } else {
      InFinish(front, finish, ok && AllClosed(closes), completed, i);
      if t[i].SendReady? {
        ReadyIsAllowed(start, operation, closes, handles);
      }
    }
  }

  lemma InFinish(front: seq<Effect>, finish: seq<Effect>, allowed: bool, completed: bool, i: nat)
    requires IsFinish(finish, allowed, completed) && |front| <= i < |front| + |finish|
    ensures allowed
    ensures (front + finish)[i].SendReady? ==> (front + finish)[..i] == front
    ensures !(front + finish)[i].SendReady? ==> SendReady(true) in (front + finish)[..i]
  {
    var t := front + finish;
    assert t[i] == finish[i - |front|];
    if t[i].SendReady? {
      assert t[..i] == front;
    } else {
      assert t[..i] == front + [SendReady(true)];
    }
  }

  lemma BeforeFinish(start: seq<Effect>, operation: seq<Effect>, closes: seq<Effect>, ok: bool, handles: nat,
                     accepted: bool, i: nat)
    requires AllQuiet(start) && i < |start| + |operation| + |closes|
    requires if accepted then IsOperation(operation, ok) && ClosesReceived(closes, handles)
             else operation == [] && closes == []
    ensures var e := (start + operation + closes)[i]; !e.SendReady? && !(e.Close? && e.role.BootstrapChannel?)
  {
    var n := |start| + |operation|;
    assert (start + operation + closes)[i] ==
           if i < |start| then start[i] else if i < n then operation[i - |start|] else closes[i - n];
    if |start| <= i < n {
      OperationEffects(operation, ok, i - |start|);
    }
  }

  lemma OperationEffects(t: seq<Effect>, ok: bool, k: nat)
    requires IsOperation(t, ok) && k < |t|
    ensures !t[k].SendReady? && !(t[k].Close? && t[k].role.BootstrapChannel?)
  {
    if !AllQuiet(t) {
      var quiet, cleanup, terminate, launch, process :| WithChild(t, ok, quiet, cleanup, terminate, launch, process);
      if k >= |quiet| {
        CleanupEffects(cleanup, terminate, launch, process, k - |quiet|);
      }
      InOneOf(quiet, cleanup, k);
    }
  }

  lemma InOneOf(a: seq<Effect>, b: seq<Effect>, k: nat)
    requires k < |a| + |b|
    ensures (a + b)[k] == if k < |a| then a[k] else b[k - |a|]
  {
  }

  lemma CleanupEffects(t: seq<Effect>, terminate: bool, launch: bool, process: bool, k: nat)
    requires IsCleanup(t, terminate, launch, process) && k < |t|
    ensures !t[k].SendReady? && !(t[k].Close? && t[k].role.BootstrapChannel?)
  {
    var head, tail := t[..|t| - 2], t[|t| - 2..];
    assert forall j :: 0 <= j < |head| ==> t[j] == head[j];
    assert forall j :: |head| <= j < |t| ==> t[j] == tail[j - |head|];
  }

  /** Before READY, everything the transaction holds has been closed once, and successfully. */
  lemma ReadyIsAllowed(start: seq<Effect>, operation: seq<Effect>, closes: seq<Effect>, handles: nat)
    requires AllQuiet(start) && IsOperation(operation, true) && ClosesReceived(closes, handles) && AllClosed(closes)
    ensures Supervise(Succeeded) in start + operation + closes
    ensures ClosedOnce(start + operation + closes, handles)
  {
    var t := start + operation + closes;
    forall role | Held(role, handles) ensures Count(t, Closing(role)) == Count(t, Closed(role)) == 1 {
      OperationCloses(operation, Closing(role));
      OperationCloses(operation, Closed(role));
      AllowedCount(start, operation, closes, handles, Closing(role));
      AllowedCount(start, operation, closes, handles, Closed(role));
    }
    OperationCloses(operation, Closing(LaunchChannel));
  }

  /** The handles a transaction that published a child holds, besides its own channel. */
  predicate Held(role: Role, handles: nat) { !role.BootstrapChannel? && (role.Received? ==> role.index < handles) }

  ghost predicate ClosedOnce(t: seq<Effect>, handles: nat) {
    forall role {:trigger Held(role, handles)} ::
        Held(role, handles) ==> Count(t, Closing(role)) == Count(t, Closed(role)) == 1
  }

  lemma {:induction false} AllowedCount(start: seq<Effect>, operation: seq<Effect>, closes: seq<Effect>,
                                        handles: nat, k: Kind)
    requires AllQuiet(start) && ClosesReceived(closes, handles) && AllClosed(closes)
    requires (k.Closing? || k.Closed?) && Held(k.role, handles) && Count(operation, k) == Bit(!k.role.Received?)
    ensures Count(start + operation + closes, k) == 1
  {
    CountFront(start, operation, closes, k);
    ReceivedCounts(closes, handles, k);
  }

  /** A successful operation has closed both handles of its child. */
  lemma {:induction false} OperationCloses(t: seq<Effect>, k: Kind)
    requires IsOperation(t, true) && (k.Closing? || k.Closed?)
    ensures Count(t, k) == Bit(k.role.LaunchChannel? || k.role.ProcessHandle?)
    ensures Supervise(Succeeded) in t
  {
    var terminate, launch, process := OperationCounts(t, true, k);
  }

  /** A completed transaction has sent READY once, terminated nothing, and closed everything it was given. */
  lemma CompletedClosesAll(t: seq<Effect>, handles: nat, accepted: bool, role: Role)
    requires IsTransaction(t, handles, accepted, true) && (role.Received? ==> role.index < handles)
    ensures accepted && Count(t, Sent) == 1 && Count(t, Terminating) == 0
    ensures Count(t, Closing(role)) == 1 && Count(t, Closed(role)) == 1
  {
    var start, operation, closes, finish, ok :| Parts(t, handles, accepted, true, start, operation, closes, finish, ok);
    CompletedCount(t, handles, accepted, start, operation, closes, finish, ok, Sent);
    CompletedCount(t, handles, accepted, start, operation, closes, finish, ok, Terminating);
    CompletedCount(t, handles, accepted, start, operation, closes, finish, ok, Closing(role));
    CompletedCount(t, handles, accepted, start, operation, closes, finish, ok, Closed(role));
  }

  lemma {:induction false} CompletedCount(t: seq<Effect>, handles: nat, accepted: bool,
                                          start: seq<Effect>, operation: seq<Effect>, closes: seq<Effect>,
                                          finish: seq<Effect>, ok: bool, k: Kind)
    requires Parts(t, handles, accepted, true, start, operation, closes, finish, ok)
    requires (k.Closing? || k.Closed?) && k.role.Received? ==> k.role.index < handles
    ensures accepted && Count(t, k) == if k.Terminating? then 0 else 1
  {
    CountParts(t, start, operation, closes, finish, k);
    FinishCounts(finish, ok && AllClosed(closes), true, k);
    var terminate, launch, process := OperationCounts(operation, ok, k);
    ReceivedCounts(closes, handles, k);
  }
}
