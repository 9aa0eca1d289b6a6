/**
 The life of the mount command as a labelled transition system: the providers that start the
 components, the main loop, the finaliser goroutines that wait for the `done` broadcast, the wait
 group, the one-slot error channel and the grace timer.
 */
module MountProtocol {
  import opened Wrappers
  import Runs

  datatype MainPc =
    | ProvideTelemetry | StartServer | StartFinalizer  // the telemetry provider, after its Add
    | ProvideFuse | Notify | AddFuse                   // the fuse provider, whose Add comes last
    | Loop
    | CloseDone                                        // a stop signal was received
    | ArmTimer | Wait | Return                         // after the loop
    | Fail                                             // an error is on its way to Fatal

  /** The goroutine around ListenAndServe, and the two finalisers. */
  datatype ServePc = NotServing | Serving | Sending(failed: bool) | Sent
  datatype FinPc = NotLaunched | AwaitDone | Stopping | Stopped(ok: bool) | Counted(ok: bool)

  /** `wg` is the wait group's counter; `closes` counts how often `done` was closed. */
  datatype State = State(
    enabled: bool, main: MainPc, serve: ServePc, telemetry: FinPc, fuse: FinPc,
    wg: int, closes: nat, errc: Option<bool>, sig: Option<bool>, bus: bool, expired: bool,
    timer: bool, exit: Option<nat>)

  function Initial(enabled: bool): State {
    State(enabled, ProvideTelemetry, NotServing, NotLaunched, NotLaunched, 0, 0, None, None, false, false, false, None)
  }

  datatype Action =
    | Listen(ok: bool) | LaunchServer | LaunchFinalizer      // telemetry provider
    | MountAndPreload(ok: bool) | SdNotify(ok: bool) | Register  // fuse provider
    | TakeExpiry | TakeError | TakeSignal | TakeBus          // the select of the main loop
    | Close | Arm | WaitOver | ExitZero | Fatal
    | Fire                                                   // the grace timer
    | ServeReturns(failed: bool) | Send                      // the server goroutine
    | TelemetryWakes | TelemetryStops(ok: bool) | TelemetryCounts | TelemetryPanics
    | FuseWakes | FuseStops(ok: bool) | FuseCounts
    | Expire | Signal(stop: bool) | Update                   // the environment

  predicate Enabled(s: State, a: Action) {
    s.exit == None &&
    match a
    case Listen(_) => s.main == ProvideTelemetry
    case LaunchServer => s.main == StartServer
    case LaunchFinalizer => s.main == StartFinalizer
    case MountAndPreload(_) => s.main == ProvideFuse
    case SdNotify(_) => s.main == Notify
    case Register => s.main == AddFuse
    case TakeExpiry => s.main == Loop && s.expired
    case TakeError => s.main == Loop && s.errc.Some?
    case TakeSignal => s.main == Loop && s.sig.Some?
    case TakeBus => s.main == Loop && s.bus
    case Close => s.main == CloseDone
    case Arm => s.main == ArmTimer
    case WaitOver => s.main == Wait && s.wg == 0
    case ExitZero => s.main == Return
    case Fatal => s.main == Fail
    case Fire => s.timer
    case ServeReturns(_) => s.serve == Serving
    case Send => s.serve.Sending? && s.errc == None
    case TelemetryWakes => s.telemetry == AwaitDone && s.closes > 0
    case TelemetryStops(_) => s.telemetry == Stopping
    case TelemetryCounts => s.telemetry.Stopped?
    case TelemetryPanics => s.telemetry == Counted(false)
    case FuseWakes => s.fuse == AwaitDone && s.closes > 0
    case FuseStops(_) => s.fuse == Stopping
    case FuseCounts => s.fuse.Stopped?
    case Expire => !s.expired
    case Signal(_) => s.sig == None
    case Update => !s.bus
  }

  function Do(s: State, a: Action): State
    requires Enabled(s, a)
  {
    match a
    case Listen(ok) =>
      if !s.enabled then s.(main := ProvideFuse)
      else if ok then s.(main := StartServer, wg := s.wg + 1)
      else s.(main := Fail)
    case LaunchServer => s.(main := StartFinalizer, serve := Serving)
    case LaunchFinalizer => s.(main := ProvideFuse, telemetry := AwaitDone)
    case MountAndPreload(ok) => if ok then s.(main := Notify, fuse := AwaitDone) else s.(main := Fail)
    case SdNotify(ok) => s.(main := if ok then AddFuse else Fail)
    case Register => s.(main := Loop, wg := s.wg + 1)
    case TakeExpiry => s.(main := ArmTimer)
    case TakeError => s.(errc := None, main := if s.errc.value then Fail else Loop)
    case TakeSignal => s.(sig := None, main := if s.sig.value then CloseDone else Loop)
    case TakeBus => s.(bus := false)
    case Close => s.(main := ArmTimer, closes := s.closes + 1)
    case Arm => s.(main := Wait, timer := true)
    case WaitOver => s.(main := Return)
    case ExitZero => s.(exit := Some(0))
    case Fatal => s.(exit := Some(1))
    case Fire => s.(exit := Some(1))
    case ServeReturns(failed) => s.(serve := Sending(failed))
    case Send => s.(serve := Sent, errc := Some(s.serve.failed))
    case TelemetryWakes => s.(telemetry := Stopping)
    case TelemetryStops(ok) => s.(telemetry := Stopped(ok))
    case TelemetryCounts => s.(telemetry := Counted(s.telemetry.ok), wg := s.wg - 1)
    case TelemetryPanics => s.(exit := Some(2))
    case FuseWakes => s.(fuse := Stopping)
    case FuseStops(ok) => s.(fuse := Stopped(ok))
    case FuseCounts => s.(fuse := Counted(s.fuse.ok), wg := s.wg - 1)
    case Expire => s.(expired := true)
    case Signal(stop) => s.(sig := Some(stop))
    case Update => s.(bus := true)
  }

  /** A run from the initial state; `states` are the states before and after each action. */
  ghost predicate Run(enabled: bool, states: seq<State>, actions: seq<Action>) {
    && |states| == |actions| + 1 && states[0] == Initial(enabled)
    && forall i {:trigger actions[i]} | 0 <= i < |actions| :: Next(states[i], actions[i], states[i + 1])
  }

  ghost predicate Next(s: State, a: Action, s': State) {
    Enabled(s, a) && s' == Do(s, a)
  }

  // -------------------------------------------------------------- invariants

  predicate PastLoop(s: State) {
    s.main == CloseDone || s.main == ArmTimer || s.main == Wait || s.main == Return
  }

  /** The providers have run and main is in its loop or after it. */
  predicate Running(s: State) { s.main == Loop || PastLoop(s) }

  function TelemetryRegistered(s: State): int {
    if s.enabled && s.main != ProvideTelemetry && !(s.main == Fail && s.serve == NotServing) then 1 else 0
  }

  function FinishedOf(f: FinPc): int { if f.Counted? then 1 else 0 }

  predicate Inv(s: State) {
    && s.closes <= 1
    && (s.closes == 1 ==> s.main == ArmTimer || s.main == Wait || s.main == Return)
    && (s.main == CloseDone ==> s.closes == 0)
    // finalisers only move once `done` is closed
    && (s.closes == 0 ==> s.telemetry == NotLaunched || s.telemetry == AwaitDone)
    && (s.closes == 0 ==> s.fuse == NotLaunched || s.fuse == AwaitDone)
    // what the providers have launched and registered
    && (s.main == ProvideTelemetry ==> s.wg == 0)
    && (s.main == ProvideTelemetry || s.main == StartServer ==>
          s.serve == NotServing && s.telemetry == NotLaunched && s.fuse == NotLaunched)
    && (s.main == StartServer || s.main == StartFinalizer ==>
          s.enabled && s.wg == 1 && s.telemetry == NotLaunched && s.fuse == NotLaunched)
    && (s.main == StartFinalizer ==> s.serve != NotServing)
    && (s.main == ProvideFuse ==> s.fuse == NotLaunched && s.wg == TelemetryRegistered(s))
    && (s.main == Notify || s.main == AddFuse ==> s.fuse == AwaitDone && s.wg == TelemetryRegistered(s))
    && (s.main == ProvideFuse || s.main == Notify || s.main == AddFuse || Running(s) ==>
          (s.enabled <==> s.serve != NotServing) && (s.enabled <==> s.telemetry != NotLaunched))
    && (Running(s) ==> s.fuse != NotLaunched)
    && (Running(s) ==> s.wg == TelemetryRegistered(s) + 1 - FinishedOf(s.telemetry) - FinishedOf(s.fuse))
    && (s.main == Fail ==> s.wg >= 0)
    && (!s.enabled ==> s.serve == NotServing && s.telemetry == NotLaunched)
    // the error channel has one sender, which sends once
    && (s.errc.Some? ==> s.serve == Sent)
    // the end
    && (s.timer ==> s.main == Wait || s.main == Return)
    && (s.main == Wait || s.main == Return ==> s.timer)
    && (s.main == Return ==> s.wg == 0)
    && (s.exit == Some(0) ==> s.main == Return)
    && (s.exit == Some(2) ==> s.telemetry == Counted(false))
    && (s.exit.Some? ==> s.exit.value <= 2)
  }

  predicate Provider(a: Action) {
    a.Listen? || a.LaunchServer? || a.LaunchFinalizer? || a.MountAndPreload? || a.SdNotify? || a.Register?
  }

  predicate Select(a: Action) { a.TakeExpiry? || a.TakeError? || a.TakeSignal? || a.TakeBus? }

  predicate Ending(a: Action) { a.Close? || a.Arm? || a.WaitOver? || a.ExitZero? || a.Fatal? || a.Fire? }

  predicate OfTelemetry(a: Action) {
    a.TelemetryWakes? || a.TelemetryStops? || a.TelemetryCounts? || a.TelemetryPanics?
  }

  predicate OfFuse(a: Action) { a.FuseWakes? || a.FuseStops? || a.FuseCounts? }

  lemma ProviderStep(s: State, a: Action)
    requires Inv(s) && Enabled(s, a) && Provider(a)
    ensures Inv(Do(s, a))
  {
  }

  lemma SelectStep(s: State, a: Action)
    requires Inv(s) && Enabled(s, a) && Select(a)
    ensures Inv(Do(s, a))
  {
  }

  lemma EndingStep(s: State, a: Action)
    requires Inv(s) && Enabled(s, a) && Ending(a)
    ensures Inv(Do(s, a))
  {
  }

  lemma TelemetryStep(s: State, a: Action)
    requires Inv(s) && Enabled(s, a) && OfTelemetry(a)
    ensures Inv(Do(s, a))
  {
  }

  lemma FuseStep(s: State, a: Action)
    requires Inv(s) && Enabled(s, a) && OfFuse(a)
    ensures Inv(Do(s, a))
  {
  }

  lemma OtherStep(s: State, a: Action)
    requires Inv(s) && Enabled(s, a) && (a.ServeReturns? || a.Send? || a.Expire? || a.Signal? || a.Update?)
    ensures Inv(Do(s, a))
  {
  }

  lemma Step(s: State, a: Action)
    requires Inv(s) && Enabled(s, a)
    ensures Inv(Do(s, a))
  {
    if Provider(a) {
      ProviderStep(s, a);
    } else if Select(a) {
      SelectStep(s, a);
    } else if Ending(a) {
      EndingStep(s, a);
    } else if OfTelemetry(a) {
      TelemetryStep(s, a);
    } else if OfFuse(a) {
      FuseStep(s, a);
    } else {
      OtherStep(s, a);
    }
  }

  lemma RunKeepsInv(enabled: bool, states: seq<State>, actions: seq<Action>, n: nat)
    requires Run(enabled, states, actions) && n <= |actions|
    ensures Inv(states[n])
  {
    forall s, a, s' | Next(s, a, s') && Inv(s) ensures Inv(s') {
      NextKeepsInv(s, a, s');
    }
    InitialInv(enabled);
    Runs.Invariant(Next, Inv, states, actions, 0, n);
  }

  lemma InitialInv(enabled: bool)
    ensures Inv(Initial(enabled))
  {
  }

  lemma NextKeepsInv(s: State, a: Action, s': State)
    requires Inv(s) && Next(s, a, s')
    ensures Inv(s')
  {
    Step(s, a);
  }

  // ---------------------------------------------------------- main theorems

  /**
   In every state of every run: the wait group is never negative, and once the providers have run it
   counts the registered components that have not finished; `done` is closed at most once; and the
   server goroutine's one send never finds the channel full, whether or not the loop still runs.
   */
  lemma CountersAreExact(enabled: bool, states: seq<State>, actions: seq<Action>, n: nat)
    requires Run(enabled, states, actions) && n <= |actions|
    ensures var s := states[n];
      && s.wg >= 0 && s.closes <= 1
      && (Running(s) ==>
            s.wg == (if s.enabled && !s.telemetry.Counted? then 1 else 0) + (if s.fuse.Counted? then 0 else 1))
      && (s.serve.Sending? ==> s.errc == None && (s.exit == None ==> Enabled(s, Send)))
  {
    RunKeepsInv(enabled, states, actions, n);
  }

  /** After `done` was closed at `j`, the stop call of every registered component returned. */
  ghost predicate StoppedAfter(enabled: bool, actions: seq<Action>, j: nat, n: nat)
    requires n <= |actions|
  {
    && (exists k :: j < k < n && actions[k].FuseStops?)
    && (enabled ==> exists k :: j < k < n && actions[k].TelemetryStops?)
  }

  /**
   Exit status 0 means that a stop signal made main close `done`, once, and that after that the stop
   call of every registered component returned and was counted.
   */
  lemma ExitZeroMeansStopped(enabled: bool, states: seq<State>, actions: seq<Action>, n: nat)
    requires Run(enabled, states, actions) && n <= |actions| && states[n].exit == Some(0)
    ensures var s := states[n];
      && s.closes == 1 && s.fuse.Counted? && (enabled ==> s.telemetry.Counted?)
      && exists i, j :: 0 <= i < j < n && actions[i] == TakeSignal && states[i].sig == Some(true) && actions[j] == Close
           && StoppedAfter(enabled, actions, j, n)
  {
    RunKeepsInv(enabled, states, actions, n);
    SameEnabled(enabled, states, actions, n);
    assert states[n].closes == 1;
    var j := ClosedBefore(enabled, states, actions, n);
    var i := SignalledBefore(enabled, states, actions, j);
    var f := FuseStoppedBefore(enabled, states, actions, n);
    StopsFollowClose(enabled, states, actions, j, f);
    if enabled {
      var t := TelemetryStoppedBefore(enabled, states, actions, n);
      StopsFollowClose(enabled, states, actions, j, t);
    }
    assert StoppedAfter(enabled, actions, j, n);
  }

  lemma SameEnabled(enabled: bool, states: seq<State>, actions: seq<Action>, n: nat)
    requires Run(enabled, states, actions) && n <= |actions|
    ensures states[n].enabled == enabled
  {
    forall s, a, s' | Next(s, a, s') ensures s'.enabled == s.enabled {
      NextSameEnabled(s, a, s');
    }
    Runs.Invariant(Next, (s: State) => s.enabled == enabled, states, actions, 0, n);
  }

  lemma NextSameEnabled(s: State, a: Action, s': State)
    requires Next(s, a, s')
    ensures s'.enabled == s.enabled
  {
  }

  lemma {:induction false} FuseStoppedBefore(enabled: bool, states: seq<State>, actions: seq<Action>, n: nat)
    returns (k: nat)
    requires Run(enabled, states, actions) && n <= |actions| && HasStopped(states[n].fuse)
    ensures k < n && actions[k].FuseStops?
    decreases n
  {
    RunKeepsInv(enabled, states, actions, n - 1);
    NextStopsFuse(states[n - 1], actions[n - 1], states[n]);
    if actions[n - 1].FuseStops? {
      k := n - 1;
    } else {
      k := FuseStoppedBefore(enabled, states, actions, n - 1);
    }
  }

  lemma {:induction false} TelemetryStoppedBefore(enabled: bool, states: seq<State>, actions: seq<Action>, n: nat)
    returns (k: nat)
    requires Run(enabled, states, actions) && n <= |actions| && HasStopped(states[n].telemetry)
    ensures k < n && actions[k].TelemetryStops?
    decreases n
  {
    RunKeepsInv(enabled, states, actions, n - 1);
    NextStopsTelemetry(states[n - 1], actions[n - 1], states[n]);
    if actions[n - 1].TelemetryStops? {
      k := n - 1;
    } else {
      k := TelemetryStoppedBefore(enabled, states, actions, n - 1);
    }
  }

  predicate HasStopped(f: FinPc) { f.Stopped? || f.Counted? }

  /** A finaliser has stopped, with some result, exactly since its stop call returned with it. */
  predicate Stops(f: FinPc, stops: Option<bool>, f': FinPc) {
    if stops.Some? then !HasStopped(f) && f' == Stopped(stops.value)
    else (HasStopped(f') <==> HasStopped(f)) && (HasStopped(f) ==> f'.ok == f.ok)
  }

  lemma NextStopsFuse(s: State, a: Action, s': State)
    requires Next(s, a, s') && (s.main == ProvideFuse ==> s.fuse == NotLaunched)
    ensures Stops(s.fuse, if a.FuseStops? then Some(a.ok) else None, s'.fuse)
  {
    if !OfFuse(a) && !a.MountAndPreload? {
      OthersLeaveFuse(s, a, s');
    }
  }

  lemma OthersLeaveFuse(s: State, a: Action, s': State)
    requires Next(s, a, s') && !OfFuse(a) && !a.MountAndPreload?
    ensures s'.fuse == s.fuse
  {
  }

  lemma NextStopsTelemetry(s: State, a: Action, s': State)
    requires Next(s, a, s') && (s.main == StartFinalizer ==> s.telemetry == NotLaunched)
    ensures Stops(s.telemetry, if a.TelemetryStops? then Some(a.ok) else None, s'.telemetry)
  {
    if !OfTelemetry(a) && !a.LaunchFinalizer? {
      OthersLeaveTelemetry(s, a, s');
    }
  }

  lemma OthersLeaveTelemetry(s: State, a: Action, s': State)
    requires Next(s, a, s') && !OfTelemetry(a) && !a.LaunchFinalizer?
    ensures s'.telemetry == s.telemetry
  {
  }

  /** `done` stays closed, and a stop call only runs when it is. */
  lemma StopsFollowClose(enabled: bool, states: seq<State>, actions: seq<Action>, j: nat, k: nat)
    requires Run(enabled, states, actions) && j < |actions| && k < |actions|
    requires actions[j] == Close && (actions[k].FuseStops? || actions[k].TelemetryStops?)
    ensures j < k
  {
    RunKeepsInv(enabled, states, actions, j);
    RunKeepsInv(enabled, states, actions, k);
    assert Next(states[j], actions[j], states[j + 1]) && Next(states[k], actions[k], states[k + 1]);
    assert states[j].closes == 0 && states[k].closes == 1;
    if k <= j {
      ClosedStays(enabled, states, actions, k, j);
    }
  }

  lemma {:induction false} ClosedStays(enabled: bool, states: seq<State>, actions: seq<Action>, m: nat, n: nat)
    requires Run(enabled, states, actions) && m <= n <= |actions|
    ensures states[m].closes <= states[n].closes
    decreases n
  {
    if m == n {
    } else {
      ClosedStays(enabled, states, actions, m, n - 1);
      OnlyCloseCloses(states[n - 1], actions[n - 1], states[n]);
    }
  }

  lemma {:induction false} ClosedBefore(enabled: bool, states: seq<State>, actions: seq<Action>, n: nat)
    returns (j: nat)
    requires Run(enabled, states, actions) && n <= |actions| && states[n].closes > 0
    ensures j < n && actions[j] == Close
  {
    OnlyCloseCloses(states[n - 1], actions[n - 1], states[n]);
    if actions[n - 1] == Close {
      j := n - 1;
    } else {
      j := ClosedBefore(enabled, states, actions, n - 1);
    }
  }

  lemma OnlyCloseCloses(s: State, a: Action, s': State)
    requires Next(s, a, s')
    ensures s'.closes == if a == Close then s.closes + 1 else s.closes
  {
  }

  lemma OnlySignalLeadsToClose(s: State, a: Action, s': State)
    requires Next(s, a, s')
    ensures s'.main == CloseDone ==> s.main == CloseDone || (a == TakeSignal && s.sig == Some(true))
  {
  }

  lemma {:induction false} SignalledBefore(enabled: bool, states: seq<State>, actions: seq<Action>, n: nat)
    returns (i: nat)
    requires Run(enabled, states, actions) && n <= |actions| && states[n].main == CloseDone
    ensures i < n && actions[i] == TakeSignal && states[i].sig == Some(true)
  {
    OnlySignalLeadsToClose(states[n - 1], actions[n - 1], states[n]);
    if actions[n - 1] == TakeSignal && states[n - 1].main != CloseDone {
      i := n - 1;
    } else {
      i := SignalledBefore(enabled, states, actions, n - 1);
    }
  }

  predicate StopFailed(a: Action) { a == FuseStops(false) || a == TelemetryStops(false) }

  /**
   It does not mean that they stopped without error. An exit with status 0 leaves every component
   stopped without error exactly when no stop call failed on the way.
   */
  lemma CleanExitExactly(enabled: bool, states: seq<State>, actions: seq<Action>, n: nat)
    requires Run(enabled, states, actions) && n <= |actions| && states[n].exit == Some(0)
    ensures states[n].fuse == Counted(true) && (enabled ==> states[n].telemetry == Counted(true))
       <==> forall k | 0 <= k < n :: !StopFailed(actions[k])
  {
    ExitZeroMeansStopped(enabled, states, actions, n);
    FuseFate(enabled, states, actions, n);
    TelemetryFate(enabled, states, actions, n);
    RunKeepsInv(enabled, states, actions, n);
    SameEnabled(enabled, states, actions, n);
    if forall k | 0 <= k < n :: !StopFailed(actions[k]) {
    } else {
      var k :| 0 <= k < n && StopFailed(actions[k]);
    }
  }

  ghost predicate FuseFateIs(f: FinPc, actions: seq<Action>, n: nat)
    requires n <= |actions|
  {
    if HasStopped(f) then f.ok <==> forall k | 0 <= k < n :: actions[k] != FuseStops(false)
    else forall k | 0 <= k < n :: !actions[k].FuseStops?
  }

  lemma FuseFateNext(f: FinPc, f': FinPc, actions: seq<Action>, n: nat)
    requires n < |actions| && FuseFateIs(f, actions, n)
    requires Stops(f, if actions[n].FuseStops? then Some(actions[n].ok) else None, f')
    ensures FuseFateIs(f', actions, n + 1)
  {
    if actions[n].FuseStops? {
      assert forall k | 0 <= k < n :: !actions[k].FuseStops?;
    }
  }

  lemma {:induction false} FuseFate(enabled: bool, states: seq<State>, actions: seq<Action>, n: nat)
    requires Run(enabled, states, actions) && n <= |actions|
    ensures FuseFateIs(states[n].fuse, actions, n)
    decreases n
  {
    if n == 0 {
    } else {
      FuseFate(enabled, states, actions, n - 1);
      RunKeepsInv(enabled, states, actions, n - 1);
      NextStopsFuse(states[n - 1], actions[n - 1], states[n]);
      FuseFateNext(states[n - 1].fuse, states[n].fuse, actions, n - 1);
    }
  }

  ghost predicate TelemetryFateIs(f: FinPc, actions: seq<Action>, n: nat)
    requires n <= |actions|
  {
    if HasStopped(f) then f.ok <==> forall k | 0 <= k < n :: actions[k] != TelemetryStops(false)
    else forall k | 0 <= k < n :: !actions[k].TelemetryStops?
  }

  lemma TelemetryFateNext(f: FinPc, f': FinPc, actions: seq<Action>, n: nat)
    requires n < |actions| && TelemetryFateIs(f, actions, n)
    requires Stops(f, if actions[n].TelemetryStops? then Some(actions[n].ok) else None, f')
    ensures TelemetryFateIs(f', actions, n + 1)
  {
    if actions[n].TelemetryStops? {
      assert forall k | 0 <= k < n :: !actions[k].TelemetryStops?;
    }
  }

  lemma {:induction false} TelemetryFate(enabled: bool, states: seq<State>, actions: seq<Action>, n: nat)
    requires Run(enabled, states, actions) && n <= |actions|
    ensures TelemetryFateIs(states[n].telemetry, actions, n)
    decreases n
  {
    if n == 0 {
    } else {
      TelemetryFate(enabled, states, actions, n - 1);
      RunKeepsInv(enabled, states, actions, n - 1);
      NextStopsTelemetry(states[n - 1], actions[n - 1], states[n]);
      TelemetryFateNext(states[n - 1].telemetry, states[n].telemetry, actions, n - 1);
    }
  }

  /**
   No run that exits with status 0 leaves a finaliser behind that is about to panic, exactly when
   telemetry is off.
   */
  lemma NoPendingPanicExactly(enabled: bool)
    ensures (forall states: seq<State>, actions: seq<Action>
               | Run(enabled, states, actions) && states[|actions|].exit == Some(0) ::
               states[|actions|].telemetry != Counted(false))
       <==> !enabled
  {
    if enabled {
      var states, actions := ExitZeroDespitePanic();
    } else {
      forall states: seq<State>, actions: seq<Action>
        | Run(enabled, states, actions) && states[|actions|].exit == Some(0)
        ensures states[|actions|].telemetry != Counted(false)
      {
        RunKeepsInv(enabled, states, actions, |actions|);
        SameEnabled(enabled, states, actions, |actions|);
      }
    }
  }

  /** An Unmount that fails is only logged: without telemetry and without a race the exit status is 0. */
  lemma ExitZeroDespiteUnmountFailure() returns (states: seq<State>, actions: seq<Action>)
    ensures Run(false, states, actions)
    ensures var s := states[|actions|]; s.exit == Some(0) && s.fuse == Counted(false)
  {
    states := seq(14, k requires 0 <= k < 14 => QuietScript(k));
    actions := seq(13, k requires 0 <= k < 13 => QuietAction(k));
    forall i | 0 <= i < 13 ensures Next(states[i], actions[i], states[i + 1]) {
      QuietStep(i);
    }
  }

  ghost function QuietAction(k: nat): Action
    requires k < 13
  {
    [Listen(true), MountAndPreload(true), SdNotify(true), Register, Signal(true), TakeSignal, Close, Arm,
     FuseWakes, FuseStops(false), FuseCounts, WaitOver, ExitZero][k]
  }

  /** The states of the run above. */
  ghost function QuietScript(k: nat): State
    requires k <= 13
  {
    var a0 := Initial(false);
    var a4 := a0.(main := Loop, wg := 1, fuse := AwaitDone);
    var a8 := a4.(main := Wait, closes := 1, timer := true);
    var a11 := a8.(fuse := Counted(false), wg := 0);
    if k == 0 then a0
    else if k == 1 then a0.(main := ProvideFuse)
    else if k == 2 then a0.(main := Notify, fuse := AwaitDone)
    else if k == 3 then a0.(main := AddFuse, fuse := AwaitDone)
    else if k == 4 then a4
    else if k == 5 then a4.(sig := Some(true))
    else if k == 6 then a4.(main := CloseDone)
    else if k == 7 then a4.(main := ArmTimer, closes := 1)
    else if k == 8 then a8
    else if k == 9 then a8.(fuse := Stopping)
    else if k == 10 then a8.(fuse := Stopped(false))
    else if k == 11 then a11
    else if k == 12 then a11.(main := Return)
    else a11.(main := Return, exit := Some(0))
  }

  lemma QuietStep(k: nat)
    requires k < 13
    ensures Next(QuietScript(k), QuietAction(k), QuietScript(k + 1))
  {
    if k < 6 {
      QuietStart(k);
    } else {
      QuietEnd(k);
    }
  }

  lemma QuietStart(k: nat)
    requires k < 6
    ensures Next(QuietScript(k), QuietAction(k), QuietScript(k + 1))
  {
  }

  lemma QuietEnd(k: nat)
    requires 6 <= k < 13
    ensures Next(QuietScript(k), QuietAction(k), QuietScript(k + 1))
  {
  }

  /**
   With telemetry there is a second way: when Shutdown fails, the panicking finaliser first counts
   itself out, and main can exit with 0 before the panic ends the process.
   */
  lemma ExitZeroDespitePanic() returns (states: seq<State>, actions: seq<Action>)
    ensures Run(true, states, actions)
    ensures var s := states[|actions|]; s.exit == Some(0) && s.telemetry == Counted(false)
  {
    states := seq(19, k requires 0 <= k < 19 => Script(k));
    actions := seq(18, k requires 0 <= k < 18 => ScriptAction(k));
    forall i | 0 <= i < 18 ensures Next(states[i], actions[i], states[i + 1]) {
      ScriptStep(i);
    }
    ScriptEnds();
  }

  lemma ScriptStep(k: nat)
    requires k < 18
    ensures Next(Script(k), ScriptAction(k), Script(k + 1))
  {
    if k < 6 {
      ProvidersRun(k);
    } else if k < 12 {
      SignalArrives(k);
    } else {
      FinalizersCount(k);
    }
  }

  lemma ProvidersRun(k: nat)
    requires k < 6
    ensures Next(Script(k), ScriptAction(k), Script(k + 1))
  {
  }

  lemma SignalArrives(k: nat)
    requires 6 <= k < 12
    ensures Next(Script(k), ScriptAction(k), Script(k + 1))
  {
  }

  lemma FinalizersCount(k: nat)
    requires 12 <= k < 18
    ensures Next(Script(k), ScriptAction(k), Script(k + 1))
  {
  }

  lemma ScriptEnds()
    ensures Script(0) == Initial(true) && Script(18).exit == Some(0) && Script(18).telemetry == Counted(false)
  {
  }

  ghost function ScriptAction(k: nat): Action
    requires k < 18
  {
    [Listen(true), LaunchServer, LaunchFinalizer, MountAndPreload(true), SdNotify(true), Register,
     Signal(true), TakeSignal, Close, Arm,
     TelemetryWakes, TelemetryStops(false), TelemetryCounts,
     FuseWakes, FuseStops(true), FuseCounts,
     WaitOver, ExitZero][k]
  }

  /** The states of the run above. */
  ghost function Script(k: nat): State
    requires k <= 18
  {
    var a0 := Initial(true);
    var a6 := a0.(main := Loop, wg := 2, serve := Serving, telemetry := AwaitDone, fuse := AwaitDone);
    var a10 := a6.(main := Wait, closes := 1, timer := true);
    var a13 := a10.(telemetry := Counted(false), wg := 1);
    var a16 := a13.(fuse := Counted(true), wg := 0);
    if k == 0 then a0
    else if k == 1 then a0.(main := StartServer, wg := 1)
    else if k == 2 then a0.(main := StartFinalizer, wg := 1, serve := Serving)
    else if k == 3 then a0.(main := ProvideFuse, wg := 1, serve := Serving, telemetry := AwaitDone)
    else if k == 4 then a6.(main := Notify, wg := 1)
    else if k == 5 then a6.(main := AddFuse, wg := 1)
    else if k == 6 then a6
    else if k == 7 then a6.(sig := Some(true))
    else if k == 8 then a6.(main := CloseDone)
    else if k == 9 then a6.(main := ArmTimer, closes := 1)
    else if k == 10 then a10
    else if k == 11 then a10.(telemetry := Stopping)
    else if k == 12 then a10.(telemetry := Stopped(false))
    else if k == 13 then a13
    else if k == 14 then a13.(fuse := Stopping)
    else if k == 15 then a13.(fuse := Stopped(true))
    else if k == 16 then a16
    else if k == 17 then a16.(main := Return)
    else a16.(main := Return, exit := Some(0))
  }

  /** What is left to do once the loop has ended; no step but these remains. */
  function Left(s: State): int {
    LeftOfMain(s) + LeftOfServe(s.serve) + LeftOf(s.telemetry) + LeftOf(s.fuse) + LeftOutside(s)
  }

  function LeftOfMain(s: State): int {
    (if s.exit == None then 1 else 0)
    + (match s.main case CloseDone => 4 case ArmTimer => 3 case Wait => 2 case _ => 1)
  }

  function LeftOfServe(v: ServePc): int {
    match v case Serving => 2 case Sending(_) => 1 case _ => 0
  }

  function LeftOf(f: FinPc): int {
    match f case AwaitDone => 3 case Stopping => 2 case Stopped(_) => 1 case _ => 0
  }

  function LeftOutside(s: State): int {
    (if s.expired then 0 else 1) + (if s.sig.Some? then 0 else 1) + (if s.bus then 0 else 1)
  }

  /** What is left, part by part, and some part has shrunk. */
  ghost predicate Shrinks(s: State, s': State) {
    && LeftOfMain(s') <= LeftOfMain(s) && LeftOfServe(s'.serve) <= LeftOfServe(s.serve)
    && LeftOf(s'.telemetry) <= LeftOf(s.telemetry) && LeftOf(s'.fuse) <= LeftOf(s.fuse)
    && LeftOutside(s') <= LeftOutside(s)
    && (LeftOfMain(s') < LeftOfMain(s) || LeftOfServe(s'.serve) < LeftOfServe(s.serve)
        || LeftOf(s'.telemetry) < LeftOf(s.telemetry) || LeftOf(s'.fuse) < LeftOf(s.fuse)
        || LeftOutside(s') < LeftOutside(s))
  }

  lemma ShrinksInTotal(s: State, s': State)
    requires Shrinks(s, s')
    ensures Left(s') < Left(s)
  {
  }

  lemma EndingShrinks(s: State, a: Action)
    requires Inv(s) && PastLoop(s) && Enabled(s, a) && Ending(a)
    ensures PastLoop(Do(s, a)) && Shrinks(s, Do(s, a))
  {
  }

  lemma TelemetryShrinks(s: State, a: Action)
    requires PastLoop(s) && Enabled(s, a) && OfTelemetry(a)
    ensures PastLoop(Do(s, a)) && Shrinks(s, Do(s, a))
  {
  }

  lemma FuseShrinks(s: State, a: Action)
    requires PastLoop(s) && Enabled(s, a) && OfFuse(a)
    ensures PastLoop(Do(s, a)) && Shrinks(s, Do(s, a))
  {
  }

  lemma OthersShrink(s: State, a: Action)
    requires PastLoop(s) && Enabled(s, a) && (a.ServeReturns? || a.Send? || a.Expire? || a.Signal? || a.Update?)
    ensures PastLoop(Do(s, a)) && Shrinks(s, Do(s, a))
  {
  }

  /** After the loop every step brings the end nearer, and until the end there is a step to take. */
  lemma ShutdownProgresses(s: State, a: Action)
    requires Inv(s) && PastLoop(s) && Enabled(s, a)
    ensures PastLoop(Do(s, a)) && Left(Do(s, a)) < Left(s)
  {
    if Ending(a) {
      EndingShrinks(s, a);
    } else if OfTelemetry(a) {
      TelemetryShrinks(s, a);
    } else if OfFuse(a) {
      FuseShrinks(s, a);
    } else {
      OthersShrink(s, a);
    }
    ShrinksInTotal(s, Do(s, a));
  }

  lemma ShutdownNeverStuck(s: State)
    requires Inv(s) && PastLoop(s) && s.exit == None
    ensures Enabled(s, Close) || Enabled(s, Arm) || Enabled(s, Fire)
  {
  }

  /**
   So a run that has left its loop, for a signal or for the deadline, takes fewer than 16 more steps,
   and if it cannot go on it has exited: by completion, by the grace timer, or by a panic.
   */
  lemma ShutdownEnds(enabled: bool, states: seq<State>, actions: seq<Action>, m: nat, n: nat)
    requires Run(enabled, states, actions) && m <= n <= |actions| && PastLoop(states[m])
    ensures PastLoop(states[n]) && n - m < 16 && (Stuck(states[n]) ==> states[n].exit.Some?)
  {
    ShutdownBounded(enabled, states, actions, m, n);
    LeftBounds(states[m]);
    LeftBounds(states[n]);
    RunKeepsInv(enabled, states, actions, n);
    if states[n].exit == None {
      ShutdownNeverStuck(states[n]);
    }
  }

  ghost predicate Stuck(s: State) {
    forall a :: !Enabled(s, a)
  }

  lemma StaysPastLoop(enabled: bool, states: seq<State>, actions: seq<Action>, m: nat, n: nat)
    requires Run(enabled, states, actions) && m <= n <= |actions| && PastLoop(states[m])
    ensures PastLoop(states[n])
  {
    RunKeepsInv(enabled, states, actions, m);
    forall s, a, s' | Next(s, a, s') && Inv(s) && PastLoop(s) ensures Inv(s') && PastLoop(s') {
      NextKeepsInv(s, a, s');
      NextProgresses(s, a, s');
    }
    Runs.Invariant(Next, (s: State) => Inv(s) && PastLoop(s), states, actions, m, n);
  }

  lemma NextProgresses(s: State, a: Action, s': State)
    requires Inv(s) && PastLoop(s) && Next(s, a, s')
    ensures PastLoop(s') && Left(s') < Left(s)
  {
    ShutdownProgresses(s, a);
  }

  lemma LeftFalls(enabled: bool, states: seq<State>, actions: seq<Action>, m: nat, i: nat)
    requires Run(enabled, states, actions) && m <= i < |actions| && PastLoop(states[m])
    ensures Left(states[i + 1]) < Left(states[i])
  {
    StaysPastLoop(enabled, states, actions, m, i);
    RunKeepsInv(enabled, states, actions, i);
    NextProgresses(states[i], actions[i], states[i + 1]);
  }

  lemma {:induction false} FallingIsShort(left: seq<int>, m: nat, n: nat)
    requires m <= n < |left| && forall i | m <= i < n :: left[i + 1] < left[i]
    ensures n - m + left[n] <= left[m]
  {
    if m == n {
    } else {
      FallingIsShort(left, m, n - 1);
    }
  }

  lemma ShutdownBounded(enabled: bool, states: seq<State>, actions: seq<Action>, m: nat, n: nat)
    requires Run(enabled, states, actions) && m <= n <= |actions| && PastLoop(states[m])
    ensures PastLoop(states[n]) && n - m + Left(states[n]) <= Left(states[m])
  {
    StaysPastLoop(enabled, states, actions, m, n);
    var left := seq(|states|, i requires 0 <= i < |states| => Left(states[i]));
    forall i | m <= i < n ensures left[i + 1] < left[i] {
      LeftFalls(enabled, states, actions, m, i);
    }
    FallingIsShort(left, m, n);
  }

  lemma LeftBounds(s: State)
    ensures 0 < Left(s) <= 16
  {
  }

  /** The loop was left at the deadline. */
  predicate Expired(s: State) {
    && s.closes == 0 && (s.main == ArmTimer || s.main == Wait) && s.exit != Some(0) && s.exit != Some(2)
  }

  lemma ExpiredStays(s: State, a: Action)
    requires Inv(s) && Expired(s) && Enabled(s, a)
    ensures Expired(Do(s, a)) && (Do(s, a).exit.Some? ==> a == Fire && Do(s, a).exit == Some(1))
  {
    assert s.fuse == AwaitDone && s.wg > 0;
  }

  /**
   When the deadline ends the loop, `done` stays open: the fuse finaliser never wakes, the wait never
   ends, and the grace timer is the only step that can end the run, with status 1.
   */
  lemma ExpiryEndsByTimerOnly(enabled: bool, states: seq<State>, actions: seq<Action>, m: nat, n: nat)
    requires Run(enabled, states, actions) && m < n <= |actions| && actions[m] == TakeExpiry
    ensures Expired(states[n]) && states[n].fuse == AwaitDone && states[n].wg > 0
    ensures states[n].exit.Some? ==> states[n].exit == Some(1) && actions[n - 1] == Fire
  {
    RunKeepsInv(enabled, states, actions, n);
    ExpiredFrom(enabled, states, actions, m, n);
  }

  lemma ExpiredFrom(enabled: bool, states: seq<State>, actions: seq<Action>, m: nat, n: nat)
    requires Run(enabled, states, actions) && m < n <= |actions| && actions[m] == TakeExpiry
    ensures Expired(states[n]) && (states[n].exit.Some? ==> states[n].exit == Some(1) && actions[n - 1] == Fire)
  {
    RunKeepsInv(enabled, states, actions, m);
    RunKeepsInv(enabled, states, actions, m + 1);
    ExpiryTaken(states[m]);
    StaysExpired(states, actions, m + 1, n);
    if m + 1 < n {
      StaysExpired(states, actions, m + 1, n - 1);
      ExpiredStays(states[n - 1], actions[n - 1]);
    }
  }

  lemma StaysExpired(states: seq<State>, actions: seq<Action>, m: nat, n: nat)
    requires |states| == |actions| + 1 && m <= n <= |actions| && Inv(states[m]) && Expired(states[m])
    requires forall i {:trigger actions[i]} | 0 <= i < |actions| :: Next(states[i], actions[i], states[i + 1])
    ensures Inv(states[n]) && Expired(states[n])
  {
    forall s, a, s' | Next(s, a, s') && Inv(s) && Expired(s) ensures Inv(s') && Expired(s') {
      NextKeepsInv(s, a, s');
      ExpiredStays(s, a);
    }
    Runs.Invariant(Next, (s: State) => Inv(s) && Expired(s), states, actions, m, n);
  }

  lemma ExpiryTaken(s: State)
    requires Inv(s) && Enabled(s, TakeExpiry)
    ensures Expired(Do(s, TakeExpiry)) && Do(s, TakeExpiry).exit == None
  {
  }

  // ----------------------------------------------------------------- the loop

  /** A step that the command cannot go on after: its error is on the way to Fatal. */
  predicate Fails(s: State, a: Action) {
    || (a == Listen(false) && s.enabled) || a == MountAndPreload(false) || a == SdNotify(false)
    || (a == TakeError && s.errc == Some(true))
  }

  /** On the way to Fatal with nothing stopped and no timer armed, or there with status 1. */
  predicate Doomed(s: State) {
    && s.main == Fail && s.closes == 0 && !s.timer && !HasStopped(s.telemetry) && s.telemetry != Stopping
    && (s.exit == None || s.exit == Some(1))
  }

  lemma FailureDooms(s: State, a: Action, s': State)
    requires Inv(s) && Next(s, a, s') && Fails(s, a)
    ensures Doomed(s') && s'.exit == None
  {
  }

  lemma DoomNext(s: State, a: Action, s': State)
    requires Next(s, a, s') && Doomed(s)
    ensures Doomed(s') && (s'.exit == Some(1) ==> a == Fatal)
  {
    if !Ending(a) && !OfTelemetry(a) {
      OthersKeepDoom(s, a, s');
    }
  }

  lemma OthersKeepDoom(s: State, a: Action, s': State)
    requires Next(s, a, s') && !Ending(a) && !OfTelemetry(a) && Doomed(s)
    ensures Doomed(s') && s'.exit == None
  {
  }

  lemma OthersLeaveMain(s: State, a: Action, s': State)
    requires Next(s, a, s') && !Provider(a) && !Select(a) && !Ending(a)
    ensures s'.main == s.main && s'.closes == s.closes
    ensures s'.exit == if a == TelemetryPanics then Some(2) else None
  {
  }

  /**
   A telemetry address that cannot be listened on, a failed mount, Preload or notification, and an error
   of the telemetry server that main receives are fatal: `done` is never closed, the status can only be 1,
   and until the exit Fatal is what main does next.
   */
  lemma FailureIsFatal(enabled: bool, states: seq<State>, actions: seq<Action>, m: nat, n: nat)
    requires Run(enabled, states, actions) && m < n <= |actions| && Fails(states[m], actions[m])
    ensures var s := states[n];
      s.closes == 0 && if s.exit == None then Enabled(s, Fatal) else s.exit == Some(1) && actions[n - 1] == Fatal
  {
    RunKeepsInv(enabled, states, actions, m);
    FailureDooms(states[m], actions[m], states[m + 1]);
    StaysDoomed(enabled, states, actions, m + 1, n);
    if n > m + 1 {
      StaysDoomed(enabled, states, actions, m + 1, n - 1);
      DoomNext(states[n - 1], actions[n - 1], states[n]);
    }
  }

  lemma StaysDoomed(enabled: bool, states: seq<State>, actions: seq<Action>, m: nat, n: nat)
    requires Run(enabled, states, actions) && m <= n <= |actions| && Doomed(states[m])
    ensures Doomed(states[n])
  {
    forall s, a, s' | Next(s, a, s') && Doomed(s) ensures Doomed(s') {
      DoomNext(s, a, s');
    }
    Runs.Invariant(Next, Doomed, states, actions, m, n);
  }

  lemma ExitNext(s: State, a: Action, s': State)
    requires Next(s, a, s')
    ensures s'.exit == Some(1) <==> a == Fatal || a == Fire
    ensures s'.exit == None <==> a != Fatal && a != Fire && a != ExitZero && a != TelemetryPanics
  {
    if !Provider(a) && !Select(a) && !Ending(a) {
      OthersLeaveMain(s, a, s');
    }
  }

  /**
   The status is 1 exactly if the grace timer fired, or one of the fatal failures happened and Fatal
   came of it.
   */
  lemma ExitOneExactly(enabled: bool, states: seq<State>, actions: seq<Action>, n: nat)
    requires Run(enabled, states, actions) && n <= |actions|
    ensures states[n].exit == Some(1) <==>
      || (exists i :: 0 <= i < n && actions[i] == Fire)
      || (exists j, i :: 0 <= j < i < n && Fails(states[j], actions[j]) && actions[i] == Fatal)
  {
    if states[n].exit == Some(1) {
      ExitNext(states[n - 1], actions[n - 1], states[n]);
      if actions[n - 1] == Fatal {
        assert Enabled(states[n - 1], Fatal);
        var j := FailedBefore(enabled, states, actions, n - 1);
        assert Fails(states[j], actions[j]) && actions[n - 1] == Fatal;
      }
    }
    forall i | 0 <= i < n && (actions[i] == Fire || actions[i] == Fatal) ensures states[n].exit == Some(1) {
      ExitNext(states[i], actions[i], states[i + 1]);
      if i + 1 < n {
        assert Next(states[i + 1], actions[i + 1], states[i + 2]);
      }
    }
  }

  lemma {:induction false} FailedBefore(enabled: bool, states: seq<State>, actions: seq<Action>, n: nat)
    returns (j: nat)
    requires Run(enabled, states, actions) && n <= |actions| && states[n].main == Fail
    ensures j < n && Fails(states[j], actions[j])
    decreases n
  {
    FailNext(states[n - 1], actions[n - 1], states[n]);
    if Fails(states[n - 1], actions[n - 1]) {
      j := n - 1;
    } else {
      j := FailedBefore(enabled, states, actions, n - 1);
    }
  }

  lemma FailNext(s: State, a: Action, s': State)
    requires Next(s, a, s')
    ensures s'.main == Fail ==> s.main == Fail || Fails(s, a)
  {
    if !Provider(a) && !Select(a) && !Ending(a) {
      OthersLeaveMain(s, a, s');
    }
  }

  /** The error that main can receive is the one that ListenAndServe returned. */
  lemma {:induction false} ErrorIsTheServers(
      enabled: bool, states: seq<State>, actions: seq<Action>, n: nat, failed: bool) returns (i: nat)
    requires Run(enabled, states, actions) && n <= |actions|
    requires states[n].errc == Some(failed) || states[n].serve == Sending(failed)
    ensures i < n && actions[i] == ServeReturns(failed)
    decreases n
  {
    ErrorNext(states[n - 1], actions[n - 1], states[n], failed);
    if actions[n - 1] == ServeReturns(failed) {
      i := n - 1;
    } else {
      i := ErrorIsTheServers(enabled, states, actions, n - 1, failed);
    }
  }

  lemma ErrorNext(s: State, a: Action, s': State, failed: bool)
    requires Next(s, a, s') && (s'.errc == Some(failed) || s'.serve == Sending(failed))
    ensures s.errc == Some(failed) || s.serve == Sending(failed) || a == ServeReturns(failed)
  {
    if !a.ServeReturns? && !a.Send? && !a.LaunchServer? && !a.TakeError? {
      OthersLeaveChannel(s, a, s');
      OthersLeaveServer(s, a, s');
    }
  }

  lemma OthersLeaveChannel(s: State, a: Action, s': State)
    requires Next(s, a, s') && !a.Send? && !a.TakeError?
    ensures s'.errc == s.errc
  {
  }

  lemma OthersLeaveServer(s: State, a: Action, s': State)
    requires Next(s, a, s') && !a.ServeReturns? && !a.Send? && !a.LaunchServer?
    ensures s'.serve == s.serve
  {
  }

  /** What ends the loop: the deadline, an error, a stop signal. */
  predicate LeavesLoop(s: State, a: Action) {
    || a == TakeExpiry
    || (a == TakeError && s.errc == Some(true))
    || (a == TakeSignal && s.sig == Some(true))
  }

  predicate LeftLoop(s: State) { PastLoop(s) || s.main == Fail }

  lemma LoopNext(s: State, a: Action, s': State)
    requires Next(s, a, s') && s.main == Loop
    ensures s'.main == Loop <==> !LeavesLoop(s, a)
    ensures s'.main == Loop || LeftLoop(s')
  {
    if !Provider(a) && !Select(a) && !Ending(a) {
      OthersLeaveMain(s, a, s');
    }
  }

  lemma LeftLoopNext(s: State, a: Action, s': State)
    requires Next(s, a, s') && LeftLoop(s)
    ensures LeftLoop(s') && !LeavesLoop(s, a)
  {
    if !Provider(a) && !Select(a) && !Ending(a) {
      OthersLeaveMain(s, a, s');
    }
  }

  predicate LoopFate(s: State, calm: bool) {
    if calm then s.main == Loop else LeftLoop(s)
  }

  lemma LoopFateNext(s: State, a: Action, s': State, calm: bool)
    requires Next(s, a, s') && LoopFate(s, calm)
    ensures LoopFate(s', calm && !LeavesLoop(s, a))
  {
    if calm {
      LoopNext(s, a, s');
    } else {
      LeftLoopNext(s, a, s');
    }
  }

  /** Nothing from `m` on has ended the loop. */
  ghost predicate Calm(states: seq<State>, actions: seq<Action>, m: nat, n: nat)
    requires n <= |actions| <= |states|
  {
    forall i | m <= i < n :: !LeavesLoop(states[i], actions[i])
  }

  lemma CalmNext(states: seq<State>, actions: seq<Action>, m: nat, n: nat)
    requires m <= n < |actions| <= |states|
    ensures Calm(states, actions, m, n + 1) <==> Calm(states, actions, m, n) && !LeavesLoop(states[n], actions[n])
  {
  }

  /**
   Main is in its loop until the deadline, an error or a stop signal; a server that returned without
   error, the other signals and configuration updates leave it there.
   */
  lemma LoopLeftExactly(enabled: bool, states: seq<State>, actions: seq<Action>, m: nat, n: nat)
    requires Run(enabled, states, actions) && m <= n <= |actions| && states[m].main == Loop
    ensures LoopFate(states[n], Calm(states, actions, m, n))
  {
    forall k: nat | m <= k < n && LoopFateAt(states, actions, m, k) ensures LoopFateAt(states, actions, m, k + 1) {
      LoopLeftNext(enabled, states, actions, m, k);
    }
    Runs.Induction((k: nat) => LoopFateAt(states, actions, m, k), m, n);
  }

  ghost predicate LoopFateAt(states: seq<State>, actions: seq<Action>, m: nat, k: nat) {
    k <= |actions| < |states| && LoopFate(states[k], Calm(states, actions, m, k))
  }

  lemma LoopLeftNext(enabled: bool, states: seq<State>, actions: seq<Action>, m: nat, k: nat)
    requires Run(enabled, states, actions) && m <= k < |actions| && LoopFateAt(states, actions, m, k)
    ensures LoopFateAt(states, actions, m, k + 1)
  {
    CalmNext(states, actions, m, k);
    LoopFateNext(states[k], actions[k], states[k + 1], Calm(states, actions, m, k));
  }

  /** Whatever waits for main while it is in its loop can be taken, and an error on its way gets there. */
  lemma LoopReacts(s: State)
    requires Inv(s) && s.main == Loop && s.exit == None
    ensures s.expired || s.errc.Some? || s.sig.Some? || s.bus ==>
      exists a :: Select(a) && Enabled(s, a)
    ensures s.expired ==> Enabled(s, TakeExpiry)
    ensures s.errc.Some? ==> Enabled(s, TakeError)
    ensures s.sig.Some? ==> Enabled(s, TakeSignal)
    ensures s.serve.Sending? ==> Enabled(s, Send) && Enabled(Do(s, Send), TakeError)
  {
    if s.expired {
      assert Enabled(s, TakeExpiry);
    } else if s.errc.Some? {
      assert Enabled(s, TakeError);
    } else if s.sig.Some? {
      assert Enabled(s, TakeSignal);
    } else if s.bus {
      assert Enabled(s, TakeBus);
    }
  }

  /** A stop signal that main receives has `done` closed next, and it stays closed. */
  lemma StopSignalCloses(enabled: bool, states: seq<State>, actions: seq<Action>, m: nat, n: nat)
    requires Run(enabled, states, actions) && m < n <= |actions|
    requires actions[m] == TakeSignal && states[m].sig == Some(true)
    ensures states[n].closes == 1 || (states[n].main == CloseDone && states[n].closes == 0)
    ensures states[n].main == CloseDone && states[n].exit == None ==> Enabled(states[n], Close)
  {
    RunKeepsInv(enabled, states, actions, m);
    StopSignalTaken(states[m], states[m + 1]);
    forall s, a, s' | Next(s, a, s') && Closing(s) ensures Closing(s') {
      ClosingNext(s, a, s');
    }
    Runs.Invariant(Next, Closing, states, actions, m + 1, n);
  }

  predicate Closing(s: State) {
    || (s.main == CloseDone && s.closes == 0)
    || (s.closes == 1 && (s.main == ArmTimer || s.main == Wait || s.main == Return))
  }

  lemma StopSignalTaken(s: State, s': State)
    requires Inv(s) && Next(s, TakeSignal, s') && s.sig == Some(true)
    ensures Closing(s')
  {
  }

  lemma ClosingNext(s: State, a: Action, s': State)
    requires Next(s, a, s') && Closing(s)
    ensures Closing(s')
  {
    if !Provider(a) && !Select(a) && !Ending(a) {
      OthersLeaveMain(s, a, s');
    }
  }
}
