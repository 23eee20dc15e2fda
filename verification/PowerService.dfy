/**
  The power service as it runs: global variables updated in place by the three parts of the loop. Each part is
  proved to do what the state machine prescribes.
 */
module PowerServices {
  import opened Bytes
  import opened Power
  import opened PowerTheory

  class PowerService {
    const cap: bool
    var stage: Stage
    var holdTick: nat
    var pendTick: nat
    var latched: bool
    var prepareDone: bool
    var ready: bool
    var prevMain: bool
    var presentCount: nat
    var lossCount: nat
    var readyCount: nat
    var lowCount: nat
    var socCut: bool
    var holdCut: bool
    var pins: Pins

    ghost function CurrentTimers(): Timers
      reads this
    {
      Timers(holdTick, pendTick, prepareDone, socCut, holdCut)
    }

    ghost function State(): State
      reads this
    {
      Power.State(stage, CurrentTimers(),
                  Counts(presentCount, lossCount, readyCount, lowCount), latched, ready, prevMain, pins)
    }

    /** Initialisation raises the three supply pins and clears everything else. */
    constructor (cap: bool)
      ensures this.cap == cap && State() == INIT && Inv(cap, State())
    {
      this.cap := cap;
      stage, holdTick, pendTick := Unknown, 0, 0;
      latched, prepareDone, ready, prevMain := false, false, false, false;
      presentCount, lossCount, readyCount, lowCount := 0, 0, 0, 0;
      socCut, holdCut := false, false;
      pins := Pins(true, true, false, true);
    }

    /** Count consecutive confirmations, saturating at 255. */
    static method UpdateConfirmCounter(condition: bool, counter: nat) returns (r: nat)
      ensures r == Confirm(counter, condition)
    {
      r := counter;
      if condition {
        if r < 255 {
          r := r + 1;
        }
      } else {
        r := 0;
      }
    }

    method SampleCounters(i: Input)
      modifies this`presentCount, this`lossCount, this`readyCount, this`lowCount, this`ready
      ensures State() == old(State()).(counts := Sampled(cap, old(State()).counts, i), ready := cap && old(ready))
    {
      var high := i.bat24 >= MAIN_PRESENT_MV;
      presentCount := UpdateConfirmCounter(high, presentCount);
      lossCount := UpdateConfirmCounter(!high, lossCount);
      if cap {
        readyCount := UpdateConfirmCounter(i.superC >= SUPERCAP_READY_MV, readyCount);
        lowCount := UpdateConfirmCounter(i.superC < SUPERCAP_SHUTDOWN_MV, lowCount);
      } else {
        readyCount, lowCount, ready := 0, 0, false;
      }
    }

    /** Decide the stage of this turn, or that the CPU is to be reset. */
    method EvalStage(i: Input) returns (reset: bool, s: Stage)
      modifies this`presentCount, this`lossCount, this`readyCount, this`lowCount
      modifies this`ready, this`latched, this`prevMain
      ensures var c := Sampled(cap, old(State()).counts, i);
              match Evaluate(cap, old(State()), c, i)
              case ResetCpu => reset
              case Go(s', latched', ready', prev') =>
                && !reset && s == s'
                && State() == old(State()).(counts := c, latched := latched', ready := ready', prevMain := prev')
    {
      hide Sampled, Elapsed;
      SampleCounters(i);
      reset, s := false, stage;
      var mainPresent := presentCount >= PRESENT_TARGET;
      var fallingEdge := prevMain && lossCount >= LOSS_TARGET;
      var risingEdge := !prevMain && mainPresent;
      if mainPresent {
        if risingEdge && InShutdownFlow(stage) {
          return true, stage;
        }
        latched := false;
        if cap {
          if readyCount >= READY_TARGET {
            ready := true;
          }
        } else {
          ready := false;
        }
        prevMain := true;
        s := NormalStage(i);
        if s.ShutdownPending? && stage.ShutdownPending? && Elapsed(pendTick, i.now) >= SHUTDOWN_MS {
          s := ShutdownInProgress;
        }
        return;
      }
      if lossCount >= LOSS_TARGET {
        prevMain := false;
      }
      if fallingEdge && !latched {
        latched := true;
        s := if cap && ready && i.superC >= SUPERCAP_HOLD_MV then SupercapHold else ShutdownPending;
        return;
      }
      if latched {
        s := LatchedStage(i);
        return;
      }
      s := MainOff;
    }

    /** Where the shutdown stands while the loss is latched. */
    method LatchedStage(i: Input) returns (s: Stage)
      ensures s == LossStage(cap, State(), State().counts, i.now)
    {
      hide Elapsed;
      if stage.ShutdownPending? || stage.ShutdownInProgress? {
        return if Elapsed(pendTick, i.now) >= SHUTDOWN_MS then ShutdownInProgress else ShutdownPending;
      }
      if lowCount >= LOW_TARGET || Elapsed(holdTick, i.now) >= HOLD_TIMEOUT_MS {
        return ShutdownPending;
      }
      return if cap then SupercapHold else ShutdownPending;
    }

    method HandleStageTransition(s: Stage, now: nat)
      modifies this`stage, this`holdTick, this`pendTick, this`prepareDone, this`socCut, this`holdCut
      ensures stage == s
      ensures CurrentTimers() == Enter(old(CurrentTimers()), old(stage), s, now)
    {
      hide Tick;
      if s == stage {
        return;
      }
      if s.SupercapHold? {
        holdTick, pendTick := Tick(now), 0;
        prepareDone, socCut, holdCut := false, false, false;
      } else if s.ShutdownPending? && !prepareDone {
        if holdTick == 0 {
          holdTick := Tick(now);
        }
        pendTick := Tick(now);
        prepareDone, socCut, holdCut := true, false, false;
      } else if s.Standby? || s.AccActive? || s.OnActive? || s.MainOff? {
        holdTick, pendTick := 0, 0;
        prepareDone, socCut, holdCut := false, false, false;
      }
      stage := s;
    }

    method HandleFinalPowerCut(now: nat)
      modifies this`socCut, this`holdCut, this`pins
      ensures State() == FinalCut(cap, old(State()), now)
    {
      hide Elapsed;
      if !stage.ShutdownInProgress? {
        return;
      }
      var pendingMs := Elapsed(pendTick, now);
      if !socCut && pendingMs >= SOC_CUT_MS {
        socCut := true;
        pins := pins.(soc := false, v24 := false);
        if cap {
          pins := pins.(chrg := false);
        }
      }
      if !holdCut && pendingMs >= HOLD_CUT_MS {
        holdCut := true;
        pins := pins.(hold := false);
      }
    }

    /** One turn of the thread's loop. */
    method Turn(i: Input) returns (reset: bool)
      requires Inv(cap, State())
      modifies this
      ensures reset <==> Step(cap, old(State()), i) == Reset
      ensures !reset ==> Next(State()) == Step(cap, old(State()), i) && Inv(cap, State())
    {
      hide Sampled, Evaluate, Enter, FinalCut, Inv;
      StepKeepsInv(cap, State(), i);
      var s;
      reset, s := EvalStage(i);
      if reset {
        return;
      }
      HandleStageTransition(s, i.now);
      HandleFinalPowerCut(i.now);
    }
  }

  ghost predicate InTimeOrder(inputs: seq<Input>) {
    forall j, k :: 0 <= j <= k < |inputs| ==> inputs[j].now <= inputs[k].now
  }

  /**
    The thread from power-up until the CPU is reset or the inputs end: the object goes through a run of the state
    machine, so what holds of every run holds of its pins.
   */
  method Loop(cap: bool, inputs: seq<Input>) returns (service: PowerService, n: nat, reset: bool, ghost states: seq<State>)
    requires InTimeOrder(inputs)
    ensures service.cap == cap && n <= |inputs| && IsRun(cap, states, inputs[..n])
    ensures !reset ==> n == |inputs| && service.State() == states[n]
    ensures reset ==> n < |inputs| && Step(cap, states[n], inputs[n]) == Reset
  {
    hide Step, Inv;
    service := new PowerService(cap);
    n, reset, states := 0, false, [INIT];
    while n < |inputs|
      invariant service.cap == cap && fresh(service) && n <= |inputs|
      invariant IsRun(cap, states, inputs[..n]) && service.State() == states[n] && Inv(cap, service.State())
    {
      reset := service.Turn(inputs[n]);
      if reset {
        return;
      }
      RunExtends(cap, states, inputs, n, service.State());
      states := states + [service.State()];
      n := n + 1;
    }
  }

  lemma RunExtends(cap: bool, states: seq<State>, inputs: seq<Input>, n: nat, next: State)
    requires InTimeOrder(inputs) && n < |inputs| && IsRun(cap, states, inputs[..n])
    requires Step(cap, states[n], inputs[n]) == Next(next)
    ensures IsRun(cap, states + [next], inputs[..n + 1])
  {
    hide Step;
  }
}
