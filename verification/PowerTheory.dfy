/**
  Whole runs of the power loop: when the supplies are cut, that they are cut in time, and what it takes to
  latch a loss of main supply or to leave it again.
 */
module PowerTheory {
  import opened Bytes
  import opened Power

  /** states[k + 1] results from turn k. A run ends where the CPU is reset; what follows is another run. */
  ghost predicate IsRun(cap: bool, states: seq<State>, inputs: seq<Input>) {
    && |states| == |inputs| + 1 && states[0] == INIT
    && (forall k :: 0 <= k < |inputs| ==> Step(cap, states[k], inputs[k]) == Next(states[k + 1]))
    && (forall j, k :: 0 <= j <= k < |inputs| ==> inputs[j].now <= inputs[k].now)
  }

  lemma {:induction false} RunInv(cap: bool, states: seq<State>, inputs: seq<Input>, k: nat)
    requires IsRun(cap, states, inputs) && k < |states|
    ensures Inv(cap, states[k])
  {
    hide Step, Inv;
    if k == 0 {
      InitInv(cap);
    } else {
      RunInv(cap, states, inputs, k - 1);
      StepKeepsInv(cap, states[k - 1], inputs[k - 1]);
    }
  }

  // ---------- Safety ----------

  lemma ModularDistance(a: nat, b: nat)
    requires a <= b
    ensures (b % TWO_32 - a % TWO_32) % TWO_32 == (b - a) % TWO_32
  {
    var p, q, d := a / TWO_32, b / TWO_32, b % TWO_32 - a % TWO_32;
    assert b - a == d + TWO_32 * (q - p);
    ShiftInvariant(d, q - p);
  }

  lemma ShiftInvariant(d: int, k: int)
    ensures (d + TWO_32 * k) % TWO_32 == d % TWO_32
  {
  }

  /** The 32-bit difference never overstates the time that has passed, and is exact for 49 days. */
  lemma ElapsedBounds(a: nat, b: nat)
    requires a <= b
    ensures Elapsed(Tick(a), b) <= b - a
    ensures Tick(a) != 0 && b - a < TWO_32 ==> Elapsed(Tick(a), b) == b - a
  {
    ModularDistance(a, b);
  }

  /** In the closing stages the recorded tick is that of the turn since which every evaluation was closing. */
  lemma {:induction false} ClosingSince(cap: bool, states: seq<State>, inputs: seq<Input>, k: nat) returns (j: nat)
    requires IsRun(cap, states, inputs) && k < |states| && Closing(states[k].stage)
    ensures j < k && states[k].timers.pend == Tick(inputs[j].now)
    ensures forall i :: j < i <= k ==> Closing(states[i].stage)
  {
    hide Step, Inv, Tick, Elapsed, Closing;
    assert k > 0 by { InitIsNotClosing(); }
    RunInv(cap, states, inputs, k - 1);
    StepKeepsInv(cap, states[k - 1], inputs[k - 1]);
    if Closing(states[k - 1].stage) {
      j := ClosingSince(cap, states, inputs, k - 1);
    } else {
      j := k - 1;
    }
  }

  lemma InitIsNotClosing()
    ensures !Closing(INIT.stage)
  {
  }

  /** With main supply confirmed, an ignition that is on keeps the closing stages away. */
  lemma IgnitionPreventsClosing(cap: bool, p: State, i: Input, q: State)
    requires Step(cap, p, i) == Next(q) && Closing(q.stage)
    ensures q.latched || (!i.on && !i.acc)
  {
    hide Elapsed, Tick;
  }

  /**
    In every run of either build, a supply pin falls only if every evaluation over at least the preceding
    3000 ms gave SHUTDOWN_PENDING or SHUTDOWN_IN_PROGRESS, and at each of them a loss of main supply was
    latched or the ignition was off.
   */
  lemma CutOnlyAfterThreeSeconds(cap: bool, states: seq<State>, inputs: seq<Input>, k: nat) returns (j: nat)
    requires IsRun(cap, states, inputs) && k < |inputs| && states[k + 1].pins != states[k].pins
    ensures j <= k && inputs[k].now - inputs[j].now >= 3000
    ensures forall i :: j < i <= k + 1 ==> Closing(states[i].stage)
    ensures forall i :: j <= i <= k ==> states[i + 1].latched || (!inputs[i].on && !inputs[i].acc)
  {
    hide Step, Inv, Tick, Elapsed;
    RunInv(cap, states, inputs, k);
    StepKeepsInv(cap, states[k], inputs[k]);
    j := ClosingSince(cap, states, inputs, k);
    ElapsedBounds(inputs[j].now, inputs[k].now);
    forall i | j <= i <= k
      ensures states[i + 1].latched || (!inputs[i].on && !inputs[i].acc)
    {
      IgnitionPreventsClosing(cap, states[i], inputs[i], states[i + 1]);
    }
  }

  /** The MCU's own supply is low only when both enables are, and nothing rises again. */
  lemma {:induction false} PinsOnlyFall(cap: bool, states: seq<State>, inputs: seq<Input>, j: nat, k: nat)
    requires IsRun(cap, states, inputs) && j <= k < |states|
    ensures NoPinRises(states[j].pins, states[k].pins)
    ensures !states[k].pins.hold ==> !states[k].pins.soc && !states[k].pins.v24
  {
    hide Step;
    RunInv(cap, states, inputs, k);
    if j < k {
      PinsOnlyFall(cap, states, inputs, j, k - 1);
      RunInv(cap, states, inputs, k - 1);
      StepKeepsInv(cap, states[k - 1], inputs[k - 1]);
    }
  }

  // ---------- Progress ----------

  /** While a loss is latched and no reset happens, the stage is decided by the timers alone. */
  lemma LatchedStep(cap: bool, p: State, i: Input, q: State)
    requires Inv(cap, p) && p.latched && Step(cap, p, i) == Next(q)
    ensures q.latched && q.stage == LossStage(cap, p, Sampled(cap, p.counts, i), i.now)
    ensures p.stage.SupercapHold? && q.stage.SupercapHold? ==> q.timers == p.timers
  {
    hide Elapsed, Tick;
  }

  /** The turn that latches a loss records its tick for the stage it enters. */
  lemma LatchingStep(cap: bool, p: State, i: Input, q: State)
    requires Inv(cap, p) && !p.latched && Step(cap, p, i) == Next(q) && q.latched
    ensures q.stage.ShutdownPending? ==> q.timers.pend == Tick(i.now) && !Closing(p.stage)
    ensures !q.stage.ShutdownPending? ==> cap && q.stage.SupercapHold? && q.timers.hold == Tick(i.now)
  {
    hide Elapsed, Tick;
    assert !InShutdownFlow(p.stage);
  }

  /** From turn `from` on, every turn takes 100 ms or more, and all fits 32 bits. */
  ghost predicate Advancing(inputs: seq<Input>, from: nat) {
    && (forall k :: from < k < |inputs| ==> inputs[k].now >= inputs[k - 1].now + PERIOD_MS)
    && (forall k :: from <= k < |inputs| ==> inputs[k].now < inputs[from].now + TWO_32)
  }

  lemma {:induction false} TimePasses(inputs: seq<Input>, from: nat, j: nat, k: nat)
    requires Advancing(inputs, from) && from <= j <= k < |inputs|
    ensures inputs[k].now >= inputs[j].now + PERIOD_MS * (k - j)
    decreases k - j
  {
    hide Tick;
    if j < k {
      TimePasses(inputs, from, j, k - 1);
    }
  }

  lemma ElapsedIs(inputs: seq<Input>, from: nat, j: nat, k: nat)
    requires Advancing(inputs, from) && from <= j <= k < |inputs| && Tick(inputs[j].now) != 0
    ensures Elapsed(Tick(inputs[j].now), inputs[k].now) >= PERIOD_MS * (k - j)
  {
    hide Tick, Elapsed;
    TimePasses(inputs, from, j, k);
    TimePasses(inputs, from, from, j);
    ElapsedBounds(inputs[j].now, inputs[k].now);
  }

  /** Closing with a tick recorded at turn j: the stage persists and the tick is kept. */
  lemma {:induction false} KeepsClosing(cap: bool, states: seq<State>, inputs: seq<Input>, j: nat, k: nat)
    requires IsRun(cap, states, inputs) && j < k < |states|
    requires states[j + 1].latched && Closing(states[j + 1].stage) && states[j + 1].timers.pend == Tick(inputs[j].now)
    ensures states[k].latched && Closing(states[k].stage) && states[k].timers.pend == Tick(inputs[j].now)
  {
    hide Step, Inv, Tick, Elapsed;
    if k > j + 1 {
      KeepsClosing(cap, states, inputs, j, k - 1);
      RunInv(cap, states, inputs, k - 1);
      LatchedStep(cap, states[k - 1], inputs[k - 1], states[k]);
      StepKeepsInv(cap, states[k - 1], inputs[k - 1]);
    }
  }

  ghost predicate AllCut(pins: Pins) {
    !pins.soc && !pins.v24 && !pins.hold
  }

  /** Turn e enters the closing stages with a latched loss and records its tick. */
  ghost predicate EntersClosing(states: seq<State>, inputs: seq<Input>, e: nat) {
    && e < |inputs| && e + 1 < |states| && !Closing(states[e].stage)
    && states[e + 1].latched && Closing(states[e + 1].stage) && states[e + 1].timers.pend == Tick(inputs[e].now)
  }

  /** Thirty turns after a tick other than 0 was recorded the supplies are cut. */
  lemma ClosingCuts(cap: bool, states: seq<State>, inputs: seq<Input>, from: nat, e: nat)
    requires IsRun(cap, states, inputs) && Advancing(inputs, from) && from <= e && e + 30 < |inputs|
    requires EntersClosing(states, inputs, e) && Tick(inputs[e].now) != 0
    ensures AllCut(states[e + 31].pins)
  {
    hide Step, Inv, Tick, Elapsed;
    var k := e + 30;
    KeepsClosing(cap, states, inputs, e, k);
    RunInv(cap, states, inputs, k);
    ElapsedIs(inputs, from, e, k);
    LatchedStep(cap, states[k], inputs[k], states[k + 1]);
    StepKeepsInv(cap, states[k], inputs[k]);
  }

  lemma ZeroTickStep(cap: bool, p: State, i: Input, q: State)
    requires Inv(cap, p) && Closing(p.stage) && p.timers.pend == 0
    requires Step(cap, p, i) == Next(q) && Closing(q.stage)
    ensures q.stage.ShutdownPending? && q.timers.pend == 0 && q.pins == p.pins
  {
    hide Tick;
    StepKeepsInv(cap, p, i);
  }

  /** A recorded tick of 0 means "not set": the countdown never ends, however long the run. */
  lemma {:induction false} ZeroTickNeverCuts(cap: bool, states: seq<State>, inputs: seq<Input>, e: nat, k: nat)
    requires IsRun(cap, states, inputs) && e < k < |states|
    requires EntersClosing(states, inputs, e) && Tick(inputs[e].now) == 0
    ensures Closing(states[k].stage) && states[k].pins == states[e].pins
  {
    hide Step, Inv, Tick, Elapsed;
    if k == e + 1 {
      RunInv(cap, states, inputs, e);
      StepKeepsInv(cap, states[e], inputs[e]);
    } else {
      ZeroTickNeverCuts(cap, states, inputs, e, k - 1);
      KeepsClosing(cap, states, inputs, e, k - 1);
      KeepsClosing(cap, states, inputs, e, k);
      RunInv(cap, states, inputs, k - 1);
      ZeroTickStep(cap, states[k - 1], inputs[k - 1], states[k]);
    }
  }

  /** The supplies are cut within thirty turns of closing exactly when the tick recorded is not 0. */
  lemma ClosingCutsIff(cap: bool, states: seq<State>, inputs: seq<Input>, e: nat)
    requires IsRun(cap, states, inputs) && Advancing(inputs, e) && e + 30 < |inputs| && EntersClosing(states, inputs, e)
    ensures AllCut(states[e + 31].pins) <==> Tick(inputs[e].now) != 0 || AllCut(states[e].pins)
  {
    hide Step, Inv, Tick, Elapsed, Advancing;
    if Tick(inputs[e].now) != 0 {
      ClosingCuts(cap, states, inputs, e, e);
    } else {
      ZeroTickNeverCuts(cap, states, inputs, e, e + 31);
    }
  }

  /** Holding on the super-capacitor since turn j: within a hundred turns the closing stages are entered. */
  lemma {:induction false} HoldEnds(cap: bool, states: seq<State>, inputs: seq<Input>, from: nat, j: nat, k: nat)
    returns (e: nat)
    requires IsRun(cap, states, inputs) && Advancing(inputs, from) && from <= j < k <= j + 100 < |inputs|
    requires states[k].latched && states[k].stage.SupercapHold? && states[k].timers.hold == Tick(inputs[j].now) != 0
    ensures k <= e <= j + 100 && EntersClosing(states, inputs, e)
    decreases j + 100 - k
  {
    hide Step, Inv, Tick, Elapsed;
    RunInv(cap, states, inputs, k);
    LatchedStep(cap, states[k], inputs[k], states[k + 1]);
    StepKeepsInv(cap, states[k], inputs[k]);
    if Closing(states[k + 1].stage) {
      e := k;
    } else {
      ElapsedIs(inputs, from, j, k);
      e := HoldEnds(cap, states, inputs, from, j, k + 1);
    }
  }

  lemma ZeroHoldStep(cap: bool, p: State, i: Input, q: State)
    requires Inv(cap, p) && p.latched && p.stage.SupercapHold? && p.timers.hold == 0 && Step(cap, p, i) == Next(q)
    ensures q.counts.low < LOW_TARGET ==> q.latched && q.stage.SupercapHold? && q.timers.hold == 0 && q.pins == p.pins
    ensures q.counts.low >= LOW_TARGET ==> q.stage.ShutdownPending?
  {
    hide Tick;
  }

  /** With 0 recorded on entering the capacitor stage there is no time limit: only a low capacitor ends it. */
  lemma {:induction false} ZeroHoldWaits(cap: bool, states: seq<State>, inputs: seq<Input>, j: nat, k: nat)
    requires IsRun(cap, states, inputs) && j <= k < |states|
    requires states[j].latched && states[j].stage.SupercapHold? && states[j].timers.hold == 0
    requires forall i :: j < i < k ==> states[i].counts.low < LOW_TARGET
    ensures j < k ==> (Closing(states[k].stage) <==> states[k].counts.low >= LOW_TARGET)
    ensures j == k || states[k].counts.low < LOW_TARGET ==>
              states[k].latched && states[k].stage.SupercapHold? && states[k].timers.hold == 0 && states[k].pins == states[j].pins
    decreases k
  {
    hide Step, Inv;
    if j < k {
      ZeroHoldWaits(cap, states, inputs, j, k - 1);
      RunInv(cap, states, inputs, k - 1);
      ZeroHoldStep(cap, states[k - 1], inputs[k - 1], states[k]);
    }
  }

  /**
    Bounded progress. Once turn k latches a loss of main supply, a run whose turns take 100 ms or more and that
    is not reset enters the closing stages at once, or within 100 turns when it holds on the super-capacitor and
    did not record 0 for that; from there the supplies are cut and the MCU's own is released within 30 turns,
    exactly when the tick of that turn is not 0 (or they were cut before).
   */
  lemma BoundedShutdown(cap: bool, states: seq<State>, inputs: seq<Input>, k: nat) returns (e: nat)
    requires IsRun(cap, states, inputs) && Advancing(inputs, k)
    requires k + (if cap then 130 else 30) < |inputs|
    requires !states[k].latched && states[k + 1].latched
    requires states[k + 1].stage.SupercapHold? ==> Tick(inputs[k].now) != 0
    ensures k <= e <= (if cap then k + 100 else k) && EntersClosing(states, inputs, e)
    ensures AllCut(states[e + 31].pins) <==> Tick(inputs[e].now) != 0 || AllCut(states[e].pins)
    ensures Tick(inputs[e].now) != 0 ==> AllCut(states[k + (if cap then 131 else 31)].pins)
  {
    hide Step, Inv, Tick, Elapsed;
    RunInv(cap, states, inputs, k);
    LatchingStep(cap, states[k], inputs[k], states[k + 1]);
    e := k;
    if !states[k + 1].stage.ShutdownPending? {
      e := HoldEnds(cap, states, inputs, k, k, k + 1);
    }
    AdvancingLater(inputs, k, e);
    ClosingCutsIff(cap, states, inputs, e);
    PinsOnlyFall(cap, states, inputs, e + 31, k + (if cap then 131 else 31));
  }

  lemma AdvancingLater(inputs: seq<Input>, from: nat, later: nat)
    requires Advancing(inputs, from) && from <= later < |inputs|
    ensures Advancing(inputs, later)
  {
    TimePasses(inputs, from, from, later);
  }

  // ---------- Ignition off with the main supply present ----------

  /** With the main supply confirmed the ignition decides, and only a pending shutdown that ran its time goes on. */
  lemma MainStep(cap: bool, p: State, i: Input, q: State)
    requires Inv(cap, p) && Step(cap, p, i) == Next(q) && q.counts.present >= PRESENT_TARGET
    ensures !q.latched && q.prevMain
    ensures i.on ==> q.stage == OnActive
    ensures !i.on && i.acc ==> q.stage == AccActive
    ensures !i.on && !i.acc ==>
              q.stage == if p.stage.ShutdownPending? && Elapsed(p.timers.pend, i.now) >= 3000
                         then ShutdownInProgress else ShutdownPending
  {
    hide Elapsed, Tick;
  }

  /** From turn e through turn `last` the ignition is off and the main supply is high, as it was for nine turns before. */
  ghost predicate ParkedFrom(inputs: seq<Input>, e: nat, last: nat) {
    && 9 <= e <= last < |inputs|
    && (forall i :: e - 9 <= i <= last ==> inputs[i].bat24 >= 18000)
    && (forall i :: e <= i <= last ==> !inputs[i].on && !inputs[i].acc)
  }

  lemma {:induction false} ParkedKeepsClosing(cap: bool, states: seq<State>, inputs: seq<Input>, e: nat, last: nat, k: nat)
    requires IsRun(cap, states, inputs) && ParkedFrom(inputs, e, last) && e < k <= last + 1
    requires !Closing(states[e].stage)
    ensures Closing(states[k].stage) && states[k].timers.pend == Tick(inputs[e].now)
    ensures Tick(inputs[e].now) == 0 ==> states[k].pins == states[e].pins
  {
    hide Step, Inv, Tick, Elapsed;
    RunInv(cap, states, inputs, k - 1);
    Streaks(cap, states, inputs, k, 10);
    MainStep(cap, states[k - 1], inputs[k - 1], states[k]);
    StepKeepsInv(cap, states[k - 1], inputs[k - 1]);
    if k > e + 1 {
      ParkedKeepsClosing(cap, states, inputs, e, last, k - 1);
      if Tick(inputs[e].now) == 0 {
        ZeroTickStep(cap, states[k - 1], inputs[k - 1], states[k]);
      }
    }
  }

  /**
    A parked vehicle is switched off: when the ignition goes off at turn e, with the main supply confirmed all the
    time, the supplies are cut within thirty turns exactly when the tick recorded is not 0 (or they were before).
   */
  lemma IgnitionOffCutsIff(cap: bool, states: seq<State>, inputs: seq<Input>, e: nat)
    requires IsRun(cap, states, inputs) && Advancing(inputs, e) && ParkedFrom(inputs, e, e + 30)
    requires !Closing(states[e].stage)
    ensures AllCut(states[e + 31].pins) <==> Tick(inputs[e].now) != 0 || AllCut(states[e].pins)
  {
    hide Step, Inv, Tick, Elapsed, Advancing;
    var k := e + 30;
    ParkedKeepsClosing(cap, states, inputs, e, k, k + 1);
    if Tick(inputs[e].now) != 0 {
      ParkedKeepsClosing(cap, states, inputs, e, k, k);
      RunInv(cap, states, inputs, k);
      RunInv(cap, states, inputs, k - 1);
      StepKeepsInv(cap, states[k - 1], inputs[k - 1]);
      StepKeepsInv(cap, states[k], inputs[k]);
      Streaks(cap, states, inputs, k + 1, 10);
      MainStep(cap, states[k], inputs[k], states[k + 1]);
      ElapsedIs(inputs, e, e, k);
    }
  }

  // ---------- When a loss is latched, and for how long the capacitor holds ----------

  /** Not yet latched: a loss is latched exactly when ten low samples in a row follow a confirmed main supply. */
  lemma LatchIff(cap: bool, states: seq<State>, inputs: seq<Input>, k: nat)
    requires IsRun(cap, states, inputs) && k < |inputs| && !states[k].latched
    ensures states[k + 1].latched <==>
            states[k].prevMain && k >= 9 && forall i :: k - 9 <= i <= k ==> inputs[i].bat24 < 18000
    ensures states[k + 1].prevMain <==>
            || states[k + 1].counts.present >= 10
            || (states[k].prevMain && states[k + 1].counts.loss < 10)
    ensures !states[k + 1].latched && states[k + 1].counts.present < 10 ==> states[k + 1].stage == MainOff
  {
    hide Step, Inv;
    RunInv(cap, states, inputs, k);
    StepKeepsInv(cap, states[k], inputs[k]);
    LatchStep(cap, states[k], inputs[k], states[k + 1]);
    Streaks(cap, states, inputs, k + 1, 10);
  }

  lemma LatchStep(cap: bool, p: State, i: Input, q: State)
    requires Inv(cap, p) && Step(cap, p, i) == Next(q) && !p.latched
    ensures q.latched <==> p.prevMain && q.counts.loss >= LOSS_TARGET
    ensures q.prevMain <==> q.counts.present >= PRESENT_TARGET || (p.prevMain && q.counts.loss < LOSS_TARGET)
    ensures !q.latched && q.counts.present < PRESENT_TARGET ==> q.stage == MainOff
    ensures q.latched ==>
              q.stage == if cap && p.ready && i.superC >= SUPERCAP_HOLD_MV then SupercapHold else ShutdownPending
  {
    hide Elapsed, Tick;
  }

  /** The turn that latches a loss goes to the capacitor exactly when it has been confirmed and is still charged. */
  lemma HoldIff(cap: bool, states: seq<State>, inputs: seq<Input>, k: nat)
    requires IsRun(cap, states, inputs) && k < |inputs| && !states[k].latched && states[k + 1].latched
    ensures states[k + 1].stage == (if cap && states[k].ready && inputs[k].superC >= 2100
                                    then SupercapHold else ShutdownPending)
    ensures states[k].ready <==> cap && exists e: nat :: ConfirmedAt(inputs, e, k)
  {
    hide Step, Inv;
    RunInv(cap, states, inputs, k);
    LatchStep(cap, states[k], inputs[k], states[k + 1]);
    ReadyIff(cap, states, inputs, k);
  }

  /** Before turn e, ten samples of main supply and thirty of the super-capacitor in a row were good. */
  ghost predicate ConfirmedAt(inputs: seq<Input>, e: nat, k: nat) {
    && 30 <= e <= k <= |inputs|
    && (forall i :: e - 10 <= i < e ==> inputs[i].bat24 >= 18000)
    && (forall i :: e - 30 <= i < e ==> inputs[i].superC >= 2100)
  }

  lemma ReadyChanges(cap: bool, p: State, i: Input, q: State)
    requires Step(cap, p, i) == Next(q)
    ensures q.ready <==> cap && (p.ready || (q.counts.present >= PRESENT_TARGET && q.counts.ready >= READY_TARGET))
  {
    hide Elapsed, Tick;
  }

  lemma {:induction false} ReadyStreakIff(states: seq<State>, inputs: seq<Input>, k: nat, n: nat)
    requires IsRun(true, states, inputs) && k < |states| && n <= 255
    ensures states[k].counts.ready >= n <==> n <= k && forall i :: k - n <= i < k ==> inputs[i].superC >= 2100
    decreases k
  {
    hide Step;
    if k > 0 && n > 0 {
      CountsFollow(true, states, inputs, k - 1);
      ReadyStreakIff(states, inputs, k - 1, n - 1);
    }
  }

  lemma {:induction false} ReadyIff(cap: bool, states: seq<State>, inputs: seq<Input>, k: nat)
    requires IsRun(cap, states, inputs) && k < |states|
    ensures states[k].ready <==> cap && exists e: nat :: ConfirmedAt(inputs, e, k)
  {
    hide Step;
    if k > 0 {
      ReadyIff(cap, states, inputs, k - 1);
      ReadyChanges(cap, states[k - 1], inputs[k - 1], states[k]);
      Streaks(cap, states, inputs, k, 10);
      if cap {
        ReadyStreakIff(states, inputs, k, 30);
      }
      if states[k].ready {
        if states[k - 1].ready {
          var e: nat :| ConfirmedAt(inputs, e, k - 1);
          assert ConfirmedAt(inputs, e, k);
        } else {
          assert ConfirmedAt(inputs, k, k);
        }
      } else if exists e: nat :: ConfirmedAt(inputs, e, k) {
        var e: nat :| ConfirmedAt(inputs, e, k);
        assert e < k ==> ConfirmedAt(inputs, e, k - 1);
      }
    }
  }

  /** The last n samples, up to and including turn k, were all below the shutdown voltage. */
  ghost predicate LowFor(inputs: seq<Input>, k: int, n: nat) {
    n <= k + 1 <= |inputs| && forall i :: k + 1 - n <= i <= k ==> inputs[i].superC < 1800
  }

  lemma {:induction false} LowStreak(states: seq<State>, inputs: seq<Input>, k: nat, n: nat)
    requires IsRun(true, states, inputs) && k < |states| && 1 <= n <= 255
    ensures states[k].counts.low >= n <==> LowFor(inputs, k - 1, n)
    decreases k
  {
    hide Step;
    if k > 0 {
      CountsFollow(true, states, inputs, k - 1);
      if n > 1 {
        LowStreak(states, inputs, k - 1, n - 1);
      }
    }
  }

  lemma HoldStep(cap: bool, p: State, i: Input, q: State)
    requires Inv(cap, p) && p.latched && p.stage.SupercapHold? && Step(cap, p, i) == Next(q)
    ensures q.stage == if q.counts.low >= LOW_TARGET || Elapsed(p.timers.hold, i.now) >= HOLD_TIMEOUT_MS
                       then ShutdownPending else SupercapHold
  {
    hide Elapsed, Tick;
  }

  /**
    On the super-capacitor since turn j: closing begins exactly at the first turn at which twenty samples in a row
    were low or ten seconds have passed.
   */
  lemma HoldEndsIff(cap: bool, states: seq<State>, inputs: seq<Input>, j: nat, k: nat)
    requires IsRun(cap, states, inputs) && j < k < |inputs| && inputs[k].now < inputs[j].now + TWO_32
    requires states[k].latched && states[k].stage.SupercapHold? && states[k].timers.hold == Tick(inputs[j].now) != 0
    ensures states[k + 1].stage == if LowFor(inputs, k, 20) || inputs[k].now - inputs[j].now >= 10000
                                   then ShutdownPending else SupercapHold
  {
    hide Step, Tick, Elapsed;
    RunInv(cap, states, inputs, k);
    HoldStep(cap, states[k], inputs[k], states[k + 1]);
    LowStreak(states, inputs, k + 1, 20);
    ElapsedBounds(inputs[j].now, inputs[k].now);
  }

  // ---------- A recorded tick of 0 does come up ----------

  /** Turns with the main supply on: enough to confirm it, and the super-capacitor where there is one. */
  function HighTurns(cap: bool): nat {
    if cap then 30 else 10
  }

  /** Main supply and ignition on, then ten turns of loss, the last of them at a tick that reads 0. */
  function ZeroInput(cap: bool, k: nat): Input
    requires k < HighTurns(cap) + 10
  {
    var high := k < HighTurns(cap);
    Input(TWO_32 + 100 * k - 100 * (HighTurns(cap) + 9), if high then 24000 else 0, 3000, false, high)
  }

  function ZeroState(cap: bool, k: nat): State
    requires k <= HighTurns(cap) + 10
  {
    var h := HighTurns(cap);
    var ready := if cap then k else 0;
    if k == 0 then INIT
    else if k <= h then
      INIT.(stage := if k < 10 then MainOff else OnActive, counts := Counts(k, 0, ready, 0),
            ready := cap && k >= 30, prevMain := k >= 10)
    else if k < h + 10 then
      INIT.(stage := MainOff, counts := Counts(0, k - h, ready, 0), ready := cap, prevMain := true)
    else
      INIT.(stage := if cap then SupercapHold else ShutdownPending, timers := Timers(0, 0, !cap, false, false),
            counts := Counts(0, 10, ready, 0), ready := cap, latched := true)
  }

  lemma ZeroStep(cap: bool, k: nat)
    requires k < HighTurns(cap) + 10
    ensures Step(cap, ZeroState(cap, k), ZeroInput(cap, k)) == Next(ZeroState(cap, k + 1))
  {
    hide Elapsed;
  }

  /**
    A run from power-up that latches a loss at a tick that reads 0, in either build: without a super-capacitor the
    closing stages are entered with 0 recorded, with one it is the capacitor stage. So the supplies stay on.
   */
  lemma ZeroTickRun(cap: bool) returns (states: seq<State>, inputs: seq<Input>)
    ensures IsRun(cap, states, inputs) && |inputs| == HighTurns(cap) + 10
    ensures var e := |inputs| - 1;
            && !states[e].latched && states[e + 1].latched && Tick(inputs[e].now) == 0 && !AllCut(states[e + 1].pins)
            && (!cap ==> EntersClosing(states, inputs, e))
            && (cap ==> states[e + 1].stage.SupercapHold? && states[e + 1].timers.hold == 0)
  {
    hide Step;
    var n := HighTurns(cap) + 10;
    inputs := seq(n, k requires 0 <= k < n => ZeroInput(cap, k));
    states := seq(n + 1, k requires 0 <= k <= n => ZeroState(cap, k));
    forall k | 0 <= k < n
      ensures Step(cap, states[k], inputs[k]) == Next(states[k + 1])
    {
      ZeroStep(cap, k);
    }
  }

  // ---------- Debouncing ----------

  /** A reset happens exactly when ten consecutive good samples arrive while a loss is latched. */
  lemma ResetIff(cap: bool, p: State, i: Input)
    requires Inv(cap, p)
    ensures Step(cap, p, i) == Reset <==> p.latched && Confirm(p.counts.present, MainHigh(i)) >= PRESENT_TARGET
  {
    hide Elapsed, Tick;
  }

  lemma CountsFollow(cap: bool, states: seq<State>, inputs: seq<Input>, k: nat)
    requires IsRun(cap, states, inputs) && k < |inputs|
    ensures states[k + 1].counts == Sampled(cap, states[k].counts, inputs[k])
  {
    hide Step, Inv, Tick, Elapsed, Sampled;
    RunInv(cap, states, inputs, k);
    StepKeepsInv(cap, states[k], inputs[k]);
  }

  /** A counter stands at n or more exactly when the last n samples were of its kind, up to 255. */
  lemma {:induction false} Streaks(cap: bool, states: seq<State>, inputs: seq<Input>, k: nat, n: nat)
    requires IsRun(cap, states, inputs) && k < |states| && n <= 255
    ensures states[k].counts.loss >= n <==> n <= k && forall i :: k - n <= i < k ==> inputs[i].bat24 < 18000
    ensures states[k].counts.present >= n <==> n <= k && forall i :: k - n <= i < k ==> inputs[i].bat24 >= 18000
    decreases k
  {
    hide Step;
    if k > 0 && n > 0 {
      CountsFollow(cap, states, inputs, k - 1);
      Streaks(cap, states, inputs, k - 1, n - 1);
    }
  }

  lemma PrevMainStep(cap: bool, p: State, i: Input, q: State)
    requires Step(cap, p, i) == Next(q) && q.prevMain
    ensures p.prevMain || q.counts.present >= PRESENT_TARGET
  {
    hide Elapsed, Tick;
  }

  /** Main supply counts as seen only after it has been confirmed. */
  lemma {:induction false} MainWasConfirmed(cap: bool, states: seq<State>, inputs: seq<Input>, k: nat) returns (e: nat)
    requires IsRun(cap, states, inputs) && k < |states| && states[k].prevMain
    ensures e <= k && states[e].counts.present >= PRESENT_TARGET
  {
    hide Step;
    if states[k].counts.present >= PRESENT_TARGET {
      e := k;
    } else {
      PrevMainStep(cap, states[k - 1], inputs[k - 1], states[k]);
      e := MainWasConfirmed(cap, states, inputs, k - 1);
    }
  }

  lemma LatchCondition(cap: bool, p: State, i: Input, q: State)
    requires Step(cap, p, i) == Next(q) && !p.latched && q.latched
    ensures p.prevMain && q.counts.loss >= LOSS_TARGET
  {
    hide Elapsed, Tick;
  }

  /**
    A loss is latched only after ten consecutive low samples that come after ten consecutive high ones.
    `e` is the turn after the last of the high samples.
   */
  lemma LatchNeedsConfirmedLoss(cap: bool, states: seq<State>, inputs: seq<Input>, k: nat) returns (e: nat)
    requires IsRun(cap, states, inputs) && k < |inputs| && !states[k].latched && states[k + 1].latched
    ensures 10 <= e <= k - 9
    ensures forall i :: e - 10 <= i < e ==> inputs[i].bat24 >= 18000
    ensures forall i :: k - 9 <= i <= k ==> inputs[i].bat24 < 18000
  {
    hide Step;
    LatchCondition(cap, states[k], inputs[k], states[k + 1]);
    Streaks(cap, states, inputs, k + 1, 10);
    e := MainWasConfirmed(cap, states, inputs, k);
    Streaks(cap, states, inputs, e, 10);
    assert inputs[e - 1].bat24 >= 18000;
  }

  /** Recoveries of fewer than ten samples never abort a latched shutdown. */
  lemma ShortRecoveryIgnored(cap: bool, states: seq<State>, inputs: seq<Input>, i: Input)
    requires IsRun(cap, states, inputs) && Step(cap, states[|inputs|], i) == Reset
    ensures states[|inputs|].latched && i.bat24 >= 18000
    ensures |inputs| >= 9 && forall k :: |inputs| - 9 <= k < |inputs| ==> inputs[k].bat24 >= 18000
  {
    hide Step;
    RunInv(cap, states, inputs, |inputs|);
    ResetIff(cap, states[|inputs|], i);
    Streaks(cap, states, inputs, |inputs|, 9);
  }

  // ---------- The super-capacitor ----------

  lemma {:induction false} ReadyStreak(cap: bool, states: seq<State>, inputs: seq<Input>, k: nat, n: nat)
    requires IsRun(cap, states, inputs) && k < |states| && states[k].counts.ready >= n
    ensures n <= k && forall i :: k - n <= i < k ==> inputs[i].superC >= 2100
    decreases k
  {
    hide Step;
    if n > 0 {
      CountsFollow(cap, states, inputs, k - 1);
      ReadyStreak(cap, states, inputs, k - 1, n - 1);
    }
  }

  lemma ReadyStep(cap: bool, p: State, i: Input, q: State)
    requires Step(cap, p, i) == Next(q) && q.ready
    ensures p.ready || q.counts.ready >= READY_TARGET
  {
    hide Elapsed, Tick;
  }

  lemma {:induction false} ReadyWasConfirmed(cap: bool, states: seq<State>, inputs: seq<Input>, k: nat) returns (e: nat)
    requires IsRun(cap, states, inputs) && k < |states| && states[k].ready
    ensures e <= k && states[e].counts.ready >= READY_TARGET
  {
    hide Step;
    if states[k].counts.ready >= READY_TARGET {
      e := k;
    } else {
      ReadyStep(cap, states[k - 1], inputs[k - 1], states[k]);
      e := ReadyWasConfirmed(cap, states, inputs, k - 1);
    }
  }

  lemma HoldCondition(cap: bool, p: State, i: Input, q: State)
    requires Inv(cap, p) && Step(cap, p, i) == Next(q) && q.stage.SupercapHold? && !p.stage.SupercapHold?
    ensures cap && p.ready && i.superC >= SUPERCAP_HOLD_MV && !p.latched
  {
    hide Elapsed, Tick;
  }

  /** SUPERCAP_HOLD is entered only in a managed build, on a capacitor that has been confirmed by 30 samples. */
  lemma HoldNeedsChargedCapacitor(cap: bool, states: seq<State>, inputs: seq<Input>, k: nat) returns (e: nat)
    requires IsRun(cap, states, inputs) && k < |inputs|
    requires !states[k].stage.SupercapHold? && states[k + 1].stage.SupercapHold?
    ensures cap && inputs[k].superC >= 2100
    ensures 30 <= e <= k && forall i :: e - 30 <= i < e ==> inputs[i].superC >= 2100
  {
    hide Step, Inv;
    RunInv(cap, states, inputs, k);
    HoldCondition(cap, states[k], inputs[k], states[k + 1]);
    e := ReadyWasConfirmed(cap, states, inputs, k);
    ReadyStreak(cap, states, inputs, e, 30);
  }
}
