/**
  The power state machine: one step per turn of the 100 ms loop.

  `cap` says whether the build manages a super-capacitor. Time is the tick count of the turn, 1000 ticks a
  second, which the firmware sees modulo 2^32; a recorded tick of 0 means "not set".
 */
module Power {
  import opened Bytes

  datatype Stage =
    Unknown | MainOff | Standby | AccActive | OnActive | SupercapHold | ShutdownPending | ShutdownInProgress

  const PERIOD_MS := 100
  const MAIN_PRESENT_MV := 18000
  const SUPERCAP_READY_MV := 2100
  const SUPERCAP_HOLD_MV := 2100
  const SUPERCAP_SHUTDOWN_MV := 1800
  const HOLD_TIMEOUT_MS := 10000
  const SHUTDOWN_MS := 3000
  const SOC_CUT_MS := 1000
  const HOLD_CUT_MS := 1500

  /** Milliseconds to loop turns, rounded up and kept within 1 .. 255. */
  function ConfirmCount(ms: nat): (n: nat)
    ensures 1 <= n <= 255
    ensures ms <= 255 * PERIOD_MS && ms > 0 ==> (n - 1) * PERIOD_MS < ms <= n * PERIOD_MS
  {
    var count := (ms + PERIOD_MS - 1) / PERIOD_MS;
    if count == 0 then 1 else if count > 255 then 255 else count
  }

  const PRESENT_TARGET := ConfirmCount(1000)
  const LOSS_TARGET := ConfirmCount(1000)
  const READY_TARGET := ConfirmCount(3000)
  const LOW_TARGET := ConfirmCount(2000)

  /** What one turn samples. */
  datatype Input = Input(now: nat, bat24: nat, superC: nat, acc: bool, on: bool)

  /** Supply enables for the SOC and the 24 V rail, charge control, and the MCU's own hold. */
  datatype Pins = Pins(soc: bool, v24: bool, chrg: bool, hold: bool)

  /** Consecutive turns that confirmed main supply, its loss, a charged and a low super-capacitor. */
  datatype Counts = Counts(present: nat, loss: nat, ready: nat, low: nat)

  /** Entry ticks and the one-shot flags of the shutdown sequence. */
  datatype Timers = Timers(hold: nat, pend: nat, prepared: bool, socCut: bool, holdCut: bool)

  datatype State = State(
    stage: Stage, timers: Timers, counts: Counts, latched: bool, ready: bool, prevMain: bool, pins: Pins)

  const NO_TIMERS := Timers(0, 0, false, false, false)
  const INIT := State(Unknown, NO_TIMERS, Counts(0, 0, 0, 0), false, false, false, Pins(true, true, false, true))

  predicate MainHigh(i: Input) {
    i.bat24 >= MAIN_PRESENT_MV
  }

  predicate InShutdownFlow(s: Stage) {
    s.SupercapHold? || s.ShutdownPending? || s.ShutdownInProgress?
  }

  /** The stages in which the final cut is being counted down. */
  predicate Closing(s: Stage) {
    s.ShutdownPending? || s.ShutdownInProgress?
  }

  function Tick(now: nat): nat {
    now % TWO_32
  }

  /** Milliseconds since a recorded tick, in 32-bit arithmetic. */
  function Elapsed(start: nat, now: nat): nat {
    if start == 0 then 0 else (Tick(now) - start) % TWO_32
  }

  function Confirm(count: nat, condition: bool): nat {
    if !condition then 0 else if count < 255 then count + 1 else count
  }

  function NormalStage(i: Input): Stage {
    if i.on then OnActive else if i.acc then AccActive else ShutdownPending
  }

  /** The debounce counters after this turn's samples. */
  function Sampled(cap: bool, c: Counts, i: Input): Counts {
    Counts(Confirm(c.present, MainHigh(i)),
           Confirm(c.loss, !MainHigh(i)),
           if cap then Confirm(c.ready, i.superC >= SUPERCAP_READY_MV) else 0,
           if cap then Confirm(c.low, i.superC < SUPERCAP_SHUTDOWN_MV) else 0)
  }

  datatype Verdict = ResetCpu | Go(stage: Stage, latched: bool, ready: bool, prevMain: bool)

  /** Main supply confirmed: the ignition decides, unless a pending shutdown has run out of time. */
  function WithMain(cap: bool, p: State, c: Counts, i: Input): Verdict {
    if !p.prevMain && InShutdownFlow(p.stage) then ResetCpu
    else
      var timeUp := p.stage.ShutdownPending? && Elapsed(p.timers.pend, i.now) >= SHUTDOWN_MS;
      Go(if NormalStage(i).ShutdownPending? && timeUp then ShutdownInProgress else NormalStage(i),
         false, cap && (p.ready || c.ready >= READY_TARGET), true)
  }

  /** Where a latched loss of main supply stands. */
  function LossStage(cap: bool, p: State, c: Counts, now: nat): Stage {
    if Closing(p.stage) then
      if Elapsed(p.timers.pend, now) >= SHUTDOWN_MS then ShutdownInProgress else ShutdownPending
    else if c.low >= LOW_TARGET || Elapsed(p.timers.hold, now) >= HOLD_TIMEOUT_MS then ShutdownPending
    else if cap then SupercapHold else ShutdownPending
  }

  function WithoutMain(cap: bool, p: State, c: Counts, i: Input): Verdict {
    var lost := c.loss >= LOSS_TARGET;
    var prev := p.prevMain && !lost;
    if lost && p.prevMain && !p.latched then
      Go(if cap && p.ready && i.superC >= SUPERCAP_HOLD_MV then SupercapHold else ShutdownPending,
         true, cap && p.ready, prev)
    else if p.latched then Go(LossStage(cap, p, c, i.now), true, cap && p.ready, prev)
    else Go(MainOff, false, cap && p.ready, prev)
  }

  /** The stage this turn should be in, or a CPU reset; `c` are the counters after this turn's samples. */
  function Evaluate(cap: bool, p: State, c: Counts, i: Input): Verdict {
    if c.present >= PRESENT_TARGET then WithMain(cap, p, c, i) else WithoutMain(cap, p, c, i)
  }

  /** Entry actions of a change from stage `from` to stage `s`. */
  function Enter(t: Timers, from: Stage, s: Stage, now: nat): Timers {
    if s == from then t
    else if s.SupercapHold? then Timers(Tick(now), 0, false, false, false)
    else if s.ShutdownPending? && !t.prepared then
      Timers(if t.hold == 0 then Tick(now) else t.hold, Tick(now), true, false, false)
    else if s.Standby? || s.AccActive? || s.OnActive? || s.MainOff? then NO_TIMERS
    else t
  }

  /** The final cut: first the SOC and the 24 V rail, then the MCU's own supply. */
  function FinalCut(cap: bool, p: State, now: nat): State {
    if !p.stage.ShutdownInProgress? then p
    else
      var ms, t, pins := Elapsed(p.timers.pend, now), p.timers, p.pins;
      var cutSoc := !t.socCut && ms >= SOC_CUT_MS;
      var cutHold := !t.holdCut && ms >= HOLD_CUT_MS;
      p.(timers := t.(socCut := t.socCut || cutSoc, holdCut := t.holdCut || cutHold),
         pins := Pins(pins.soc && !cutSoc, pins.v24 && !cutSoc, pins.chrg && !(cutSoc && cap), pins.hold && !cutHold))
  }

  datatype Turn = Reset | Next(state: State)

  /** One turn of the loop. */
  function Step(cap: bool, p: State, i: Input): Turn {
    var c := Sampled(cap, p.counts, i);
    match Evaluate(cap, p, c, i)
    case ResetCpu => Reset
    case Go(s, latched, ready, prev) =>
      var q := State(s, Enter(p.timers, p.stage, s, i.now), c, latched, ready, prev, p.pins);
      Next(FinalCut(cap, q, i.now))
  }

  // ---------- The invariant ----------

  predicate PinsOrdered(pins: Pins, t: Timers) {
    && (!pins.hold ==> !pins.soc && !pins.v24)
    && (t.socCut ==> !pins.soc && !pins.v24)
    && (t.holdCut ==> !pins.hold)
  }

  predicate StagesConsistent(cap: bool, stage: Stage, latched: bool, prevMain: bool, present: nat) {
    && (latched ==> !prevMain && InShutdownFlow(stage) && (stage.SupercapHold? ==> cap))
    && (!latched && InShutdownFlow(stage) ==> prevMain && Closing(stage) && present >= PRESENT_TARGET)
  }

  predicate CountsConsistent(c: Counts) {
    c.present <= 255 && c.loss <= 255 && (c.present == 0 || c.loss == 0)
  }

  predicate Inv(cap: bool, p: State) {
    && PinsOrdered(p.pins, p.timers)
    && (Closing(p.stage) <==> p.timers.prepared)
    && StagesConsistent(cap, p.stage, p.latched, p.prevMain, p.counts.present)
    && CountsConsistent(p.counts)
  }

  predicate NoPinRises(p: Pins, q: Pins) {
    (q.soc ==> p.soc) && (q.v24 ==> p.v24) && (q.hold ==> p.hold)
  }

  lemma InitInv(cap: bool)
    ensures Inv(cap, INIT)
  {
  }

  lemma EvaluateKeeps(cap: bool, p: State, i: Input)
    requires Inv(cap, p)
    ensures var c := Sampled(cap, p.counts, i);
            && CountsConsistent(c)
            && match Evaluate(cap, p, c, i)
               case ResetCpu => p.latched
               case Go(s, latched, ready, prev) =>
                 && StagesConsistent(cap, s, latched, prev, c.present)
                 && !s.Unknown?
                 && (p.latched ==> latched)
                 && (s.ShutdownInProgress? ==> Closing(p.stage) && Elapsed(p.timers.pend, i.now) >= SHUTDOWN_MS)
  {
    hide Elapsed;
  }

  lemma EnterKeeps(t: Timers, from: Stage, s: Stage, now: nat, pins: Pins)
    requires PinsOrdered(pins, t) && (Closing(from) <==> t.prepared)
    requires !s.Unknown? && (s.ShutdownInProgress? ==> Closing(from))
    ensures var u := Enter(t, from, s, now);
            && PinsOrdered(pins, u) && (Closing(s) <==> u.prepared)
            && (Closing(from) && Closing(s) ==> u.pend == t.pend)
            && (!Closing(from) && Closing(s) ==> u.pend == Tick(now))
  {
    hide Tick;
  }

  lemma FinalCutKeeps(cap: bool, p: State, now: nat)
    requires PinsOrdered(p.pins, p.timers)
    ensures var q := FinalCut(cap, p, now);
            && PinsOrdered(q.pins, q.timers) && NoPinRises(p.pins, q.pins)
            && q == p.(timers := q.timers, pins := q.pins)
            && q.timers == p.timers.(socCut := q.timers.socCut, holdCut := q.timers.holdCut)
            && (q.pins != p.pins ==> p.stage.ShutdownInProgress?)
            && (p.stage.ShutdownInProgress? && Elapsed(p.timers.pend, now) >= HOLD_CUT_MS ==>
                 !q.pins.soc && !q.pins.v24 && !q.pins.hold)
  {
    hide Elapsed;
  }

  /**
    Every turn keeps the invariant, in both builds: no pin rises, the hold is the last to go, a latched loss
    stays latched, and the CPU is reset only while a loss is latched. A pin only falls in
    SHUTDOWN_IN_PROGRESS, 3000 ms after the tick that was recorded on entering SHUTDOWN_PENDING.
   */
  lemma StepKeepsInv(cap: bool, p: State, i: Input)
    requires Inv(cap, p)
    ensures match Step(cap, p, i)
            case Reset => p.latched
            case Next(q) =>
              && Inv(cap, q) && NoPinRises(p.pins, q.pins) && (p.latched ==> q.latched)
              && (q.stage.ShutdownInProgress? ==>
                   && Closing(p.stage) && Elapsed(p.timers.pend, i.now) >= SHUTDOWN_MS
                   && !q.pins.soc && !q.pins.v24 && !q.pins.hold)
              && (q.pins != p.pins ==> q.stage.ShutdownInProgress?)
              && (Closing(p.stage) && Closing(q.stage) ==> q.timers.pend == p.timers.pend)
              && (!Closing(p.stage) && Closing(q.stage) ==> q.timers.pend == Tick(i.now))
              && q.counts == Sampled(cap, p.counts, i)
  {
    hide Evaluate, Enter, FinalCut, Sampled, Elapsed, Tick;
    var c := Sampled(cap, p.counts, i);
    EvaluateKeeps(cap, p, i);
    match Evaluate(cap, p, c, i) {
      case ResetCpu =>
      case Go(s, latched, ready, prev) =>
        EnterKeeps(p.timers, p.stage, s, i.now, p.pins);
        FinalCutKeeps(cap, State(s, Enter(p.timers, p.stage, s, i.now), c, latched, ready, prev, p.pins), i.now);
    }
  }
}
