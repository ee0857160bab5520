/**
 * The control state of the main loop: the operating mode, the alarm latch
 * `CONTROL`, the statistics `reset` flag and the peak readings reported in
 * cooperative mode, as a pure state machine driven by the readings the loop
 * takes.  The class Monitor.Device keeps the same state in fields and is
 * specified by Step.
 */
module Control {
  import opened Bytes

  /** Light level (lux) below which the room counts as dark. */
  const DARK: nat := 100
  /** Variance metric above which a sample counts as a shock. */
  const SHOCK: int := 75

  /**
   * mode: 0 detect, 1 cooperative (global `mode`); control: the global `CONTROL`;
   * reset: the flag handed to the variance routine; largestLux, largestAcc: the
   * peak trackers; alarmed: the main loop is inside its alarm loop.
   */
  datatype CtrlState = CtrlState(
    mode: int,
    control: int,
    reset: int,
    largestLux: int32,
    largestAcc: int32,
    alarmed: bool)

  /** The state before the first iteration of the main loop. */
  function Init(): (s: CtrlState)
    ensures s.mode == 0 && s.control == 1 && !s.alarmed
    ensures s.reset == 1 && s.largestLux == 0 && s.largestAcc == 0
  {
    CtrlState(0, 1, 1, 0, 0, false)
  }

  /** One reading or event the control state reacts to. */
  datatype Event =
    | OuterPoll(sw4: bit)
      // SW4 sampled at the top of the main loop (active low)
    | Detect(light: uint32, metric: int32)
      // a detect-mode sample: light reading and variance metric
    | AlarmTest
      // the alarm loop re-reads CONTROL
    | CoopTick(sw4: bit, lux1: uint32, lux2: uint32, metric: int32)
      // bookkeeping after one received byte in cooperative mode: SW4, the light
      // reading compared, the light reading stored, and the variance metric
    | Interrupt
      // the SW3 falling-edge interrupt

  predicate IsOuterPress(e: Event) { e.OuterPoll? && e.sw4 == 0 }
  predicate IsPress(e: Event) { (e.OuterPoll? || e.CoopTick?) && e.sw4 == 0 }
  predicate IsDarkDetect(e: Event) { e.Detect? && e.light < DARK }
  predicate IsDarkShock(e: Event) { e.Detect? && e.light < DARK && e.metric > SHOCK }

  /**
   * One event's effect.  A SW4 reading of 0 in either loop flips the mode; only
   * the outer-loop one zeroes the peaks.  A dark detect reading clears `reset`,
   * and with a shock metric it sets CONTROL and enters the alarm.  The alarm
   * loop's test leaves the alarm once CONTROL is not 1, which only the interrupt
   * causes.  A line-reader round keeps `largestAcc` the larger of itself and the
   * metric, and stores the second light reading into `largestLux` when the first
   * exceeds it as unsigned values.
   */
  function Step(s: CtrlState, e: Event): (s': CtrlState)
    ensures IsPress(e) && s.mode in {0, 1} ==> s'.mode == 1 - s.mode
    ensures !IsPress(e) ==> s'.mode == s.mode
    ensures s'.reset == (if IsDarkDetect(e) then 0 else s.reset)
    ensures s'.control == (if IsDarkShock(e) then 1 else if e.Interrupt? then 0 else s.control)
    ensures s'.alarmed == (IsDarkShock(e) || (s.alarmed && !(e.AlarmTest? && s.control != 1)))
    ensures IsOuterPress(e) ==> s'.largestLux == 0 && s'.largestAcc == 0
    ensures e.CoopTick? ==>
      && s'.largestAcc >= s.largestAcc && s'.largestAcc >= e.metric
      && (s'.largestAcc == s.largestAcc || s'.largestAcc == e.metric)
    ensures e.CoopTick? ==>
      s'.largestLux == (if e.lux1 > ToUnsigned(s.largestLux) then ToSigned(e.lux2) else s.largestLux)
    ensures !IsOuterPress(e) && !e.CoopTick? ==> s'.largestLux == s.largestLux && s'.largestAcc == s.largestAcc
  {
    match e
    case OuterPoll(sw4) =>
      if sw4 == 0 then s.(mode := (s.mode + 1) % 2, largestLux := 0, largestAcc := 0) else s
    case Detect(light, metric) =>
      if light < DARK then
        if metric > SHOCK then s.(reset := 0, control := 1, alarmed := true) else s.(reset := 0)
      else s
    case AlarmTest =>
      if s.alarmed && s.control != 1 then s.(alarmed := false) else s
    case CoopTick(sw4, lux1, lux2, metric) =>
      s.(mode := if sw4 == 0 then (s.mode + 1) % 2 else s.mode,
         // `light_read() > largest_lux` compares as unsigned; the second read is stored
         largestLux := if lux1 > ToUnsigned(s.largestLux) then ToSigned(lux2) else s.largestLux,
         largestAcc := if metric > s.largestAcc then metric else s.largestAcc)
    case Interrupt =>
      s.(control := 0)
  }

  /** The state after the events `evs`, in order, starting from `s`. */
  function Run(s: CtrlState, evs: seq<Event>): (s': CtrlState)
  {
    if evs == [] then s else Step(Run(s, evs[..|evs| - 1]), evs[|evs| - 1])
  }

  /** How many SW4 readings of 0, in either loop, the events hold. */
  function Presses(evs: seq<Event>): (n: nat)
  {
    if evs == [] then 0
    else Presses(evs[..|evs| - 1]) + (if IsPress(evs[|evs| - 1]) then 1 else 0)
  }

  lemma {:induction false} RunAppend(s: CtrlState, a: seq<Event>, b: seq<Event>)
    ensures Run(s, a + b) == Run(Run(s, a), b)
    decreases |b|
  {
    if b == [] {
      assert a + b == a;
    } else {
      assert (a + b)[..|a + b| - 1] == a + b[..|b| - 1];
      RunAppend(s, a, b[..|b| - 1]);
    }
  }

  /** `mode` is 0 or 1 in every reachable state, and `reset` is 0 or 1. */
  lemma {:induction false} ModeStaysBinary(evs: seq<Event>)
    ensures Run(Init(), evs).mode in {0, 1}
    ensures Run(Init(), evs).reset in {0, 1}
  {
    if evs != [] {
      ModeStaysBinary(evs[..|evs| - 1]);
    }
  }

  /** Every SW4 reading of 0, in either loop, flips the mode; nothing else changes it. */
  lemma {:induction false} ModeFollowsPresses(s: CtrlState, evs: seq<Event>)
    requires s.mode in {0, 1}
    ensures Run(s, evs).mode == (s.mode + Presses(evs)) % 2
  {
    if evs != [] {
      ModeFollowsPresses(s, evs[..|evs| - 1]);
    }
  }

  /**
   * A press read at the top of the main loop clears both peaks; one read inside
   * the line reader flips the mode alike but clears neither.
   */
  lemma PressClearsPeaksOnlyInOuterLoop(s: CtrlState, lux1: uint32, lux2: uint32, metric: int32)
    requires s.mode in {0, 1}
    ensures Step(s, OuterPoll(0)).mode == 1 - s.mode
    ensures Step(s, OuterPoll(0)).largestLux == 0 && Step(s, OuterPoll(0)).largestAcc == 0
    ensures Step(s, CoopTick(0, lux1, lux2, metric)).mode == 1 - s.mode
    ensures Step(s, CoopTick(0, lux1, lux2, metric)).largestAcc >= s.largestAcc
    ensures Step(s, CoopTick(0, lux1, lux2, metric)) == Step(s, CoopTick(1, lux1, lux2, metric)).(mode := 1 - s.mode)
  {
  }

  /**
   * Without an outer-loop press, `largestAcc` is the maximum of its starting value
   * and every metric the line reader saw: it never decreases and bounds them all.
   */
  lemma {:induction false} AccIsPeak(s: CtrlState, evs: seq<Event>)
    requires forall i :: 0 <= i < |evs| ==> !IsOuterPress(evs[i])
    ensures Run(s, evs).largestAcc >= s.largestAcc
    ensures forall i :: 0 <= i < |evs| && evs[i].CoopTick? ==> Run(s, evs).largestAcc >= evs[i].metric
    ensures Run(s, evs).largestAcc == s.largestAcc
         || exists i :: 0 <= i < |evs| && evs[i].CoopTick? && Run(s, evs).largestAcc == evs[i].metric
  {
    if evs != [] {
      var init := evs[..|evs| - 1];
      AccIsPeak(s, init);
      var r0 := Run(s, init).largestAcc;
      if r0 != s.largestAcc {
        var i :| 0 <= i < |init| && init[i].CoopTick? && r0 == init[i].metric;
        assert evs[i] == init[i];
      }
      assert forall i :: 0 <= i < |init| ==> evs[i] == init[i];
    }
  }

  /**
   * After the last outer-loop press, `largestAcc` is 0 or the largest metric the
   * line reader compared since, and bounds every metric it compared since.
   */
  lemma AccPeakSinceLastPress(s: CtrlState, evs: seq<Event>, p: nat)
    requires p < |evs| && IsOuterPress(evs[p])
    requires forall i :: p < i < |evs| ==> !IsOuterPress(evs[i])
    ensures Run(s, evs).largestAcc >= 0
    ensures forall i :: p < i < |evs| && evs[i].CoopTick? ==> Run(s, evs).largestAcc >= evs[i].metric
    ensures Run(s, evs).largestAcc == 0
         || exists i :: p < i < |evs| && evs[i].CoopTick? && Run(s, evs).largestAcc == evs[i].metric
  {
    var before, after := evs[..p + 1], evs[p + 1..];
    assert evs == before + after;
    RunAppend(s, before, after);
    assert before[..|before| - 1] == evs[..p];
    assert Run(s, before).largestAcc == 0;
    assert forall i :: 0 <= i < |after| ==> after[i] == evs[p + 1 + i];
    AccIsPeak(Run(s, before), after);
    if Run(s, evs).largestAcc != 0 {
      var j :| 0 <= j < |after| && after[j].CoopTick? && Run(s, evs).largestAcc == after[j].metric;
      assert evs[p + 1 + j] == after[j];
    }
  }

  /**
   * `largestLux` is compared against one reading but assigned another, so it is
   * only ever its starting value or a stored (second) reading, not a maximum.
   */
  lemma {:induction false} LuxIsAStoredReading(s: CtrlState, evs: seq<Event>)
    requires forall i :: 0 <= i < |evs| ==> !IsOuterPress(evs[i])
    ensures Run(s, evs).largestLux == s.largestLux
         || exists i :: 0 <= i < |evs| && evs[i].CoopTick? && Run(s, evs).largestLux == ToSigned(evs[i].lux2)
  {
    if evs != [] {
      var init := evs[..|evs| - 1];
      LuxIsAStoredReading(s, init);
      var r0 := Run(s, init).largestLux;
      if r0 != s.largestLux {
        var i :| 0 <= i < |init| && init[i].CoopTick? && r0 == ToSigned(init[i].lux2);
        assert evs[i] == init[i];
      }
    }
  }

  /** The stored luminance peak can fall: 500, then a tick reading 600 and storing 10. */
  lemma LuxCanDecrease()
    ensures Step(Init().(largestLux := 500), CoopTick(1, 600, 10, 0)).largestLux == 10
  {
  }

  /** `reset` becomes 0 exactly when a dark detect-mode reading has been taken, and is never set again. */
  lemma {:induction false} ResetClearedOnlyWhenDark(s: CtrlState, evs: seq<Event>)
    ensures Run(s, evs).reset == 0 || Run(s, evs).reset == s.reset
    ensures Run(s, evs).reset == 0 <==>
      (s.reset == 0 || exists i :: 0 <= i < |evs| && IsDarkDetect(evs[i]))
  {
    if evs != [] {
      var init := evs[..|evs| - 1];
      ResetClearedOnlyWhenDark(s, init);
      assert forall i :: 0 <= i < |init| ==> evs[i] == init[i];
      if exists i :: 0 <= i < |init| && IsDarkDetect(init[i]) {
        var i :| 0 <= i < |init| && IsDarkDetect(init[i]);
        assert IsDarkDetect(evs[i]);
      }
    }
  }

  /** The alarm is entered only by a detect-mode reading that is both dark and a shock. */
  lemma {:induction false} AlarmNeedsDarkShock(s: CtrlState, evs: seq<Event>)
    requires !s.alarmed && Run(s, evs).alarmed
    ensures exists i :: 0 <= i < |evs| && IsDarkShock(evs[i])
  {
    var init := evs[..|evs| - 1];
    if Run(s, init).alarmed {
      AlarmNeedsDarkShock(s, init);
      var i :| 0 <= i < |init| && IsDarkShock(init[i]);
      assert evs[i] == init[i];
    } else {
      assert IsDarkShock(evs[|evs| - 1]);
    }
  }

  /**
   * A dark detect-mode reading with a shock metric enters the alarm with CONTROL
   * set to 1 and clears `reset`, whatever the state before.
   */
  lemma DarkShockEntersAlarm(s: CtrlState, light: uint32, metric: int32)
    requires light < DARK && metric > SHOCK
    ensures Step(s, Detect(light, metric)).alarmed && Step(s, Detect(light, metric)).control == 1
    ensures Step(s, Detect(light, metric)).reset == 0
  {
  }

  /** Once latched, the alarm holds (and CONTROL stays 1) until the interrupt fires. */
  lemma {:induction false} LatchHoldsUntilInterrupt(s: CtrlState, evs: seq<Event>)
    requires s.alarmed && s.control == 1
    ensures (exists i :: 0 <= i < |evs| && evs[i].Interrupt?)
         || (Run(s, evs).alarmed && Run(s, evs).control == 1)
  {
    if evs != [] {
      var init := evs[..|evs| - 1];
      LatchHoldsUntilInterrupt(s, init);
      if exists i :: 0 <= i < |init| && init[i].Interrupt? {
        var i :| 0 <= i < |init| && init[i].Interrupt?;
        assert evs[i] == init[i];
      }
    }
  }

  /** The interrupt's `CONTROL = 0` ends the alarm at the alarm loop's next test. */
  lemma InterruptReleases(s: CtrlState)
    requires s.alarmed
    ensures !Step(Step(s, Interrupt), AlarmTest).alarmed
  {
  }
}
