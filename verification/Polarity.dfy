/** The register machine refines the picture machine on every run, so what is shown does not depend
    on how the LEDs are wired, and no pin outside the LED mask is ever driven. */
module Polarity {
  import opened Common
  import opened Boards
  import opened LedMachine

  lemma StepRefines(c: Config, d: Device, ev: LedEvent)
    requires c.board.Valid()
    ensures Abstract(c.board, DeviceStep(c, d, ev)) == Step(c, Abstract(c.board, d), ev)
    ensures DeviceOutcome(c, d, ev) == StepOutcome(c, Abstract(c.board, d), ev)
    ensures DeviceStep(c, d, ev).out - c.board.leds == d.out - c.board.leds
  {
    IsOnReadsLit(c.board, c.board.led0, d.out);
    match ev
    case Indicate(i, env) => IndicateRefines(c.board, i, env, d.ctl.alertMask, d.out);
    case LedFire(env) => IndicateRefines(c.board, d.ctl.stable, env, d.ctl.alertMask, d.out);
    case AlertFire => InvertRefines(c.board, {c.board.Alert()}, d.out);
  }

  lemma {:induction false} RunRefines(c: Config, d: Device, evs: seq<LedEvent>)
    requires c.board.Valid()
    ensures Abstract(c.board, DeviceRun(c, d, evs)) == Run(c, Abstract(c.board, d), evs)
    ensures DeviceRun(c, d, evs).out - c.board.leds == d.out - c.board.leds
  {
    if evs != [] {
      var before := evs[..|evs| - 1];
      RunRefines(c, d, before);
      StepRefines(c, DeviceRun(c, d, before), evs[|evs| - 1]);
    }
  }

  lemma InitRefines(c: Config, out: Word)
    ensures c.LedsEnabled() ==> Abstract(c.board, InitialDevice(c, out)) == INITIAL_PICTURE
    ensures InitialDevice(c, out).out - c.board.leds == out - c.board.leds
  {
  }

  /** Initialised without LEDs, the machine never drives a pin, starts a timer or fails. */
  lemma {:induction false} DisabledIsSilent(c: Config, out: Word, evs: seq<LedEvent>, next: LedEvent)
    requires !c.LedsEnabled()
    ensures DeviceRun(c, InitialDevice(c, out), evs) == Device(out, INITIAL_CONTROL)
    ensures DeviceOutcome(c, DeviceRun(c, InitialDevice(c, out), evs), next) == Outcome(NRF_SUCCESS, NoStart)
  {
    if evs != [] {
      DisabledIsSilent(c, out, evs[..|evs| - 1], next);
    }
  }

  /** Two boards that differ in polarity only, powered up with any pin levels and driven by the same
      events, always show the same LEDs, once LEDs are enabled, keep the same control state and make the same
      requests to the timer library with the same return codes. */
  lemma PolarityIndependence(c: Config, inv: Word, out: Word, out': Word, evs: seq<LedEvent>, next: LedEvent)
    requires c.board.Valid()
    ensures
      var c' := c.(board := Rewired(c.board, inv));
      var d, d' := DeviceRun(c, InitialDevice(c, out), evs), DeviceRun(c', InitialDevice(c', out'), evs);
      && (c.LedsEnabled() ==> Lit(c.board, d.out) == Lit(c'.board, d'.out))
      && d.ctl == d'.ctl
      && DeviceOutcome(c, d, next) == DeviceOutcome(c', d', next)
  {
    var c' := c.(board := Rewired(c.board, inv));
    if c.LedsEnabled() {
      RewiringIsInvisible(c, inv, evs, next);
      InitRefines(c, out);
      InitRefines(c', out');
      RunRefines(c, InitialDevice(c, out), evs);
      RunRefines(c', InitialDevice(c', out'), evs);
      StepRefines(c, DeviceRun(c, InitialDevice(c, out), evs), next);
      StepRefines(c', DeviceRun(c', InitialDevice(c', out'), evs), next);
    } else {
      DisabledIsSilent(c, out, evs, next);
      DisabledIsSilent(c', out', evs, next);
    }
  }

  lemma {:induction false} RewiringIsInvisible(c: Config, inv: Word, evs: seq<LedEvent>, next: LedEvent)
    ensures
      var c' := c.(board := Rewired(c.board, inv));
      && Run(c', INITIAL_PICTURE, evs) == Run(c, INITIAL_PICTURE, evs)
      && Step(c', Run(c, INITIAL_PICTURE, evs), next) == Step(c, Run(c, INITIAL_PICTURE, evs), next)
      && StepOutcome(c', Run(c, INITIAL_PICTURE, evs), next) == StepOutcome(c, Run(c, INITIAL_PICTURE, evs), next)
  {
    if evs != [] {
      RewiringIsInvisible(c, inv, evs[..|evs| - 1], evs[|evs| - 1]);
    }
  }

  /** Each LED pin of a run follows its LED and the board's polarity, if LEDs are enabled; every other pin stays as
      it was before initialisation. */
  lemma PinLevels(c: Config, out: Word, evs: seq<LedEvent>, p: Pin)
    requires c.board.Valid()
    ensures
      p in DeviceRun(c, InitialDevice(c, out), evs).out
      <==> if c.LedsEnabled() && p in c.board.leds
           then (p in Run(c, INITIAL_PICTURE, evs).lit) != (p in c.board.inv)
           else p in out
  {
    if c.LedsEnabled() {
      InitRefines(c, out);
      RunRefines(c, InitialDevice(c, out), evs);
      var d := DeviceRun(c, InitialDevice(c, out), evs);
      assert p in d.out - c.board.leds <==> p in out - c.board.leds;
      assert p in Lit(c.board, d.out) <==> p in Run(c, INITIAL_PICTURE, evs).lit;
    } else {
      DisabledIsSilent(c, out, evs, AlertFire);
    }
  }
}
