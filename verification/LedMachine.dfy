/** The LED indication machine, twice: over the OUT register as the code drives it, and over the set
    of lit LEDs. Both share the control state, which does not depend on the LEDs. */
module LedMachine {
  import opened Common
  import opened Boards
  import opened Indications

  /** Board, tick rate and initialisation flags, fixed by initialisation. */
  datatype Config = Config(board: Board, ticks: uint32, flags: Word) {
    predicate LedsEnabled() { INIT_LED in flags }
  }

  const INIT_LED: Pin := 0
  const INIT_BUTTONS: Pin := 1

  datatype Control = Control(stable: Indication, alertMask: Word, ledTimer: bool, alertTimer: bool)

  /** The code's state: the OUT register. */
  datatype Device = Device(out: Word, ctl: Control)

  /** The abstract state: the set of lit LEDs. */
  datatype Picture = Picture(lit: Word, ctl: Control)

  /** The start request, in ticks, that one call makes to the timer library. */
  datatype Request = NoStart | StartLeds(ticks: uint32) | StartAlert(ticks: uint32)

  datatype Outcome = Outcome(err: uint32, request: Request)

  /** A fire of a timer that is not running does not happen: it leaves the state as it is. */
  datatype LedEvent = Indicate(indication: Indication, env: Env) | LedFire(env: Env) | AlertFire

  // ----- Control state and timer requests -----

  /** Whether an alert indication raises the alert: it is not AlertOff and the alert timer stopped. */
  predicate Raises(i: Indication, env: Env) {
    (i.Alert0? || i.Alert1? || i.Alert2? || i.Alert3?) && env.stop.Ok()
  }

  function NextControl(b: Board, i: Indication, env: Env, ctl: Control): Control {
    if i.Packet() then
      ctl.(ledTimer := AfterStart(ctl.ledTimer, env.start))
    else if i.IsAlert() then
      var stopped := AfterStop(ctl.alertTimer, env.stop);
      if Raises(i, env) then
        ctl.(alertMask := {b.Alert()},
             alertTimer := if i.Alert3? then stopped else AfterStart(stopped, env.start))
      else
        ctl.(alertMask := {}, alertTimer := stopped)
    else if i.Blinking() then
      ctl.(stable := i, ledTimer := AfterStart(ctl.ledTimer, env.start))
    else if i.Undefined? then
      ctl
    else
      ctl.(stable := i)
  }

  /** `led0` says whether LED 0 was lit before the call. */
  function IndicateOutcome(ticks: uint32, i: Indication, env: Env, led0: bool): Outcome {
    if i.Packet() then
      Outcome(env.start.code, StartLeds(MsToTicks(ticks, PacketInterval(i))))
    else if i.Blinking() then
      Outcome(env.start.code, StartLeds(MsToTicks(ticks, if led0 then OffInterval(i) else OnInterval(i))))
    else if Raises(i, env) && !i.Alert3? then
      Outcome(env.start.code, StartAlert(MsToTicks(ticks, i.AlertSteps() * ALERT_INTERVAL)))
    else if i.IsAlert() then
      Outcome(env.stop.code, NoStart)
    else
      Outcome(NRF_SUCCESS, NoStart)
  }

  // ----- Over the OUT register -----

  function BlinkOut(b: Board, alertMask: Word, out: Word): Word {
    var o := LedsOff(b, b.leds - {b.led0} - alertMask, out);
    if LedIsOn(b, {b.led0}, o) then LedsOff(b, {b.led0}, o) else LedsOn(b, {b.led0}, o)
  }

  function TakeoverOut(b: Board, i: Indication, out: Word): Word
    requires i.Takeover()
  {
    match i
    case UserStateOff =>
      LedsOff(b, b.leds, out)
    case UserState0 =>
      LedsOn(b, {b.led0}, LedsOff(b, b.leds - {b.led0}, out))
    case UserState1 =>
      LedsOn(b, {b.led1}, LedsOff(b, b.leds - {b.led1}, out))
    case UserState2 =>
      LedsOn(b, {b.led0, b.led1}, LedsOff(b, b.leds - {b.led0, b.led1}, out))
    case _ =>
      LedsOn(b, b.leds, out)
  }

  function NextOut(b: Board, i: Indication, env: Env, alertMask: Word, out: Word): Word {
    if i.Idle? then
      LedsOff(b, b.leds - alertMask, out)
    else if i.Blinking() then
      BlinkOut(b, alertMask, out)
    else if i.Connected? then
      LedsOn(b, {b.led0}, LedsOff(b, b.leds - {b.led0} - alertMask, out))
    else if i.Packet() then
      LedsInvert({b.led1}, out)
    else if i.IsAlert() then
      if Raises(i, env) then LedsOn(b, {b.Alert()}, out) else LedsOff(b, alertMask, out)
    else if i.Takeover() then
      TakeoverOut(b, i, out)
    else
      out
  }

  /** `bsp_led_indication`. */
  function IndicateDevice(c: Config, i: Indication, env: Env, d: Device): Device {
    Device(NextOut(c.board, i, env, d.ctl.alertMask, d.out), NextControl(c.board, i, env, d.ctl))
  }

  function DeviceIndicateOutcome(c: Config, i: Indication, env: Env, d: Device): Outcome {
    IndicateOutcome(c.ticks, i, env, LedIsOn(c.board, {c.board.led0}, d.out))
  }

  function DeviceStep(c: Config, d: Device, ev: LedEvent): Device {
    match ev
    case Indicate(i, env) =>
      if c.LedsEnabled() then IndicateDevice(c, i, env, d) else d
    case LedFire(env) =>
      if !d.ctl.ledTimer then d else
      var fired := d.(ctl := d.ctl.(ledTimer := false));
      if c.LedsEnabled() then IndicateDevice(c, d.ctl.stable, env, fired) else fired
    case AlertFire =>
      if d.ctl.alertTimer then d.(out := LedsInvert({c.board.Alert()}, d.out)) else d
  }

  /** The LED timer's handler drops the return code. */
  function DeviceOutcome(c: Config, d: Device, ev: LedEvent): Outcome {
    match ev
    case Indicate(i, env) =>
      if c.LedsEnabled() then DeviceIndicateOutcome(c, i, env, d) else Outcome(NRF_SUCCESS, NoStart)
    case LedFire(env) =>
      if d.ctl.ledTimer && c.LedsEnabled()
      then Outcome(NRF_SUCCESS, DeviceIndicateOutcome(c, d.ctl.stable, env, d).request)
      else Outcome(NRF_SUCCESS, NoStart)
    case AlertFire => Outcome(NRF_SUCCESS, NoStart)
  }

  function DeviceRun(c: Config, d: Device, evs: seq<LedEvent>): Device {
    if evs == [] then d else DeviceStep(c, DeviceRun(c, d, evs[..|evs| - 1]), evs[|evs| - 1])
  }

  // ----- Over the set of lit LEDs -----

  /** The LEDs lit after an indication. Only link states and packets depend on what was lit. */
  function NextLit(b: Board, i: Indication, env: Env, alertMask: Word, lit: Word): Word {
    if i.Idle? then lit * alertMask
    else if i.Blinking() then Xor(lit * (alertMask + {b.led0}), {b.led0})
    else if i.Connected? then lit * alertMask + {b.led0}
    else if i.Packet() then Xor(lit, {b.led1})
    else if Raises(i, env) then lit + {b.Alert()}
    else if i.IsAlert() then lit - alertMask
    else if i.Takeover() then TakeoverPicture(b, i)
    else lit
  }

  function TakeoverPicture(b: Board, i: Indication): Word
    requires i.Takeover()
  {
    match i
    case UserStateOff => {}
    case UserState0 => {b.led0}
    case UserState1 => {b.led1}
    case UserState2 => {b.led0, b.led1}
    case _ => b.leds
  }

  function IndicatePicture(c: Config, i: Indication, env: Env, p: Picture): Picture {
    Picture(NextLit(c.board, i, env, p.ctl.alertMask, p.lit), NextControl(c.board, i, env, p.ctl))
  }

  function Step(c: Config, p: Picture, ev: LedEvent): Picture {
    match ev
    case Indicate(i, env) =>
      if c.LedsEnabled() then IndicatePicture(c, i, env, p) else p
    case LedFire(env) =>
      if !p.ctl.ledTimer then p else
      var fired := p.(ctl := p.ctl.(ledTimer := false));
      if c.LedsEnabled() then IndicatePicture(c, p.ctl.stable, env, fired) else fired
    case AlertFire =>
      if p.ctl.alertTimer then p.(lit := Xor(p.lit, {c.board.Alert()})) else p
  }

  function StepOutcome(c: Config, p: Picture, ev: LedEvent): Outcome {
    var led0 := c.board.led0 in p.lit;
    match ev
    case Indicate(i, env) =>
      if c.LedsEnabled() then IndicateOutcome(c.ticks, i, env, led0) else Outcome(NRF_SUCCESS, NoStart)
    case LedFire(env) =>
      if p.ctl.ledTimer && c.LedsEnabled()
      then Outcome(NRF_SUCCESS, IndicateOutcome(c.ticks, p.ctl.stable, env, led0).request)
      else Outcome(NRF_SUCCESS, NoStart)
    case AlertFire => Outcome(NRF_SUCCESS, NoStart)
  }

  function Run(c: Config, p: Picture, evs: seq<LedEvent>): Picture {
    if evs == [] then p else Step(c, Run(c, p, evs[..|evs| - 1]), evs[|evs| - 1])
  }

  // ----- Initial states -----

  const INITIAL_CONTROL: Control := Control(Idle, {}, false, false)

  /** After the first initialisation every LED is dark, if LEDs are enabled; the other pins are as they were. */
  function InitialDevice(c: Config, out: Word): Device {
    Device(if c.LedsEnabled() then LedsOff(c.board, c.board.leds, out) else out, INITIAL_CONTROL)
  }

  const INITIAL_PICTURE: Picture := Picture({}, INITIAL_CONTROL)

  // ----- Refinement -----

  function Abstract(b: Board, d: Device): Picture { Picture(Lit(b, d.out), d.ctl) }

  lemma IndicateRefines(b: Board, i: Indication, env: Env, alertMask: Word, out: Word)
    requires b.Valid()
    ensures Lit(b, NextOut(b, i, env, alertMask, out)) == NextLit(b, i, env, alertMask, Lit(b, out))
    ensures NextOut(b, i, env, alertMask, out) - b.leds == out - b.leds
  {
    if i.Blinking() {
      BlinkRefines(b, alertMask, out);
    }
  }

  lemma BlinkRefines(b: Board, alertMask: Word, out: Word)
    requires b.Valid()
    ensures Lit(b, BlinkOut(b, alertMask, out)) == Xor(Lit(b, out) * (alertMask + {b.led0}), {b.led0})
    ensures BlinkOut(b, alertMask, out) - b.leds == out - b.leds
  {
    var dark := LedsOff(b, b.leds - {b.led0} - alertMask, out);
    IsOnReadsLit(b, b.led0, dark);
    OffRefines(b, b.leds - {b.led0} - alertMask, out);
    OffRefines(b, {b.led0}, dark);
    OnRefines(b, {b.led0}, dark);
  }

  /** Darkening the other LEDs does not change what LED 0 shows. */
  lemma BlinkReadsLed0(b: Board, alertMask: Word, out: Word)
    requires b.Valid()
    ensures LedIsOn(b, {b.led0}, LedsOff(b, b.leds - {b.led0} - alertMask, out)) <==> LedIsOn(b, {b.led0}, out)
  {
  }

  // ----- What the return code means -----

  /** Success means that the state is remembered and shown, that the alert is raised, or its mask cleared, and
      that the timer the pattern needs is running. Only a successful AlertOff may not show what it says: it
      darkens the alert LED exactly if the mask was set or the LED was dark. A failure means that the timer call
      made failed; if it was the stop, even a call to raise an alert clears it. */
  lemma SuccessMeansIndicated(c: Config, p: Picture, i: Indication, env: Env)
    requires c.board.Valid() && c.LedsEnabled()
    requires p.ctl.alertMask == {} || p.ctl.alertMask == {c.board.Alert()}
    ensures
      var q, outcome := Step(c, p, Indicate(i, env)), StepOutcome(c, p, Indicate(i, env));
      && (outcome.err == NRF_SUCCESS ==>
            && ControlIndicates(c.board, i, q.ctl)
            && PictureIndicates(c.board, i, p, q.lit)
            && (i.AlertOff? ==> (c.board.Alert() !in q.lit <==>
                                   p.ctl.alertMask != {} || c.board.Alert() !in p.lit)))
      && (outcome.err != NRF_SUCCESS ==>
            if outcome.request.NoStart?
            then i.IsAlert() && !env.stop.Ok() && q.ctl.alertMask == {} && q.lit == p.lit - p.ctl.alertMask
            else !env.start.Ok())
  {
  }

  /** The control state in which `i` is indicated. */
  predicate ControlIndicates(b: Board, i: Indication, ctl: Control) {
    && (i.Stable() ==> ctl.stable == i)
    && (i.Blinking() || i.Packet() ==> ctl.ledTimer)
    && (i.IsAlert() ==>
          && ctl.alertMask == (if i.AlertOff? then {} else {b.Alert()})
          && ctl.alertTimer == (i.AlertSteps() > 1))
  }

  /** The LEDs that show `i` after `p`: link states spare the active alert, takeovers nothing, and packets and
      alerts touch their own LED only. */
  predicate PictureIndicates(b: Board, i: Indication, p: Picture, lit: Word) {
    && (i.Link() ==>
          && lit <= {b.led0} + p.ctl.alertMask && lit * p.ctl.alertMask == p.lit * p.ctl.alertMask
          && (b.led0 in lit <==> i.Connected? || (i.Blinking() && b.led0 !in p.lit)))
    && (i.Takeover() ==> lit == TakeoverPicture(b, i))
    && (i.Packet() ==> lit - {b.led1} == p.lit - {b.led1} && (b.led1 in lit <==> b.led1 !in p.lit))
    && (i.IsAlert() ==> lit - {b.Alert()} == p.lit - {b.Alert()})
    && (i.IsAlert() && !i.AlertOff? ==> b.Alert() in lit)
    && (i.Undefined? ==> lit == p.lit)
  }

  /** A failed start is reported, but the LEDs show the same as after a successful one. */
  lemma FailedStartStillShows(c: Config, p: Picture, i: Indication, env: Env, start: Answer)
    ensures Step(c, p, Indicate(i, env.(start := start))).lit == Step(c, p, Indicate(i, env)).lit
  {
  }
}
