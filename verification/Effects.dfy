/** Every LED after every run, with takeovers and on boards where packets and alerts share LED 1: the last event
    that puts an LED on or off decides, and each event that flips it since changes it. */
module Effects {
  import opened Common
  import opened Boards
  import opened Indications
  import opened LedMachine
  import opened Alerts
  import opened Blink
  import opened History

  // ----- The control state, from the calls and fires -----

  /** The stable state called for last. */
  function StateShown(evs: seq<LedEvent>): (i: Indication)
    ensures i.Stable()
  {
    match LastOf(evs, StableCall)
    case Some(Indicate(i, _)) => i
    case _ => Idle
  }

  /** Whether the last alert call raised the alert. */
  predicate AlertUp(evs: seq<LedEvent>) { RaisingCall(LastOf(evs, AlertCall)) }

  predicate AlertTicking(evs: seq<LedEvent>) { TickingCall(LastOf(evs, AlertCall)) }

  /** A fire is due after a call that starts the LED timer, until a fire that finds a state that does not blink. */
  predicate FireDue(evs: seq<LedEvent>) {
    if evs == [] then false
    else
      var before, ev := evs[..|evs| - 1], evs[|evs| - 1];
      if ev.LedFire? then StateShown(before).Blinking()
      else FireDue(before) || (ev.Indicate? && (ev.indication.Blinking() || ev.indication.Packet()))
  }

  function ControlAfter(b: Board, evs: seq<LedEvent>): Control {
    Control(StateShown(evs), if AlertUp(evs) then {b.Alert()} else {}, FireDue(evs), AlertTicking(evs))
  }

  lemma {:induction false} ControlIsHistory(c: Config, evs: seq<LedEvent>)
    requires c.LedsEnabled() && StartsSucceed(evs) && StopsTakeEffect(evs)
    ensures Run(c, INITIAL_PICTURE, evs).ctl == ControlAfter(c.board, evs)
    ensures StateShown(evs).Blinking() ==> FireDue(evs)
  {
    if evs != [] {
      var before, ev := evs[..|evs| - 1], evs[|evs| - 1];
      assert ev in evs && forall e | e in before :: e in evs;
      ControlIsHistory(c, before);
      var p := Run(c, INITIAL_PICTURE, before);
      AlertFollows(c, p, ev, LastOf(before, AlertCall), LastOf(evs, AlertCall));
      TimerFollows(c, p, ev, StateShown(before), FireDue(before), StateShown(evs), FireDue(evs));
    }
  }

  lemma AlertFollows(c: Config, p: Picture, ev: LedEvent, call: Option<LedEvent>, call': Option<LedEvent>)
    requires c.LedsEnabled() && StopsTakeEffect([ev]) && p.ctl.stable.Stable()
    requires p.ctl.alertMask == (if RaisingCall(call) then {c.board.Alert()} else {})
    requires p.ctl.alertTimer == TickingCall(call)
    requires call' == if Is(ev, AlertCall) then Some(ev) else call
    ensures
      var ctl := Step(c, p, ev).ctl;
      && ctl.alertMask == (if RaisingCall(call') then {c.board.Alert()} else {})
      && ctl.alertTimer == TickingCall(call')
  {
    assert ev in [ev];
  }

  lemma TimerFollows(c: Config, p: Picture, ev: LedEvent, i: Indication, due: bool, i': Indication, due': bool)
    requires c.LedsEnabled() && StartsSucceed([ev]) && i.Stable()
    requires p.ctl.stable == i && p.ctl.ledTimer == due && (i.Blinking() ==> due)
    requires i' == if Is(ev, StableCall) then ev.indication else i
    requires due' == if ev.LedFire? then i.Blinking()
                     else due || (ev.Indicate? && (ev.indication.Blinking() || ev.indication.Packet()))
    ensures
      var ctl := Step(c, p, ev).ctl;
      ctl.stable == i' && ctl.ledTimer == due' && (i'.Blinking() ==> due')
  {
    assert ev in [ev];
  }

  // ----- The effect of one event on one LED -----

  datatype Effect = Keep | Flip | Put(on: bool) {
    predicate Applied(lit: bool) {
      match this
      case Keep => lit
      case Flip => !lit
      case Put(on) => on
    }
  }

  /** Showing a stable state: a takeover puts every LED; a link state flips LED 0 to blink, spares an alert that is
      up, and puts the rest. */
  function ShowEffect(b: Board, i: Indication, alertUp: bool, p: Pin): Effect
    requires i.Stable()
  {
    if i.Takeover() then Put(p in TakeoverPicture(b, i))
    else if alertUp && p == b.Alert() then Keep
    else if p == b.led0 && i.Blinking() then Flip
    else Put(p == b.led0 && i.Connected?)
  }

  function AlertEffect(b: Board, i: Indication, env: Env, alertUp: bool, p: Pin): Effect {
    if p != b.Alert() then Keep
    else if Raises(i, env) then Put(true)
    else if alertUp then Put(false)
    else Keep
  }

  /** The effect of `ev`, coming after `before`, on LED `p`. */
  function EffectOf(b: Board, before: seq<LedEvent>, ev: LedEvent, p: Pin): Effect {
    match ev
    case Indicate(i, env) =>
      if i.Stable() then ShowEffect(b, i, AlertUp(before), p)
      else if i.IsAlert() then AlertEffect(b, i, env, AlertUp(before), p)
      else if i.Packet() && p == b.led1 then Flip
      else Keep
    case LedFire(_) => if FireDue(before) then ShowEffect(b, StateShown(before), AlertUp(before), p) else Keep
    case AlertFire => if AlertTicking(before) && p == b.Alert() then Flip else Keep
  }

  // ----- The LEDs after a run -----

  /** What LED `p` was last put to; dark after initialisation. */
  predicate LastPut(b: Board, evs: seq<LedEvent>, p: Pin) {
    if evs == [] then false
    else
      var before := evs[..|evs| - 1];
      match EffectOf(b, before, evs[|evs| - 1], p)
      case Put(on) => on
      case _ => LastPut(b, before, p)
  }

  /** How often it was flipped since. */
  function FlipsSince(b: Board, evs: seq<LedEvent>, p: Pin): nat {
    if evs == [] then 0
    else
      var before := evs[..|evs| - 1];
      match EffectOf(b, before, evs[|evs| - 1], p)
      case Put(_) => 0
      case Flip => FlipsSince(b, before, p) + 1
      case Keep => FlipsSince(b, before, p)
  }

  predicate LitAfter(b: Board, evs: seq<LedEvent>, p: Pin) {
    LastPut(b, evs, p) != (FlipsSince(b, evs, p) % 2 == 1)
  }

  /** On every board and every run whose LED timer starts succeed and whose alert timer stops take effect, a pin is
      lit exactly if the last event that put it put it on and it was flipped an even number of times since, or off
      and odd. */
  lemma {:induction false} LastPutDecides(c: Config, evs: seq<LedEvent>, p: Pin)
    requires c.board.Valid() && c.LedsEnabled() && StartsSucceed(evs) && StopsTakeEffect(evs)
    ensures p in Run(c, INITIAL_PICTURE, evs).lit <==> LitAfter(c.board, evs, p)
  {
    if evs != [] {
      var before, ev := evs[..|evs| - 1], evs[|evs| - 1];
      assert ev in evs && forall e | e in before :: e in evs;
      LastPutDecides(c, before, p);
      ControlIsHistory(c, before);
      StepHasEffect(c, before, Run(c, INITIAL_PICTURE, before), ev, p);
      EffectAdds(c.board, evs, p);
    }
  }

  lemma EffectAdds(b: Board, evs: seq<LedEvent>, p: Pin)
    requires evs != []
    ensures
      var before := evs[..|evs| - 1];
      LitAfter(b, evs, p) == EffectOf(b, before, evs[|evs| - 1], p).Applied(LitAfter(b, before, p))
  {
  }

  lemma StepHasEffect(c: Config, before: seq<LedEvent>, q: Picture, ev: LedEvent, p: Pin)
    requires c.board.Valid() && c.LedsEnabled() && q.ctl == ControlAfter(c.board, before)
    ensures p in Step(c, q, ev).lit <==> EffectOf(c.board, before, ev, p).Applied(p in q.lit)
  {
  }

  // ----- Packets and an alert on the same LED -----

  /** On a board without LED 2, while an alert is up and no takeover is shown, LED 1 is lit exactly if the packets and
      the ticks of that alert since it was raised add up to an even number. */
  lemma SharedLed(c: Config, evs: seq<LedEvent>)
    requires c.board.Valid() && c.LedsEnabled() && StartsSucceed(evs) && StopsTakeEffect(evs)
    requires c.board.led2.None? && NoTakeover(evs) && AlertUp(evs)
    ensures
      var packets, ticks := Count(Since(evs, AlertCall), Packet), Count(Since(evs, AlertCall), Tick);
      c.board.led1 in Run(c, INITIAL_PICTURE, evs).lit
      <==> (packets + if AlertTicking(evs) then ticks else 0) % 2 == 0
  {
    LastPutDecides(c, evs, c.board.led1);
    SharedFlips(c.board, evs);
  }

  lemma {:induction false} SharedFlips(b: Board, evs: seq<LedEvent>)
    requires b.Valid() && b.led2.None? && NoTakeover(evs) && AlertUp(evs)
    ensures LastPut(b, evs, b.led1)
    ensures
      var packets, ticks := Count(Since(evs, AlertCall), Packet), Count(Since(evs, AlertCall), Tick);
      FlipsSince(b, evs, b.led1) == packets + if AlertTicking(evs) then ticks else 0
  {
    var before, ev := evs[..|evs| - 1], evs[|evs| - 1];
    assert ev in evs && forall e | e in before :: e in evs;
    LastStep(evs, AlertCall, Packet);
    LastStep(evs, AlertCall, Tick);
    NoTakeoverShown(before);
    if !Is(ev, AlertCall) {
      SharedFlips(b, before);
    }
    SharedEffect(b, before, ev);
  }

  lemma SharedEffect(b: Board, before: seq<LedEvent>, ev: LedEvent)
    requires b.Valid() && b.led2.None? && NoTakeover([ev]) && StateShown(before).Link()
    requires if Is(ev, AlertCall) then RaisingCall(Some(ev)) else AlertUp(before)
    ensures EffectOf(b, before, ev, b.led1)
            == if Is(ev, AlertCall) then Put(true)
               else if Is(ev, Packet) || (Is(ev, Tick) && AlertTicking(before)) then Flip
               else Keep
  {
    assert ev in [ev];
  }

  lemma {:induction false} NoTakeoverShown(evs: seq<LedEvent>)
    requires NoTakeover(evs)
    ensures StateShown(evs).Link()
  {
    if evs != [] {
      var before, ev := evs[..|evs| - 1], evs[|evs| - 1];
      assert ev in evs && forall e | e in before :: e in evs;
      NoTakeoverShown(before);
    }
  }
}
