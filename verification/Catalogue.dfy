/** Every indication by its values: the LEDs it leaves lit, the state it remembers, the delay it asks for and the code
    it returns, whatever was shown before and whatever the timer library answers. */
module Catalogue {
  import opened Common
  import opened Boards
  import opened Indications
  import opened LedMachine

  /** The LEDs. Only the link states, packets and alerts depend on what was lit. */
  lemma LedsShown(c: Config, p: Picture, i: Indication, env: Env)
    requires c.board.Valid() && 0 in c.flags
    ensures
      var b, mask, lit := c.board, p.ctl.alertMask, Step(c, p, Indicate(i, env)).lit;
      var alert := if b.led2.Some? then b.led2.value else b.led1;
      match i
      case Idle => lit == p.lit * mask
      case Scanning | Advertising | AdvertisingWhitelist | AdvertisingSlow | AdvertisingDirected | Bonding =>
        lit == if b.led0 in p.lit then p.lit * mask - {b.led0} else p.lit * mask + {b.led0}
      case Connected => lit == p.lit * mask + {b.led0}
      case SentOk | SendError | RcvOk | RcvError =>
        lit == if b.led1 in p.lit then p.lit - {b.led1} else p.lit + {b.led1}
      case Alert0 | Alert1 | Alert2 | Alert3 => lit == if env.stop.code == 0 then p.lit + {alert} else p.lit - mask
      case AlertOff => lit == p.lit - mask
      case UserStateOff => lit == {}
      case UserState0 => lit == {b.led0}
      case UserState1 => lit == {b.led1}
      case UserState2 => lit == {b.led0, b.led1}
      case FatalError | UserState3 | UserStateOn => lit == b.leds
      case Undefined => lit == p.lit
  {
  }

  /** The control state, failures included: a state is remembered even if its timer could not be started. */
  lemma ControlKept(c: Config, p: Picture, i: Indication, env: Env)
    requires 0 in c.flags
    ensures
      var ctl := Step(c, p, Indicate(i, env)).ctl;
      var alert := if c.board.led2.Some? then c.board.led2.value else c.board.led1;
      match i
      case Idle | Connected | FatalError
         | UserStateOff | UserState0 | UserState1 | UserState2 | UserState3 | UserStateOn =>
        ctl == p.ctl.(stable := i)
      case Scanning | Advertising | AdvertisingWhitelist | AdvertisingSlow | AdvertisingDirected | Bonding =>
        ctl == p.ctl.(stable := i, ledTimer := p.ctl.ledTimer || env.start.code == 0)
      case SentOk | SendError | RcvOk | RcvError =>
        ctl == p.ctl.(ledTimer := p.ctl.ledTimer || env.start.code == 0)
      case Alert0 | Alert1 | Alert2 =>
        ctl == if env.stop.code == 0 then p.ctl.(alertMask := {alert}, alertTimer := env.start.code == 0)
               else p.ctl.(alertMask := {}, alertTimer := p.ctl.alertTimer && env.stop.keeps)
      case Alert3 =>
        ctl == if env.stop.code == 0 then p.ctl.(alertMask := {alert}, alertTimer := false)
               else p.ctl.(alertMask := {}, alertTimer := p.ctl.alertTimer && env.stop.keeps)
      case AlertOff =>
        ctl == p.ctl.(alertMask := {}, alertTimer := p.ctl.alertTimer && env.stop.code != 0 && env.stop.keeps)
      case Undefined => ctl == p.ctl
  {
  }

  /** The delay asked for, in milliseconds. The states that blink ask for their dark time if LED 0 was lit, and for
      their lit time if it was dark. */
  lemma DelayRequested(c: Config, p: Picture, i: Indication, env: Env)
    requires 0 in c.flags
    ensures
      var request, lit, t := StepOutcome(c, p, Indicate(i, env)).request, c.board.led0 in p.lit, c.ticks;
      match i
      case Scanning | AdvertisingSlow => request == StartLeds(MsToTicks(t, if lit then 4000 else 400))
      case Advertising => request == StartLeds(MsToTicks(t, if lit then 1800 else 200))
      case AdvertisingWhitelist => request == StartLeds(MsToTicks(t, if lit then 800 else 200))
      case AdvertisingDirected => request == StartLeds(MsToTicks(t, 200))
      case Bonding | SentOk | RcvOk => request == StartLeds(MsToTicks(t, 100))
      case SendError | RcvError => request == StartLeds(MsToTicks(t, 500))
      case Alert0 => request == if env.stop.code == 0 then StartAlert(MsToTicks(t, 800)) else NoStart
      case Alert1 => request == if env.stop.code == 0 then StartAlert(MsToTicks(t, 600)) else NoStart
      case Alert2 => request == if env.stop.code == 0 then StartAlert(MsToTicks(t, 400)) else NoStart
      case _ => request == NoStart
  {
  }

  /** The code: that of the last call made to the timer library, and 0 if there was none. */
  lemma CodeReturned(c: Config, p: Picture, i: Indication, env: Env)
    ensures
      var err := StepOutcome(c, p, Indicate(i, env)).err;
      match i
      case Scanning | Advertising | AdvertisingWhitelist | AdvertisingSlow | AdvertisingDirected | Bonding
         | SentOk | SendError | RcvOk | RcvError =>
        err == if 0 in c.flags then env.start.code else 0
      case Alert0 | Alert1 | Alert2 =>
        err == if 0 !in c.flags then 0 else if env.stop.code == 0 then env.start.code else env.stop.code
      case Alert3 | AlertOff => err == if 0 in c.flags then env.stop.code else 0
      case _ => err == 0
  {
  }

  /** A fire of the LED timer is a call for the remembered state with the timer stopped, except that its code is lost;
      a tick inverts the alert LED and nothing else. Neither happens if the timer is not running. */
  lemma FiresAreCalls(c: Config, p: Picture, env: Env)
    requires 0 in c.flags
    ensures
      var alert := if c.board.led2.Some? then c.board.led2.value else c.board.led1;
      var call, fired := Indicate(p.ctl.stable, env), p.(ctl := p.ctl.(ledTimer := false));
      && Step(c, p, LedFire(env)) == (if p.ctl.ledTimer then Step(c, fired, call) else p)
      && StepOutcome(c, p, LedFire(env))
         == Outcome(0, if p.ctl.ledTimer then StepOutcome(c, p, call).request else NoStart)
      && (var ticked := if alert in p.lit then p.lit - {alert} else p.lit + {alert};
          Step(c, p, AlertFire) == if p.ctl.alertTimer then p.(lit := ticked) else p)
      && StepOutcome(c, p, AlertFire) == Outcome(0, NoStart)
  {
  }
}
