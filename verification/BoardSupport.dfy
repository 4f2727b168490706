/** The board support package itself: its static variables, the GPIO registers it drives and the handlers it
    installs. Each method is tied to the machines whose runs the other modules reason about. */
module BoardSupport {
  import opened Common
  import opened Indications
  import opened LedMachine
  import opened Buttons
  import opened Startup
  import B = Boards

  type Pin = B.Pin
  type Word = B.Word

  const SENSE_MASK: Word := {16, 17}
  const SENSE_LOW: Word := {16, 17}
  const SENSE_DISABLED: Word := {}

  /** The GPIO registers. Writing OUTSET or OUTCLR sets or clears the written bits of OUT. */
  class Gpio {
    var out: Word
    var dir: Word
    var input: Word
    const pinCnf: array<Word>

    constructor (out: Word, dir: Word, input: Word)
      ensures this.out == out && this.dir == dir && this.input == input
      ensures pinCnf.Length == 32 && fresh(pinCnf)
    {
      this.out, this.dir, this.input := out, dir, input;
      pinCnf := new Word[32](_ => {});
    }

    method LedsOff(b: B.Board, mask: Word)
      modifies this`out
      ensures out == B.LedsOff(b, mask, old(out))
    {
      out := out + mask * (b.leds * b.inv);
      out := out - mask * (b.leds - b.inv);
    }

    method LedsOn(b: B.Board, mask: Word)
      modifies this`out
      ensures out == B.LedsOn(b, mask, old(out))
    {
      out := out - mask * (b.leds * b.inv);
      out := out + mask * (b.leds - b.inv);
    }

    method LedsInvert(mask: Word)
      modifies this`out
      ensures out == B.LedsInvert(mask, old(out))
    {
      var gpioState := out;
      out := out + (mask - gpioState);
      out := out - mask * gpioState;
    }
  }

  class Bsp {
    const board: B.Board
    const pins: seq<Pin>
    const gpio: Gpio

    var stable: Indication
    var ticks: uint32
    var flags: Word
    var alertMask: Word
    var callback: bool

    const events: array<ButtonCfg>
    const releaseEventAtPush: array<Event>
    var longPushPin: Pin

    // Whether the timers of the timer library are running.
    var ledsTimer: bool
    var alertTimer: bool
    var buttonTimer: bool

    ghost predicate Valid()
      reads this, events
    {
      LedsValid() && ButtonsValid()
    }

    /** The remembered state is one the LED timer may replay, and the alert mask is empty or the alert LED. */
    ghost predicate LedsValid()
      reads `stable, `alertMask
    {
      board.Valid() && stable.Stable() && (alertMask == {} || alertMask == {board.Alert()})
    }

    ghost predicate ButtonsValid()
      reads events
    {
      && Distinct(pins) && |pins| <= 8
      && events.Length == releaseEventAtPush.Length == |pins| && gpio.pinCnf.Length == 32
      && NoDefault(events[..])
    }

    ghost function Settings(): LedMachine.Config reads `ticks, `flags { LedMachine.Config(board, ticks, flags) }

    ghost function LedControl(): Control
      reads `stable, `alertMask, `ledsTimer, `alertTimer
    {
      Control(stable, alertMask, ledsTimer, alertTimer)
    }

    ghost function LedState(): Device
      reads `stable, `alertMask, `ledsTimer, `alertTimer, gpio`out
    {
      Device(gpio.out, LedControl())
    }

    ghost function ButtonState(): ButtonState
      reads `longPushPin, `buttonTimer, events, releaseEventAtPush
    {
      Buttons.ButtonState.ButtonState(events[..], releaseEventAtPush[..], longPushPin, buttonTimer)
    }

    /** Power-up: the initial values of the static variables. */
    constructor (board: B.Board, pins: seq<Pin>, gpio: Gpio)
      requires board.Valid() && Distinct(pins) && |pins| <= 8 && gpio.pinCnf.Length == 32
      ensures Valid() && fresh(events) && fresh(releaseEventAtPush)
      ensures this.board == board && this.pins == pins && this.gpio == gpio
      ensures flags == {} && ticks == 0 && !callback
      ensures LedState() == Device(gpio.out, INITIAL_CONTROL)
      ensures ButtonState() == PowerUp(pins)
    {
      this.board, this.pins, this.gpio := board, pins, gpio;
      stable, ticks, flags, alertMask, callback := Idle, 0, {}, {}, false;
      events := new ButtonCfg[|pins|](_ => ButtonCfg(Nothing, Nothing, Nothing));
      releaseEventAtPush := new Event[|pins|](_ => Nothing);
      longPushPin := 0;
      ledsTimer, alertTimer, buttonTimer := false, false, false;
      new;
      assert events[..] == PowerUp(pins).table;
      assert releaseEventAtPush[..] == PowerUp(pins).guard;
    }

    // ----- LEDs -----

    method StartLedsTimer(ms: nat, answer: Answer) returns (err: uint32, request: Request)
      modifies `ledsTimer
      ensures err == answer.code && request == StartLeds(MsToTicks(ticks, ms))
      ensures ledsTimer == AfterStart(old(ledsTimer), answer)
    {
      err, request := answer.code, StartLeds(MsToTicks(ticks, ms));
      ledsTimer := ledsTimer || answer.Ok();
    }

    method StartAlertTimer(ms: nat, answer: Answer) returns (err: uint32, request: Request)
      modifies `alertTimer
      ensures err == answer.code && request == StartAlert(MsToTicks(ticks, ms))
      ensures alertTimer == AfterStart(old(alertTimer), answer)
    {
      err, request := answer.code, StartAlert(MsToTicks(ticks, ms));
      alertTimer := alertTimer || answer.Ok();
    }

    /** `bsp_led_indication`. `request` is the start call made to the timer library, if any. The cases of the
        switch are grouped into the methods below. */
    method LedIndication(indicate: Indication, env: Env) returns (err: uint32, request: Request)
      requires LedsValid()
      modifies `stable, `alertMask, `ledsTimer, `alertTimer, gpio`out
      ensures LedsValid()
      ensures gpio.out == NextOut(board, indicate, env, old(alertMask), old(gpio.out))
      ensures LedControl() == NextControl(board, indicate, env, old(LedControl()))
      ensures Outcome(err, request)
              == IndicateOutcome(ticks, indicate, env, B.LedIsOn(board, {board.led0}, old(gpio.out)))
    {
      if indicate.Link() {
        err, request := LinkIndication(indicate, env);
      } else if indicate.Packet() {
        err, request := PacketIndication(indicate, env);
      } else if indicate.IsAlert() {
        err, request := AlertIndication(indicate, env);
      } else {
        err, request := NRF_SUCCESS, NoStart;
        if indicate.Takeover() {
          TakeOver(indicate);
        }
      }
    }

    /** The cases from Idle to Connected of `bsp_led_indication`. */
    method LinkIndication(indicate: Indication, env: Env) returns (err: uint32, request: Request)
      requires board.Valid() && indicate.Link()
      modifies `stable, `ledsTimer, gpio`out
      ensures gpio.out == NextOut(board, indicate, env, old(alertMask), old(gpio.out))
      ensures LedControl() == NextControl(board, indicate, env, old(LedControl()))
      ensures Outcome(err, request)
              == IndicateOutcome(ticks, indicate, env, B.LedIsOn(board, {board.led0}, old(gpio.out)))
    {
      err, request := NRF_SUCCESS, NoStart;
      if indicate.Blinking() {
        err, request := BlinkIndication(indicate, env);
      } else if indicate.Idle? {
        gpio.LedsOff(board, board.leds - alertMask);
        stable := indicate;
      } else {
        gpio.LedsOff(board, board.leds - {board.led0} - alertMask);
        gpio.LedsOn(board, {board.led0});
        stable := indicate;
      }
    }

    /** The blinking cases, with the intervals each of them names. */
    method BlinkIndication(indicate: Indication, env: Env) returns (err: uint32, request: Request)
      requires board.Valid() && indicate.Blinking()
      modifies `stable, `ledsTimer, gpio`out
      ensures gpio.out == NextOut(board, indicate, env, old(alertMask), old(gpio.out))
      ensures LedControl() == NextControl(board, indicate, env, old(LedControl()))
      ensures Outcome(err, request)
              == IndicateOutcome(ticks, indicate, env, B.LedIsOn(board, {board.led0}, old(gpio.out)))
    {
      var onInterval, offInterval;
      match indicate {
        case Scanning | Advertising =>
          onInterval := if indicate == Advertising then ADVERTISING_LED_ON_INTERVAL
                        else ADVERTISING_SLOW_LED_ON_INTERVAL;
          offInterval := if indicate == Advertising then ADVERTISING_LED_OFF_INTERVAL
                         else ADVERTISING_SLOW_LED_OFF_INTERVAL;
        case AdvertisingWhitelist =>
          onInterval, offInterval := ADVERTISING_WHITELIST_LED_ON_INTERVAL, ADVERTISING_WHITELIST_LED_OFF_INTERVAL;
        case AdvertisingSlow =>
          onInterval, offInterval := ADVERTISING_SLOW_LED_ON_INTERVAL, ADVERTISING_SLOW_LED_OFF_INTERVAL;
        case AdvertisingDirected =>
          onInterval, offInterval := ADVERTISING_DIRECTED_LED_ON_INTERVAL, ADVERTISING_DIRECTED_LED_OFF_INTERVAL;
        case Bonding =>
          onInterval, offInterval := BONDING_INTERVAL, BONDING_INTERVAL;
      }
      assert onInterval == OnInterval(indicate) && offInterval == OffInterval(indicate);
      err, request := BlinkLed0(indicate, onInterval, offInterval, env);
    }

    /** The packet cases of `bsp_led_indication`. */
    method PacketIndication(indicate: Indication, env: Env) returns (err: uint32, request: Request)
      requires indicate.Packet()
      modifies `ledsTimer, gpio`out
      ensures gpio.out == NextOut(board, indicate, env, old(alertMask), old(gpio.out))
      ensures LedControl() == NextControl(board, indicate, env, old(LedControl()))
      ensures Outcome(err, request)
              == IndicateOutcome(ticks, indicate, env, B.LedIsOn(board, {board.led0}, old(gpio.out)))
    {
      gpio.LedsInvert({board.led1});
      match indicate {
        case SentOk => err, request := StartLedsTimer(SENT_OK_INTERVAL, env.start);
        case SendError => err, request := StartLedsTimer(SEND_ERROR_INTERVAL, env.start);
        case RcvOk => err, request := StartLedsTimer(RCV_OK_INTERVAL, env.start);
        case RcvError => err, request := StartLedsTimer(RCV_ERROR_INTERVAL, env.start);
      }
    }

    /** The common part of the blinking cases of `bsp_led_indication`. The delay depends on what LED 0 showed
        before. */
    method BlinkLed0(indicate: Indication, onInterval: nat, offInterval: nat, env: Env)
      returns (err: uint32, request: Request)
      requires board.Valid()
      modifies `stable, `ledsTimer, gpio`out
      ensures gpio.out == BlinkOut(board, alertMask, old(gpio.out))
      ensures stable == indicate && ledsTimer == AfterStart(old(ledsTimer), env.start)
      ensures
        var led0 := B.LedIsOn(board, {board.led0}, old(gpio.out));
        err == env.start.code && request == StartLeds(MsToTicks(ticks, if led0 then offInterval else onInterval))
    {
      BlinkReadsLed0(board, alertMask, gpio.out);
      var nextDelay;
      gpio.LedsOff(board, board.leds - {board.led0} - alertMask);
      if B.LedIsOn(board, {board.led0}, gpio.out) {
        gpio.LedsOff(board, {board.led0});
        nextDelay := offInterval;
      } else {
        gpio.LedsOn(board, {board.led0});
        nextDelay := onInterval;
      }
      stable := indicate;
      err, request := StartLedsTimer(nextDelay, env.start);
    }

    /** The alert cases of `bsp_led_indication`. */
    method AlertIndication(indicate: Indication, env: Env) returns (err: uint32, request: Request)
      requires indicate.IsAlert()
      modifies `alertMask, `alertTimer, gpio`out
      ensures gpio.out == NextOut(board, indicate, env, old(alertMask), old(gpio.out))
      ensures LedControl() == NextControl(board, indicate, env, old(LedControl()))
      ensures Outcome(err, request)
              == IndicateOutcome(ticks, indicate, env, B.LedIsOn(board, {board.led0}, old(gpio.out)))
    {
      request := NoStart;
      err := env.stop.code;
      alertTimer := AfterStop(alertTimer, env.stop);
      var nextDelay := indicate.AlertSteps();

      if nextDelay != 0 && err == NRF_SUCCESS {
        alertMask := {board.Alert()};
        if nextDelay > 1 {
          err, request := StartAlertTimer(nextDelay * ALERT_INTERVAL, env.start);
        }
        gpio.LedsOn(board, alertMask);
      } else {
        gpio.LedsOff(board, alertMask);
        alertMask := {};
      }
    }

    /** The cases of `bsp_led_indication` that drive every LED. */
    method TakeOver(indicate: Indication)
      requires indicate.Takeover()
      modifies `stable, gpio`out
      ensures gpio.out == TakeoverOut(board, indicate, old(gpio.out)) && stable == indicate
    {
      match indicate {
        case UserStateOff =>
          gpio.LedsOff(board, board.leds);
        case UserState0 =>
          gpio.LedsOff(board, board.leds - {board.led0});
          gpio.LedsOn(board, {board.led0});
        case UserState1 =>
          gpio.LedsOff(board, board.leds - {board.led1});
          gpio.LedsOn(board, {board.led1});
        case UserState2 =>
          gpio.LedsOff(board, board.leds - {board.led0, board.led1});
          gpio.LedsOn(board, {board.led0, board.led1});
        case FatalError | UserState3 | UserStateOn =>
          gpio.LedsOn(board, board.leds);
      }
      stable := indicate;
    }

    /** `bsp_indication_set`. */
    method IndicationSet(indicate: Indication, env: Env) returns (err: uint32, request: Request)
      requires LedsValid()
      modifies `stable, `alertMask, `ledsTimer, `alertTimer, gpio`out
      ensures LedsValid()
      ensures LedState() == DeviceStep(Settings(), old(LedState()), Indicate(indicate, env))
      ensures Outcome(err, request) == DeviceOutcome(Settings(), old(LedState()), Indicate(indicate, env))
    {
      err, request := NRF_SUCCESS, NoStart;
      if INIT_LED in flags {
        err, request := LedIndication(indicate, env);
      }
    }

    /** The single-shot LED timer expires: the library clears it and calls `leds_timer_handler`. */
    method LedsTimerHandler(env: Env) returns (request: Request)
      requires LedsValid() && ledsTimer
      modifies `stable, `alertMask, `ledsTimer, `alertTimer, gpio`out
      ensures LedsValid()
      ensures LedState() == DeviceStep(Settings(), old(LedState()), LedFire(env))
      ensures request == DeviceOutcome(Settings(), old(LedState()), LedFire(env)).request
    {
      request := NoStart;
      ledsTimer := false;
      if INIT_LED in flags {
        var err;
        err, request := LedIndication(stable, env);
      }
    }

    /** The repeated alert timer ticks: `alert_timer_handler`. */
    method AlertTimerHandler()
      requires LedsValid() && alertTimer
      modifies gpio`out
      ensures LedsValid()
      ensures LedState() == DeviceStep(Settings(), old(LedState()), AlertFire)
    {
      gpio.LedsInvert({board.Alert()});
    }

    // ----- Buttons -----

    /** `bsp_button_event_handler`. `raised` is what the callback is called with, as the handler's last step;
        `armed` is the delay, in ticks, the long-push timer was started with. */
    method ButtonEventHandler(pin: Pin, action: Action, answer: Answer)
      returns (raised: Option<Event>, armed: Option<uint32>)
      requires ButtonsValid()
      modifies `longPushPin, `buttonTimer, releaseEventAtPush
      ensures ButtonsValid()
      ensures ButtonState() == Handle(pins, old(ButtonState()), pin, action, answer)
      ensures raised == Delivered(pins, callback, old(ButtonState()), pin, action)
      ensures armed ==
              if action.PushAction? && pin in pins && old(ButtonState()).table[ButtonOf(pins, pin)].longPush != Nothing
              then Some(MsToTicks(ticks, 1000)) else None
    {
      var event := Nothing;
      armed := None;
      var button := 0;
      while button < |pins| && pins[button] != pin
        invariant 0 <= button <= ButtonOf(pins, pin)
      {
        button := button + 1;
      }
      assert button == ButtonOf(pins, pin);

      if button < |pins| {
        match action {
          case PushAction =>
            event := events[button].push;
            if events[button].longPush != Nothing {
              armed := Some(MsToTicks(ticks, LONG_PUSH_TIMEOUT_MS));
              buttonTimer := AfterStart(buttonTimer, answer);
              if answer.Ok() {
                longPushPin := pin;
              }
            }
            releaseEventAtPush[button] := events[button].release;
          case ReleaseAction =>
            buttonTimer := AfterStop(buttonTimer, answer);
            if releaseEventAtPush[button] == events[button].release {
              event := events[button].release;
            }
          case LongPushAction =>
            event := events[button].longPush;
          case OtherAction =>
        }
      }

      raised := if event != Nothing && callback then Some(event) else None;
    }

    /** The single-shot long-push timer expires: the library clears it and calls `button_timer_handler`. */
    method ButtonTimerHandler() returns (raised: Option<Event>)
      requires ButtonsValid() && buttonTimer
      modifies `longPushPin, `buttonTimer, releaseEventAtPush
      ensures ButtonsValid()
      ensures ButtonState() == ButtonStep(pins, old(ButtonState()), Expire)
      ensures raised == Raised(pins, callback, old(ButtonState()), Expire)
    {
      buttonTimer := false;
      var armed;
      raised, armed := ButtonEventHandler(longPushPin, LongPushAction, Answer(NRF_SUCCESS, false));
    }

    /** `bsp_event_to_button_action_assign`. */
    method EventToButtonActionAssign(button: uint32, action: Action, event: Event) returns (err: uint32)
      requires ButtonsValid()
      modifies events
      ensures ButtonsValid()
      ensures (events[..], err) == Bind(old(events[..]), button, action, event)
    {
      err := NRF_SUCCESS;
      if button < events.Length {
        var e := event;
        if event == Default {
          e := if action == PushAction then Key(button) else Nothing;
        }
        match action {
          case PushAction => events[button] := events[button].(push := e);
          case LongPushAction => events[button] := events[button].(longPush := e);
          case ReleaseAction => events[button] := events[button].(release := e);
          case OtherAction => err := NRF_ERROR_INVALID_PARAM;
        }
      } else {
        err := NRF_ERROR_INVALID_PARAM;
      }
    }

    // ----- Initialisation -----

    /** `bsp_init`. `created` are the timers the library created. */
    method Init(flags: Word, ticksPer100ms: uint32, callback: bool, answers: InitAnswers)
      returns (err: uint32, created: set<TimerId>)
      requires Valid()
      modifies `flags, `ticks, `callback, `ledsTimer, `alertTimer, `buttonTimer, events, gpio`out, gpio`dir
      ensures Valid()
      ensures this.flags == flags && ticks == ticksPer100ms && this.callback == callback
      ensures events[..] == (if INIT_BUTTONS in flags then DefaultPushes(old(events[..]), |pins|) else old(events[..]))
      ensures gpio.out == (if INIT_LED in flags then B.LedsOff(board, board.leds, old(gpio.out)) else old(gpio.out))
      ensures INIT_LED in flags ==> B.Lit(board, gpio.out) == {}
      ensures gpio.dir == (if INIT_LED in flags then old(gpio.dir) + board.leds else old(gpio.dir))
      ensures err == InitCode(flags, answers) && created == InitCreates(flags, answers)
      ensures ledsTimer == (old(ledsTimer) && LedsTimer !in created)
      ensures alertTimer == (old(alertTimer) && AlertTimer !in created)
      ensures buttonTimer == (old(buttonTimer) && ButtonTimer !in created)
    {
      ticks, this.flags, this.callback := ticksPer100ms, flags, callback;
      err, created := InitButtons(flags, answers);
      InitLeds(flags);
      err, created := InitTimers(err, created, answers);
    }

    /** The button part of `bsp_init`. */
    method InitButtons(flags: Word, answers: InitAnswers) returns (err: uint32, created: set<TimerId>)
      requires ButtonsValid()
      modifies `buttonTimer, events
      ensures ButtonsValid()
      ensures events[..] == (if INIT_BUTTONS in flags then DefaultPushes(old(events[..]), |pins|) else old(events[..]))
      ensures err == ButtonsCode(flags, answers) && created == ButtonsCreate(flags, answers)
      ensures buttonTimer == (old(buttonTimer) && ButtonTimer !in created)
    {
      err, created := NRF_SUCCESS, {};
      if INIT_BUTTONS in flags {
        BindDefaults();
        err := answers.buttonInit;
        if err == NRF_SUCCESS {
          err := answers.buttonEnable;
        }
        if err == NRF_SUCCESS {
          err := answers.createButton;
          if err == NRF_SUCCESS {
            buttonTimer, created := false, {ButtonTimer};
          }
        }
      }
    }

    /** The binding loop of `bsp_init`: none of its binds fails. */
    method BindDefaults()
      requires ButtonsValid()
      modifies events
      ensures ButtonsValid()
      ensures events[..] == DefaultPushes(old(events[..]), |pins|)
    {
      var err := NRF_SUCCESS;
      var num: uint32 := 0;
      while num < |pins| && err == NRF_SUCCESS
        invariant num <= |pins| && err == NRF_SUCCESS && ButtonsValid()
        invariant events[..] == DefaultPushes(old(events[..]), num)
      {
        err := EventToButtonActionAssign(num, PushAction, Default);
        num := num + 1;
      }
    }

    /** The LED part of `bsp_init`: every LED pin becomes an output, with its LED dark. */
    method InitLeds(flags: Word)
      modifies gpio`out, gpio`dir
      ensures gpio.out == (if INIT_LED in flags then B.LedsOff(board, board.leds, old(gpio.out)) else old(gpio.out))
      ensures INIT_LED in flags ==> B.Lit(board, gpio.out) == {}
      ensures gpio.dir == (if INIT_LED in flags then old(gpio.dir) + board.leds else old(gpio.dir))
    {
      if INIT_LED in flags {
        B.OffRefines(board, board.leds, gpio.out);
        gpio.LedsOff(board, board.leds);
        gpio.dir := gpio.dir + board.leds;
      }
    }

    /** The end of `bsp_init`: the two LED timers, each created only if all went well so far. */
    method InitTimers(sofar: uint32, made: set<TimerId>, answers: InitAnswers)
      returns (err: uint32, created: set<TimerId>)
      requires LedsTimer !in made && AlertTimer !in made
      modifies `ledsTimer, `alertTimer
      ensures err == Then(Then(sofar, answers.createLeds), answers.createAlert)
      ensures created == made
                         + (if Then(sofar, answers.createLeds) == NRF_SUCCESS then {LedsTimer} else {})
                         + (if Then(Then(sofar, answers.createLeds), answers.createAlert) == NRF_SUCCESS
                            then {AlertTimer} else {})
      ensures ledsTimer == (old(ledsTimer) && LedsTimer !in created)
      ensures alertTimer == (old(alertTimer) && AlertTimer !in created)
    {
      err, created := sofar, made;
      if err == NRF_SUCCESS {
        err := answers.createLeds;
        if err == NRF_SUCCESS {
          ledsTimer, created := false, created + {LedsTimer};
        }
      }
      if err == NRF_SUCCESS {
        err := answers.createAlert;
        if err == NRF_SUCCESS {
          alertTimer, created := false, created + {AlertTimer};
        }
      }
    }

    // ----- Reading and waking -----

    /** `bsp_buttons_state_get`. */
    method ButtonsStateGet() returns (err: uint32, state: Word)
      requires ButtonsValid()
      ensures err == NRF_SUCCESS
      ensures forall i: Pin :: i in state <==> i < |pins| && pins[i] !in gpio.input
    {
      err, state := NRF_SUCCESS, {};
      var cnt := 0;
      while cnt < |pins|
        invariant 0 <= cnt <= |pins|
        invariant forall i: Pin :: i in state <==> i < cnt && pins[i] !in gpio.input
      {
        if pins[cnt] !in gpio.input {
          state := state + {cnt as Pin};
        }
        cnt := cnt + 1;
      }
    }

    /** `bsp_button_is_pressed`. */
    method ButtonIsPressed(button: uint32) returns (err: uint32, pressed: bool)
      requires ButtonsValid()
      ensures err == NRF_SUCCESS && (pressed <==> button < |pins| && pins[button] !in gpio.input)
    {
      err := NRF_SUCCESS;
      if button < |pins| {
        pressed := pins[button] !in gpio.input;
      } else {
        pressed := false;
      }
    }

    /** `bsp_wakeup_buttons_set`: both bits of the SENSE field, which together sense a low level, are set for exactly
        the chosen buttons and cleared for the others, and nothing else about any pin changes. */
    method WakeupButtonsSet(wakeup: Word) returns (err: uint32)
      requires ButtonsValid()
      modifies gpio.pinCnf
      ensures err == NRF_SUCCESS
      ensures forall i | 0 <= i < |pins| ::
                (16 in gpio.pinCnf[pins[i]] <==> i in wakeup) && (17 in gpio.pinCnf[pins[i]] <==> i in wakeup)
      ensures forall p: Pin :: gpio.pinCnf[p] - {16, 17} == old(gpio.pinCnf[p]) - {16, 17}
      ensures forall p: Pin | p !in pins :: gpio.pinCnf[p] == old(gpio.pinCnf[p])
    {
      var i := 0;
      while i < |pins|
        invariant 0 <= i <= |pins|
        invariant forall j | 0 <= j < i ::
                    (16 in gpio.pinCnf[pins[j]] <==> j in wakeup) && (17 in gpio.pinCnf[pins[j]] <==> j in wakeup)
        invariant forall p: Pin :: gpio.pinCnf[p] - {16, 17} == old(gpio.pinCnf[p]) - {16, 17}
        invariant forall p: Pin | p !in pins[..i] :: gpio.pinCnf[p] == old(gpio.pinCnf[p])
      {
        var newCnf := gpio.pinCnf[pins[i]];
        var newSense := if i in wakeup then SENSE_LOW else SENSE_DISABLED;
        newCnf := newCnf - SENSE_MASK;
        newCnf := newCnf + newSense;
        gpio.pinCnf[pins[i]] := newCnf;
        i := i + 1;
      }
      err := NRF_SUCCESS;
    }
  }

  /** Power-up followed by `bsp_init`, whatever its flags and whether it succeeds: this is where the runs of the LED
      machine and of the button machine start, and event table and guards are as those runs require. */
  method FirstInitialisation(board: B.Board, pins: seq<Pin>, gpio: Gpio, flags: Word, ticksPer100ms: uint32,
                             callback: bool, answers: InitAnswers)
    returns (bsp: Bsp, err: uint32, created: set<TimerId>)
    requires board.Valid() && Distinct(pins) && |pins| <= 8 && gpio.pinCnf.Length == 32
    modifies gpio`out, gpio`dir
    ensures fresh(bsp) && bsp.Valid() && bsp.board == board && bsp.pins == pins && bsp.gpio == gpio
    ensures bsp.Settings() == Config(board, ticksPer100ms, flags) && bsp.callback == callback
    ensures bsp.LedState() == InitialDevice(bsp.Settings(), old(gpio.out))
    ensures bsp.ButtonState() == if 1 in flags then Ready(pins) else PowerUp(pins)
    ensures Untouched(pins, bsp.ButtonState()) && NoDefault(bsp.ButtonState().table)
    ensures err == NRF_SUCCESS
            <==> created == {LedsTimer, AlertTimer} + (if 1 in flags then {ButtonTimer} else {})
  {
    bsp := new Bsp(board, pins, gpio);
    err, created := bsp.Init(flags, ticksPer100ms, callback, answers);
    ReadyIsUntouched(pins);
    InitSucceedsExactly(flags, answers);
  }
}
