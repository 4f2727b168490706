/** The ANT button module as the program keeps it: one static flag, and calls into the board support
    package. */
module BtnAnt {
  import opened Common
  import opened Buttons
  import opened AntMode
  import opened BoardSupport

  class AntButtons {
    const bsp: Bsp
    var connected: bool

    ghost function State(): Ant
      reads this, bsp`longPushPin, bsp`buttonTimer, bsp.events, bsp.releaseEventAtPush
    {
      Ant(bsp.ButtonState(), connected)
    }

    /** Power-up: the channel is not connected. */
    constructor (bsp: Bsp)
      ensures this.bsp == bsp && !connected
    {
      this.bsp, connected := bsp, false;
    }

    /** `connection_buttons_configure` and `searching_buttons_configure`. */
    method Configure(event: Event) returns (err: uint32)
      requires bsp.ButtonsValid()
      modifies bsp.events
      ensures bsp.ButtonsValid()
      ensures bsp.ButtonState() == AntMode.Configure(old(bsp.ButtonState()), event)
      ensures err == NRF_SUCCESS
    {
      ConfigureAlwaysSucceeds(bsp.ButtonState(), event);
      err := bsp.EventToButtonActionAssign(BTN_ID_SLEEP, ReleaseAction, event);
      if err != NRF_SUCCESS && err != NRF_ERROR_INVALID_PARAM {
        return err;
      }
      err := NRF_SUCCESS;
    }

    /** `bsp_btn_ant_on_ant_evt`. `err` is the code the application error check receives. */
    method OnAntEvt(evt: AntEvt) returns (err: uint32)
      requires bsp.ButtonsValid()
      modifies `connected, bsp.events
      ensures bsp.ButtonsValid()
      ensures State() == AntStep(bsp.pins, old(State()), Channel(evt))
      ensures err == NRF_SUCCESS
    {
      err := NRF_SUCCESS;
      match evt {
        case Rx =>
          if !connected {
            err := Configure(Default);
          }
          connected := true;
        case RxFailGoToSearch =>
          connected := false;
          err := Configure(Sleep);
        case OtherEvt =>
      }
    }

    /** `bsp_btn_ant_init`. */
    method Init() returns (err: uint32)
      requires bsp.ButtonsValid()
      modifies bsp.events
      ensures bsp.ButtonsValid()
      ensures State() == AntStep(bsp.pins, old(State()), AntInit)
      ensures err == NRF_SUCCESS
    {
      if !connected {
        err := Configure(Sleep);
      } else {
        err := Configure(Default);
      }
    }

    /** `bsp_btn_ant_sleep_mode_prepare`: of the buttons, only button 3 can wake the chip. */
    method SleepModePrepare() returns (err: uint32)
      requires bsp.ButtonsValid()
      modifies bsp.gpio.pinCnf
      ensures err == NRF_SUCCESS
      ensures forall i | 0 <= i < |bsp.pins| ::
                (16 in bsp.gpio.pinCnf[bsp.pins[i]] <==> i == 3) && (17 in bsp.gpio.pinCnf[bsp.pins[i]] <==> i == 3)
      ensures forall p: Pin :: bsp.gpio.pinCnf[p] - {16, 17} == old(bsp.gpio.pinCnf[p]) - {16, 17}
      ensures forall p: Pin | p !in bsp.pins :: bsp.gpio.pinCnf[p] == old(bsp.gpio.pinCnf[p])
    {
      err := bsp.WakeupButtonsSet({BTN_ID_WAKEUP});
    }
  }
}
