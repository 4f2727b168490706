/** The indications, their grouping, and the intervals of the LED patterns in milliseconds. */
module Indications {

  /** `Undefined` stands for a value outside the enumeration. */
  datatype Indication =
    | Idle
    | Scanning
    | Advertising
    | AdvertisingWhitelist
    | AdvertisingSlow
    | AdvertisingDirected
    | Bonding
    | Connected
    | SentOk
    | SendError
    | RcvOk
    | RcvError
    | FatalError
    | Alert0
    | Alert1
    | Alert2
    | Alert3
    | AlertOff
    | UserStateOff
    | UserState0
    | UserState1
    | UserState2
    | UserState3
    | UserStateOn
    | Undefined
  {
    predicate Blinking() {
      Scanning? || Advertising? || AdvertisingWhitelist? || AdvertisingSlow? || AdvertisingDirected? || Bonding?
    }

    /** The connection states, Idle to Connected. */
    predicate Link() { Idle? || Blinking() || Connected? }

    /** One packet sent or received. */
    predicate Packet() { SentOk? || SendError? || RcvOk? || RcvError? }

    predicate IsAlert() { Alert0? || Alert1? || Alert2? || Alert3? || AlertOff? }

    /** States shown with all LEDs under the caller's control. */
    predicate Takeover() {
      FatalError? || UserStateOff? || UserState0? || UserState1? || UserState2? || UserState3? || UserStateOn?
    }

    /** States the LED timer may be asked to show again. */
    predicate Stable() { Link() || Takeover() }

    /** How many ALERT_INTERVALs an alert lasts between two ticks: the distance to AlertOff in the
        enumeration. */
    function AlertSteps(): nat
      requires IsAlert()
    {
      match this
      case Alert0 => 4
      case Alert1 => 3
      case Alert2 => 2
      case Alert3 => 1
      case _ => 0
    }
  }

  const ADVERTISING_LED_ON_INTERVAL: nat := 200
  const ADVERTISING_LED_OFF_INTERVAL: nat := 1800
  const ADVERTISING_DIRECTED_LED_ON_INTERVAL: nat := 200
  const ADVERTISING_DIRECTED_LED_OFF_INTERVAL: nat := 200
  const ADVERTISING_WHITELIST_LED_ON_INTERVAL: nat := 200
  const ADVERTISING_WHITELIST_LED_OFF_INTERVAL: nat := 800
  const ADVERTISING_SLOW_LED_ON_INTERVAL: nat := 400
  const ADVERTISING_SLOW_LED_OFF_INTERVAL: nat := 4000
  const BONDING_INTERVAL: nat := 100
  const SENT_OK_INTERVAL: nat := 100
  const SEND_ERROR_INTERVAL: nat := 500
  const RCV_OK_INTERVAL: nat := 100
  const RCV_ERROR_INTERVAL: nat := 500
  const ALERT_INTERVAL: nat := 200
  const LONG_PUSH_TIMEOUT_MS: nat := 1000

  /** How long LED 0 stays lit in a blinking state. */
  function OnInterval(i: Indication): nat
    requires i.Blinking()
  {
    match i
    case Advertising => ADVERTISING_LED_ON_INTERVAL
    case AdvertisingWhitelist => ADVERTISING_WHITELIST_LED_ON_INTERVAL
    case AdvertisingDirected => ADVERTISING_DIRECTED_LED_ON_INTERVAL
    case Bonding => BONDING_INTERVAL
    case _ => ADVERTISING_SLOW_LED_ON_INTERVAL
  }

  /** How long LED 0 stays dark in a blinking state. */
  function OffInterval(i: Indication): nat
    requires i.Blinking()
  {
    match i
    case Advertising => ADVERTISING_LED_OFF_INTERVAL
    case AdvertisingWhitelist => ADVERTISING_WHITELIST_LED_OFF_INTERVAL
    case AdvertisingDirected => ADVERTISING_DIRECTED_LED_OFF_INTERVAL
    case Bonding => BONDING_INTERVAL
    case _ => ADVERTISING_SLOW_LED_OFF_INTERVAL
  }

  /** How long a packet indication inverts LED 1. */
  function PacketInterval(i: Indication): nat
    requires i.Packet()
  {
    match i
    case SentOk => SENT_OK_INTERVAL
    case SendError => SEND_ERROR_INTERVAL
    case RcvOk => RCV_OK_INTERVAL
    case _ => RCV_ERROR_INTERVAL
  }
}
