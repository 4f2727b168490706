/** Tick conversion loses nothing, and a blinking state keeps its own intervals. */
module Timing {
  import opened Common
  import opened Indications
  import opened LedMachine
  import opened Blink

  // ----- Conversion to ticks -----

  /** The delays, in milliseconds, that the code ever converts. */
  ghost predicate Delay(ms: nat) {
    || (exists i: Indication | i.Blinking() :: ms == OnInterval(i) || ms == OffInterval(i))
    || (exists i: Indication | i.Packet() :: ms == PacketInterval(i))
    || (exists i: Indication | i.IsAlert() && i.AlertSteps() > 1 :: ms == i.AlertSteps() * ALERT_INTERVAL)
    || ms == LONG_PUSH_TIMEOUT_MS
  }

  /** Every start request of the LED machine carries the conversion of one of them. */
  lemma RequestsAreDelays(c: Config, p: Picture, ev: LedEvent) returns (ms: nat)
    ensures
      var request := StepOutcome(c, p, ev).request;
      Delay(ms) && (request.NoStart? || request.ticks == MsToTicks(c.ticks, ms))
  {
    var i := if ev.Indicate? then ev.indication else p.ctl.stable;
    var led0 := c.board.led0 in p.lit;
    ms := if i.Packet() then PacketInterval(i)
          else if i.Blinking() then (if led0 then OffInterval(i) else OnInterval(i))
          else if i.IsAlert() && i.AlertSteps() > 1 then i.AlertSteps() * ALERT_INTERVAL
          else LONG_PUSH_TIMEOUT_MS;
  }

  lemma DelaysAreHundreds(ms: nat)
    requires Delay(ms)
    ensures ms % 100 == 0 && 100 <= ms <= 4000
  {
  }

  /** The tick rate is per 100 ms, and the product wraps around at 32 bits. */
  lemma TicksWrap(t: uint32, n: nat)
    ensures MsToTicks(t, 100 * n) == (n * t) % 0x1_0000_0000
  {
    assert (100 * n) / 100 == n;
  }

  lemma ConversionExact(t: uint32, ms: nat)
    requires ms % 100 == 0 && ms <= 4000 && 40 * t < WORD_LIMIT
    ensures 100 * MsToTicks(t, ms) == t * ms
  {
    NoWrap(t, ms);
    var h := ms / 100;
    assert t * ms == t * (100 * h) == 100 * (t * h);
  }

  /** Dividing before multiplying loses nothing and no conversion wraps around exactly up to the tick rate
      whose longest delay, 4 s, still fits 32 bits. */
  lemma ConversionExactly(t: uint32)
    ensures (forall ms: nat | Delay(ms) :: 100 * MsToTicks(t, ms) == t * ms) <==> 40 * t < WORD_LIMIT
  {
    if 40 * t < WORD_LIMIT {
      forall ms: nat | Delay(ms) ensures 100 * MsToTicks(t, ms) == t * ms {
        DelaysAreHundreds(ms);
        ConversionExact(t, ms);
      }
    } else {
      assert OffInterval(Scanning) == 4000 && Delay(4000);
      assert MsToTicks(t, 4000) < WORD_LIMIT;
    }
  }

  // ----- Blinking -----

  function LedFires(evs: seq<LedEvent>): nat {
    if evs == [] then 0
    else LedFires(evs[..|evs| - 1]) + if evs[|evs| - 1].LedFire? then 1 else 0
  }

  /** The ticks for which a run of fires keeps LED 0 lit, or dark: each fire is charged with the delay it
      arms. */
  function DwellTicks(c: Config, p: Picture, evs: seq<LedEvent>, lit: bool): nat {
    if evs == [] then 0
    else
      var before, ev := evs[..|evs| - 1], evs[|evs| - 1];
      var request := StepOutcome(c, Run(c, p, before), ev).request;
      DwellTicks(c, p, before, lit)
      + if ev.LedFire? && request.StartLeds? && (c.board.led0 in Run(c, p, evs).lit) == lit then request.ticks else 0
  }

  /** Undisturbed, LED 0 alternates with every fire; alert ticks in between make no difference. */
  lemma {:induction false} BlinkAlternates(c: Config, p: Picture, evs: seq<LedEvent>)
    requires c.board.Valid() && c.LedsEnabled() && p.ctl.stable.Blinking() && p.ctl.ledTimer
    requires (forall ev | ev in evs :: Fire(ev)) && RestartsSucceed(evs)
    ensures Run(c, p, evs).ctl == p.ctl
    ensures c.board.led0 in Run(c, p, evs).lit <==> (c.board.led0 in p.lit) == (LedFires(evs) % 2 == 0)
  {
    if evs != [] {
      var before, ev := evs[..|evs| - 1], evs[|evs| - 1];
      assert ev in evs && forall e | e in before :: e in evs;
      BlinkAlternates(c, p, before);
      BlinkStep(c, Run(c, p, before), ev);
    }
  }

  /** The last event of a run adds its own delay, if it is a fire, to the total of what it then shows. */
  lemma DwellStep(c: Config, p: Picture, evs: seq<LedEvent>, lit: bool)
    requires c.board.Valid() && c.LedsEnabled() && p.ctl.stable.Blinking() && p.ctl.ledTimer
    requires (forall ev | ev in evs :: Fire(ev)) && RestartsSucceed(evs) && evs != []
    ensures
      var before, ev := evs[..|evs| - 1], evs[|evs| - 1];
      var ms := if lit then OnInterval(p.ctl.stable) else OffInterval(p.ctl.stable);
      DwellTicks(c, p, evs, lit) == DwellTicks(c, p, before, lit)
        + if ev.LedFire? && lit == ((c.board.led0 in p.lit) == (LedFires(evs) % 2 == 0))
          then MsToTicks(c.ticks, ms) else 0
  {
    var before, ev := evs[..|evs| - 1], evs[|evs| - 1];
    assert ev in evs && forall e | e in before :: e in evs;
    BlinkAlternates(c, p, before);
    BlinkAlternates(c, p, evs);
    BlinkStep(c, Run(c, p, before), ev);
  }

  /** `x` added `n` times. */
  function Times(n: nat, x: nat): nat { if n == 0 then 0 else Times(n - 1, x) + x }

  lemma {:induction false} TimesIsProduct(n: nat, x: nat)
    ensures Times(n, x) == n * x
  {
    if n > 0 {
      TimesIsProduct(n - 1, x);
    }
  }

  function Turns(even: bool, n: nat): nat { if even then n / 2 else (n + 1) / 2 }

  lemma NextTurn(even: bool, n: nat, x: nat, fire: bool, n': nat, d: nat, d': nat)
    requires d == Times(Turns(even, n), x)
    requires n' == n + (if fire then 1 else 0)
    requires d' == d + if fire && even == (n' % 2 == 0) then x else 0
    ensures d' == Times(Turns(even, n'), x)
  {
  }

  /** LED 0 spends the state's own on and off times lit and dark, in turn. */
  lemma {:induction false} BlinkDwell(c: Config, p: Picture, evs: seq<LedEvent>, lit: bool)
    requires c.board.Valid() && c.LedsEnabled() && p.ctl.stable.Blinking() && p.ctl.ledTimer
    requires (forall ev | ev in evs :: Fire(ev)) && RestartsSucceed(evs)
    ensures
      DwellTicks(c, p, evs, lit)
      == Times(Turns((c.board.led0 in p.lit) == lit, LedFires(evs)),
               MsToTicks(c.ticks, if lit then OnInterval(p.ctl.stable) else OffInterval(p.ctl.stable)))
  {
    if evs != [] {
      assert forall e | e in evs[..|evs| - 1] :: e in evs;
      BlinkDwell(c, p, evs[..|evs| - 1], lit);
      DwellStep(c, p, evs, lit);
      NextTurn((c.board.led0 in p.lit) == lit, LedFires(evs[..|evs| - 1]),
               MsToTicks(c.ticks, if lit then OnInterval(p.ctl.stable) else OffInterval(p.ctl.stable)),
               evs[|evs| - 1].LedFire?, LedFires(evs),
               DwellTicks(c, p, evs[..|evs| - 1], lit), DwellTicks(c, p, evs, lit));
    }
  }

  lemma BlinkStep(c: Config, p: Picture, ev: LedEvent)
    requires c.board.Valid() && c.LedsEnabled() && p.ctl.stable.Blinking() && p.ctl.ledTimer
    requires ev.AlertFire? || (ev.LedFire? && ev.env.start.Ok())
    ensures
      var led0 := c.board.led0 in p.lit;
      && Step(c, p, ev).ctl == p.ctl
      && (c.board.led0 in Step(c, p, ev).lit <==> led0 == ev.AlertFire?)
      && (ev.LedFire? ==>
            var ms := if led0 then OffInterval(p.ctl.stable) else OnInterval(p.ctl.stable);
            StepOutcome(c, p, ev).request == StartLeds(MsToTicks(c.ticks, ms)))
  {
  }

  /** Over 2k fires the lit and dark totals are k times the state's own times, with no tick lost, and LED 0 is back
      where it was. */
  lemma BlinkTotals(c: Config, p: Picture, evs: seq<LedEvent>, k: nat, lit: bool)
    requires c.board.Valid() && c.LedsEnabled() && p.ctl.stable.Blinking() && p.ctl.ledTimer
    requires (forall ev | ev in evs :: Fire(ev)) && RestartsSucceed(evs)
    requires LedFires(evs) == 2 * k && 40 * c.ticks < WORD_LIMIT
    ensures
      var ms := match p.ctl.stable
                case Advertising => if lit then 200 else 1800
                case AdvertisingWhitelist => if lit then 200 else 800
                case AdvertisingDirected => 200
                case Bonding => 100
                case _ => if lit then 400 else 4000;
      DwellTicks(c, p, evs, lit) == k * (c.ticks * (ms / 100))
    ensures c.board.led0 in Run(c, p, evs).lit <==> c.board.led0 in p.lit
  {
    var ms := if lit then OnInterval(p.ctl.stable) else OffInterval(p.ctl.stable);
    BlinkDwell(c, p, evs, lit);
    BlinkAlternates(c, p, evs);
    DelaysAreHundreds(ms);
    EvenTurns((c.board.led0 in p.lit) == lit, k, c.ticks, ms);
  }

  lemma EvenTurns(even: bool, k: nat, t: uint32, ms: nat)
    requires ms % 100 == 0 && ms <= 4000 && 40 * t < WORD_LIMIT
    ensures Times(Turns(even, 2 * k), MsToTicks(t, ms)) == k * (t * (ms / 100))
  {
    NoWrap(t, ms);
    TimesIsProduct(k, t * (ms / 100));
    assert Turns(even, 2 * k) == k;
  }

  lemma NoWrap(t: uint32, ms: nat)
    requires ms % 100 == 0 && ms <= 4000 && 40 * t < WORD_LIMIT
    ensures MsToTicks(t, ms) == t * (ms / 100)
  {
  }
}
