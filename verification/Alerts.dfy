/** Alerts are indicated independently of everything else: when that is true, and when it is not. */
module Alerts {
  import opened Common
  import opened Boards
  import opened Indications
  import opened LedMachine

  // ----- Splitting a run -----

  /** Indications that leave the alert LED to the alerts: link states, values outside the enumeration
      and, on a board where LED 1 is not the alert LED, packets. */
  predicate Neutral(b: Board, i: Indication) {
    i.Link() || i.Undefined? || (i.Packet() && b.led2.Some?)
  }

  predicate Ordinary(b: Board, ev: LedEvent) {
    match ev
    case Indicate(i, _) => Neutral(b, i)
    case LedFire(_) => true
    case AlertFire => false
  }

  predicate AlertSide(ev: LedEvent) {
    match ev
    case Indicate(i, _) => i.IsAlert()
    case LedFire(_) => false
    case AlertFire => true
  }

  predicate Mixed(b: Board, evs: seq<LedEvent>) { forall ev | ev in evs :: Ordinary(b, ev) || AlertSide(ev) }

  /** Every stop of the alert timer leaves it stopped. */
  predicate StopsTakeEffect(evs: seq<LedEvent>) {
    forall ev | ev in evs :: ev.Indicate? && ev.indication.IsAlert() ==> ev.env.stop.StopsTimer()
  }

  function AlertPart(evs: seq<LedEvent>): seq<LedEvent> {
    if evs == [] then []
    else AlertPart(evs[..|evs| - 1]) + if AlertSide(evs[|evs| - 1]) then [evs[|evs| - 1]] else []
  }

  function OtherPart(evs: seq<LedEvent>): seq<LedEvent> {
    if evs == [] then []
    else OtherPart(evs[..|evs| - 1]) + if AlertSide(evs[|evs| - 1]) then [] else [evs[|evs| - 1]]
  }

  /** The picture of a run is the union of the pictures of its two parts, the alert LED coming from the
      alert part alone and the other LEDs from the rest alone. */
  predicate Splits(c: Config, evs: seq<LedEvent>) {
    var a := c.board.Alert();
    var whole := Run(c, INITIAL_PICTURE, evs).lit;
    var alerts := Run(c, INITIAL_PICTURE, AlertPart(evs)).lit;
    var others := Run(c, INITIAL_PICTURE, OtherPart(evs)).lit;
    && whole == alerts + others
    && (a in whole <==> a in alerts)
    && whole - {a} == others - {a}
  }

  // ----- The alert mask -----

  /** The mask is empty or the alert LED, and a running alert timer has the mask set. */
  predicate MaskValid(b: Board, ctl: Control) {
    (ctl.alertMask == {} || ctl.alertMask == {b.Alert()}) && (ctl.alertTimer ==> ctl.alertMask != {})
  }

  /** The remembered state is never a packet or an alert, whatever is indicated, so the LED timer never
      replays one; the mask is empty or the alert LED; and as long as stops take effect a running alert
      timer has the mask set. */
  lemma {:induction false} ControlInvariant(c: Config, p: Picture, evs: seq<LedEvent>)
    requires MaskValid(c.board, p.ctl) && p.ctl.stable.Stable()
    ensures
      var ctl := Run(c, p, evs).ctl;
      && ctl.stable.Stable()
      && (ctl.alertMask == {} || ctl.alertMask == {c.board.Alert()})
      && (StopsTakeEffect(evs) ==> MaskValid(c.board, ctl))
  {
    if evs != [] {
      var before, ev := evs[..|evs| - 1], evs[|evs| - 1];
      ControlInvariant(c, p, before);
      assert ev in evs && forall e | e in before :: e in evs;
      ControlStep(c, Run(c, p, before), ev);
    }
  }

  lemma ControlStep(c: Config, p: Picture, ev: LedEvent)
    requires p.ctl.stable.Stable() && (p.ctl.alertMask == {} || p.ctl.alertMask == {c.board.Alert()})
    ensures
      var ctl := Step(c, p, ev).ctl;
      && ctl.stable.Stable()
      && (ctl.alertMask == {} || ctl.alertMask == {c.board.Alert()})
      && (MaskValid(c.board, p.ctl) && StopsTakeEffect([ev]) ==> MaskValid(c.board, ctl))
  {
  }

  // ----- Independence -----

  /** What a run shares with its two parts. */
  predicate Coupled(b: Board, whole: Picture, alerts: Picture, others: Picture) {
    var a := b.Alert();
    && MaskValid(b, whole.ctl) && (whole.ctl.alertMask == {} ==> a !in whole.lit)
    && whole.ctl.stable.Link()
    && alerts.ctl.alertMask == whole.ctl.alertMask && alerts.ctl.alertTimer == whole.ctl.alertTimer
    && alerts.lit <= {a} && (a in whole.lit <==> a in alerts.lit)
    && others.ctl == whole.ctl.(alertMask := {}, alertTimer := false)
    && others.lit == whole.lit - {a}
  }

  /** An ordinary indication leaves the alert LED as it is and treats the other LEDs alike with and
      without an alert. */
  lemma OrdinaryLit(b: Board, i: Indication, env: Env, mask: Word, lit: Word)
    requires b.Valid() && Neutral(b, i)
    requires mask == {b.Alert()} || (mask == {} && b.Alert() !in lit)
    ensures b.Alert() in NextLit(b, i, env, mask, lit) <==> b.Alert() in lit
    ensures NextLit(b, i, env, {}, lit - {b.Alert()}) == NextLit(b, i, env, mask, lit) - {b.Alert()}
  {
  }

  lemma OrdinaryStepCoupled(c: Config, whole: Picture, alerts: Picture, others: Picture, ev: LedEvent)
    requires c.board.Valid()
    requires Coupled(c.board, whole, alerts, others) && Ordinary(c.board, ev)
    ensures Coupled(c.board, Step(c, whole, ev), alerts, Step(c, others, ev))
    ensures StepOutcome(c, whole, ev) == StepOutcome(c, others, ev)
  {
    var i := if ev.Indicate? then ev.indication else whole.ctl.stable;
    OrdinaryLit(c.board, i, ev.env, whole.ctl.alertMask, whole.lit);
  }

  lemma AlertStepCoupled(c: Config, whole: Picture, alerts: Picture, others: Picture, ev: LedEvent)
    requires c.board.Valid()
    requires Coupled(c.board, whole, alerts, others) && AlertSide(ev)
    requires ev.Indicate? ==> ev.env.stop.StopsTimer()
    ensures Coupled(c.board, Step(c, whole, ev), Step(c, alerts, ev), others)
    ensures StepOutcome(c, whole, ev) == StepOutcome(c, alerts, ev)
  {
  }

  lemma {:induction false} RunCoupled(c: Config, evs: seq<LedEvent>)
    requires c.board.Valid()
    requires Mixed(c.board, evs) && StopsTakeEffect(evs)
    ensures Coupled(c.board, Run(c, INITIAL_PICTURE, evs),
                    Run(c, INITIAL_PICTURE, AlertPart(evs)), Run(c, INITIAL_PICTURE, OtherPart(evs)))
  {
    if evs != [] {
      var before, ev := evs[..|evs| - 1], evs[|evs| - 1];
      RunCoupled(c, before);
      assert ev in evs;
      if AlertSide(ev) {
        SnocRun(c, AlertPart(before), ev);
        assert OtherPart(evs) == OtherPart(before);
        AlertStepCoupled(c, Run(c, INITIAL_PICTURE, before), Run(c, INITIAL_PICTURE, AlertPart(before)),
                         Run(c, INITIAL_PICTURE, OtherPart(before)), ev);
      } else {
        SnocRun(c, OtherPart(before), ev);
        assert AlertPart(evs) == AlertPart(before);
        OrdinaryStepCoupled(c, Run(c, INITIAL_PICTURE, before), Run(c, INITIAL_PICTURE, AlertPart(before)),
                            Run(c, INITIAL_PICTURE, OtherPart(before)), ev);
      }
    }
  }

  lemma SnocRun(c: Config, evs: seq<LedEvent>, ev: LedEvent)
    ensures Run(c, INITIAL_PICTURE, evs + [ev]) == Step(c, Run(c, INITIAL_PICTURE, evs), ev)
  {
  }

  /** Any interleaving of link states, packets, alerts and both timers shows exactly what the alerts
      alone and the rest alone would show; the next call also makes the timer request, and returns the
      code, that it would in its own part. */
  lemma AlertIndependence(c: Config, evs: seq<LedEvent>, next: LedEvent)
    requires c.board.Valid()
    requires Mixed(c.board, evs) && StopsTakeEffect(evs)
    ensures Splits(c, evs)
    ensures Ordinary(c.board, next) ==>
              StepOutcome(c, Run(c, INITIAL_PICTURE, evs), next)
              == StepOutcome(c, Run(c, INITIAL_PICTURE, OtherPart(evs)), next)
    ensures AlertSide(next) && (next.Indicate? ==> next.env.stop.StopsTimer()) ==>
              StepOutcome(c, Run(c, INITIAL_PICTURE, evs), next)
              == StepOutcome(c, Run(c, INITIAL_PICTURE, AlertPart(evs)), next)
  {
    RunCoupled(c, evs);
    var whole, alerts, others :=
      Run(c, INITIAL_PICTURE, evs), Run(c, INITIAL_PICTURE, AlertPart(evs)), Run(c, INITIAL_PICTURE, OtherPart(evs));
    if Ordinary(c.board, next) {
      OrdinaryStepCoupled(c, whole, alerts, others, next);
    }
    if AlertSide(next) && (next.Indicate? ==> next.env.stop.StopsTimer()) {
      AlertStepCoupled(c, whole, alerts, others, next);
    }
  }

  // ----- Where independence ends -----

  const WORKS: Env := Env(Answer(0, false), Answer(0, false))

  /** Two-event runs are one step after the other. */
  lemma TwoSteps(c: Config, e: LedEvent, f: LedEvent)
    ensures Run(c, INITIAL_PICTURE, [e]) == Step(c, INITIAL_PICTURE, e)
    ensures Run(c, INITIAL_PICTURE, [e, f]) == Step(c, Step(c, INITIAL_PICTURE, e), f)
    ensures AlertPart([e, f]) == (if AlertSide(e) then [e] else []) + (if AlertSide(f) then [f] else [])
    ensures OtherPart([e, f]) == (if AlertSide(e) then [] else [e]) + (if AlertSide(f) then [] else [f])
  {
    SnocRun(c, [], e);
    assert [] + [e] == [e];
    SnocRun(c, [e], f);
    assert [e] + [f] == [e, f];
    assert [e, f][..1] == [e] && [e][..0] == [];
    assert AlertPart([e]) == (if AlertSide(e) then [e] else []);
    assert OtherPart([e]) == (if AlertSide(e) then [] else [e]);
  }

  /** Besides alerts and the timers, the events do nothing but indicate states in `shown`. */
  predicate OnlyShows(evs: seq<LedEvent>, shown: set<Indication>) {
    forall ev | ev in evs :: AlertSide(ev) || ev.LedFire? || (ev.Indicate? && ev.indication in shown)
  }

  predicate NoAlerts(shown: set<Indication>) { forall i | i in shown :: !i.IsAlert() }

  /** Which indications alerts are independent of, exactly: all but the fatal error and the user states,
      which drive every LED, and but packets where the board has no LED 2, which invert the alert LED. */
  lemma IndependenceExactly(c: Config, shown: set<Indication>)
    requires c.board.Valid() && c.LedsEnabled() && NoAlerts(shown)
    ensures (forall evs | OnlyShows(evs, shown) && StopsTakeEffect(evs) :: Splits(c, evs))
            <==> forall i | i in shown :: Neutral(c.board, i)
  {
    if forall i | i in shown :: Neutral(c.board, i) {
      forall evs | OnlyShows(evs, shown) && StopsTakeEffect(evs) ensures Splits(c, evs) {
        AlertIndependence(c, evs, AlertFire);
      }
    } else {
      var i :| i in shown && !Neutral(c.board, i);
      var evs := NeutralityWitness(c, i);
      assert OnlyShows(evs, shown);
    }
  }

  /** The indication lights the alert LED with no alert raised, or changes it while one is. */
  lemma NeutralityWitness(c: Config, i: Indication) returns (evs: seq<LedEvent>)
    requires c.board.Valid() && c.LedsEnabled() && !i.IsAlert() && !Neutral(c.board, i)
    ensures OnlyShows(evs, {i}) && StopsTakeEffect(evs) && !Splits(c, evs)
  {
    var a := c.board.Alert();
    var raise, show := Indicate(Alert3, WORKS), Indicate(i, WORKS);
    TwoSteps(c, raise, show);
    TwoSteps(c, show, raise);
    if i.Takeover() && a in TakeoverPicture(c.board, i) {
      evs := [show];
      assert AlertPart(evs) == [];
      assert a in Run(c, INITIAL_PICTURE, evs).lit;
    } else {
      evs := [raise, show];
      assert AlertPart(evs) == [raise];
      assert a in Run(c, INITIAL_PICTURE, [raise]).lit;
      assert a !in Run(c, INITIAL_PICTURE, evs).lit;
    }
  }

  /** An alert tick and an ordinary indication commute exactly when a running alert timer has its mask
      set, which is what a stop that leaves the timer running breaks. */
  lemma TickCommutesExactly(c: Config, p: Picture, env: Env)
    requires c.board.Valid() && c.LedsEnabled()
    requires p.ctl.alertMask in {{}, {c.board.Alert()}}
    ensures Step(c, Step(c, p, AlertFire), Indicate(Idle, env)) == Step(c, Step(c, p, Indicate(Idle, env)), AlertFire)
            <==> MaskValid(c.board, p.ctl)
  {
  }

  /** The stops of the alert timer answer `stop` whenever they do not succeed. */
  predicate StopsAnswer(evs: seq<LedEvent>, stop: Answer) {
    forall ev | ev in evs :: ev.Indicate? && ev.indication.IsAlert() ==> ev.env.stop.Ok() || ev.env.stop == stop
  }

  /** A failing stop is harmless exactly when it does not leave the timer running. Otherwise an alert that
      was cleared goes on ticking unmasked, and the next indication darkens it. */
  lemma StopMattersExactly(c: Config, stop: Answer)
    requires c.board.Valid() && c.LedsEnabled()
    ensures (forall evs | Mixed(c.board, evs) && StopsAnswer(evs, stop) :: Splits(c, evs)) <==> stop.StopsTimer()
  {
    if stop.StopsTimer() {
      forall evs | Mixed(c.board, evs) && StopsAnswer(evs, stop) ensures Splits(c, evs) {
        AlertIndependence(c, evs, AlertFire);
      }
    } else {
      var evs := StrandedAlert(c, stop);
    }
  }

  lemma StrandedAlert(c: Config, stop: Answer) returns (evs: seq<LedEvent>)
    requires c.board.Valid() && c.LedsEnabled() && !stop.StopsTimer()
    ensures Mixed(c.board, evs) && StopsAnswer(evs, stop) && !Splits(c, evs)
  {
    var raise, clear := Indicate(Alert0, WORKS), Indicate(AlertOff, Env(stop, Answer(0, false)));
    var alerts, idle := [raise, clear] + [AlertFire], Indicate(Idle, WORKS);
    evs := alerts + [idle];
    TwoSteps(c, raise, clear);
    SnocRun(c, [raise, clear], AlertFire);
    SnocRun(c, alerts, idle);
    SnocParts([raise, clear], AlertFire);
    SnocParts(alerts, idle);
    StrandedState(c, stop);
    assert AlertPart(evs) == alerts;
    assert c.board.Alert() in Run(c, INITIAL_PICTURE, alerts).lit;
  }

  /** Cleared but still ticking. */
  lemma StrandedState(c: Config, stop: Answer)
    requires c.board.Valid() && c.LedsEnabled() && !stop.StopsTimer()
    ensures
      var raised := Step(c, INITIAL_PICTURE, Indicate(Alert0, WORKS));
      var q := Step(c, Step(c, raised, Indicate(AlertOff, Env(stop, Answer(0, false)))), AlertFire);
      && q == Picture({c.board.Alert()}, Control(Idle, {}, false, true))
      && c.board.Alert() !in Step(c, q, Indicate(Idle, WORKS)).lit
  {
  }

  lemma SnocParts(evs: seq<LedEvent>, ev: LedEvent)
    ensures AlertPart(evs + [ev]) == AlertPart(evs) + if AlertSide(ev) then [ev] else []
    ensures OtherPart(evs + [ev]) == OtherPart(evs) + if AlertSide(ev) then [] else [ev]
  {
  }

  // ----- Switching alerts off -----

  /** A successful AlertOff after the run leaves the alert LED dark. */
  predicate OffDarkens(c: Config, evs: seq<LedEvent>, env: Env) {
    var p, off := Run(c, INITIAL_PICTURE, evs), Indicate(AlertOff, env);
    StepOutcome(c, p, off).err == NRF_SUCCESS ==> c.board.Alert() !in Step(c, p, off).lit
  }

  /** Indications that can light the alert LED without setting the alert mask. */
  predicate LightsAlert(b: Board, i: Indication) {
    (i.Packet() && b.led2.None?) || (i.Takeover() && b.Alert() in TakeoverPicture(b, i))
  }

  /** When switching alerts off can be trusted, over all runs: exactly if a failing stop does not leave the alert
      timer running, and nothing else that is shown lights the alert LED. */
  lemma AlertOffExactly(c: Config, shown: set<Indication>, stop: Answer)
    requires c.board.Valid() && c.LedsEnabled() && NoAlerts(shown)
    ensures (forall evs, env | OnlyShows(evs, shown) && StopsAnswer(evs, stop) :: OffDarkens(c, evs, env))
            <==> stop.StopsTimer() && forall i | i in shown :: !LightsAlert(c.board, i)
  {
    if !stop.StopsTimer() {
      var evs := StuckAlert(c, stop);
      assert OnlyShows(evs, shown) && !OffDarkens(c, evs, WORKS);
    } else if i :| i in shown && LightsAlert(c.board, i) {
      StuckWithoutAlert(c, i);
      assert OnlyShows([Indicate(i, WORKS)], shown) && !OffDarkens(c, [Indicate(i, WORKS)], WORKS);
    } else {
      forall evs, env | OnlyShows(evs, shown) && StopsAnswer(evs, stop) ensures OffDarkens(c, evs, env) {
        LitMeansMasked(c, shown, evs);
      }
    }
  }

  /** A cleared alert that still ticks can get stuck: if its last tick lit the LED, switching alerts off again
      succeeds, stops the timer and leaves the LED lit, because the mask is already empty. */
  lemma StuckAlert(c: Config, stop: Answer) returns (evs: seq<LedEvent>)
    requires c.board.Valid() && c.LedsEnabled() && !stop.StopsTimer()
    ensures (forall ev | ev in evs :: AlertSide(ev)) && StopsAnswer(evs, stop) && !OffDarkens(c, evs, WORKS)
    ensures
      var p := Run(c, INITIAL_PICTURE, evs + [Indicate(AlertOff, WORKS)]);
      c.board.Alert() in p.lit && !p.ctl.alertTimer && !p.ctl.ledTimer && p.ctl.alertMask == {}
  {
    var raise, clear := Indicate(Alert0, WORKS), Indicate(AlertOff, Env(stop, Answer(0, false)));
    evs := [raise, clear] + [AlertFire];
    TwoSteps(c, raise, clear);
    SnocRun(c, [raise, clear], AlertFire);
    SnocRun(c, evs, Indicate(AlertOff, WORKS));
    StrandedState(c, stop);
  }

  /** With no alert and no failure at all, an indication that lights the alert LED has the same effect. */
  lemma StuckWithoutAlert(c: Config, i: Indication)
    requires c.board.Valid() && c.LedsEnabled() && LightsAlert(c.board, i)
    ensures StopsTakeEffect([Indicate(i, WORKS)]) && !OffDarkens(c, [Indicate(i, WORKS)], WORKS)
  {
    TwoSteps(c, Indicate(i, WORKS), AlertFire);
  }

  /** Otherwise a lit alert LED always has the mask set. */
  predicate Masked(b: Board, p: Picture) {
    && MaskValid(b, p.ctl) && (b.Alert() in p.lit ==> p.ctl.alertMask != {})
    && p.ctl.stable.Stable() && !LightsAlert(b, p.ctl.stable)
  }

  lemma {:induction false} LitMeansMasked(c: Config, shown: set<Indication>, evs: seq<LedEvent>)
    requires c.board.Valid() && c.LedsEnabled() && NoAlerts(shown)
    requires OnlyShows(evs, shown) && StopsTakeEffect(evs)
    requires forall i | i in shown :: !LightsAlert(c.board, i)
    ensures Masked(c.board, Run(c, INITIAL_PICTURE, evs))
  {
    if evs != [] {
      var before, ev := evs[..|evs| - 1], evs[|evs| - 1];
      assert ev in evs && forall e | e in before :: e in evs;
      LitMeansMasked(c, shown, before);
      StaysMasked(c, Run(c, INITIAL_PICTURE, before), ev);
    }
  }

  lemma StaysMasked(c: Config, p: Picture, ev: LedEvent)
    requires c.board.Valid() && c.LedsEnabled() && Masked(c.board, p)
    requires ev.Indicate? ==> !LightsAlert(c.board, ev.indication)
    requires StopsTakeEffect([ev])
    ensures Masked(c.board, Step(c, p, ev))
  {
    assert ev in [ev];
  }

  // ----- The alert LED blinks by parity -----

  function AlertTicks(evs: seq<LedEvent>): nat {
    if evs == [] then 0
    else AlertTicks(evs[..|evs| - 1]) + if evs[|evs| - 1].AlertFire? then 1 else 0
  }

  /** After an alert is raised, whatever neutral indications are shown meanwhile, the alert LED is lit
      exactly after an even number of ticks; Alert3 never ticks. */
  lemma {:induction false} AlertParity(c: Config, p: Picture, i: Indication, env: Env, evs: seq<LedEvent>)
    requires c.board.Valid() && c.LedsEnabled() && p.ctl.stable.Link()
    requires Raises(i, env)
    requires forall ev | ev in evs :: ev.AlertFire? || Ordinary(c.board, ev)
    ensures
      var q := Run(c, Step(c, p, Indicate(i, env)), evs);
      && q.ctl.alertTimer == (!i.Alert3? && env.start.Ok())
      && q.ctl.alertMask == {c.board.Alert()} && q.ctl.stable.Link()
      && (c.board.Alert() in q.lit <==> (q.ctl.alertTimer ==> AlertTicks(evs) % 2 == 0))
  {
    if evs != [] {
      var before, ev := evs[..|evs| - 1], evs[|evs| - 1];
      AlertParity(c, p, i, env, before);
      assert ev in evs;
      AlertParityStep(c, Run(c, Step(c, p, Indicate(i, env)), before), ev);
    }
  }

  lemma AlertParityStep(c: Config, q: Picture, ev: LedEvent)
    requires c.board.Valid() && q.ctl.stable.Link() && q.ctl.alertMask == {c.board.Alert()}
    requires ev.AlertFire? || Ordinary(c.board, ev)
    ensures
      var r := Step(c, q, ev);
      && r.ctl.stable.Link() && r.ctl.alertMask == q.ctl.alertMask && r.ctl.alertTimer == q.ctl.alertTimer
      && (c.board.Alert() in r.lit <==> (c.board.Alert() in q.lit) != (ev.AlertFire? && q.ctl.alertTimer))
  {
  }
}
