/** The single-shot LED timer: packets are undone, blinking goes on, everything else comes to rest. */
module Blink {
  import opened Common
  import opened Boards
  import opened Indications
  import opened LedMachine
  import opened Polarity

  predicate Fire(ev: LedEvent) { ev.LedFire? || ev.AlertFire? }

  /** Whether an event can only be a packet, an alert, an alert tick or an undefined value. */
  predicate Passing(ev: LedEvent) {
    ev.AlertFire? || (ev.Indicate? && !ev.indication.Stable())
  }

  /** Every start of the LED timer succeeds. */
  predicate StartsSucceed(evs: seq<LedEvent>) {
    forall ev | ev in evs && !ev.AlertFire? ::
      (ev.Indicate? ==> ev.indication.Blinking() || ev.indication.Packet()) ==> ev.env.start.Ok()
  }

  /** Packets indicated since the LEDs last showed a stable state. */
  function PendingPackets(evs: seq<LedEvent>): nat {
    if evs == [] then 0 else NextPending(PendingPackets(evs[..|evs| - 1]), evs[|evs| - 1])
  }

  function NextPending(pending: nat, ev: LedEvent): nat {
    if ev.LedFire? || (ev.Indicate? && ev.indication.Stable()) then 0
    else if ev.Indicate? && ev.indication.Packet() then pending + 1
    else pending
  }

  // ----- Packets are transient -----

  lemma {:induction false} PassingKeepsStable(c: Config, p: Picture, evs: seq<LedEvent>)
    requires c.board.Valid() && c.LedsEnabled()
    requires p.ctl.alertMask == {} || p.ctl.alertMask == {c.board.Alert()}
    requires forall ev | ev in evs :: Passing(ev)
    ensures
      var q := Run(c, p, evs);
      && q.ctl.stable == p.ctl.stable
      && (q.ctl.alertMask == {} || q.ctl.alertMask == {c.board.Alert()})
      && (c.board.led0 in q.lit <==> c.board.led0 in p.lit)
  {
    if evs != [] {
      var before, ev := evs[..|evs| - 1], evs[|evs| - 1];
      PassingKeepsStable(c, p, before);
      assert ev in evs;
    }
  }

  /** Whatever packets and alerts came since a link state was shown, the next fire of the LED timer leaves
      only LED 0 and the active alert lit, and shows the link state again: exactly for Idle and
      Connected, and with LED 0 toggled for a blinking state. */
  lemma PacketsAreUndone(c: Config, p: Picture, evs: seq<LedEvent>, env: Env)
    requires c.board.Valid() && c.LedsEnabled() && p.ctl.stable.Link()
    requires p.ctl.alertMask == {} || p.ctl.alertMask == {c.board.Alert()}
    requires forall ev | ev in evs :: Passing(ev)
    requires Run(c, p, evs).ctl.ledTimer
    ensures
      var r := Step(c, Run(c, p, evs), LedFire(env));
      && r.ctl.stable == p.ctl.stable && r.ctl.alertMask == Run(c, p, evs).ctl.alertMask
      && r.lit <= {c.board.led0} + r.ctl.alertMask
      && (c.board.led0 in r.lit <==>
            p.ctl.stable.Connected? || (p.ctl.stable.Blinking() && c.board.led0 !in p.lit))
      && r.lit - r.ctl.alertMask == Step(c, p, Indicate(p.ctl.stable, env)).lit - p.ctl.alertMask - r.ctl.alertMask
  {
    PassingKeepsStable(c, p, evs);
  }

  // ----- Staying alive -----

  lemma LiveStep(c: Config, p: Picture, ev: LedEvent)
    requires c.LedsEnabled() && p.ctl.stable.Stable() && StartsSucceed([ev])
    requires p.ctl.stable.Blinking() ==> p.ctl.ledTimer
    ensures
      var ctl := Step(c, p, ev).ctl;
      && ctl.stable.Stable()
      && (ctl.stable.Blinking() ==> ctl.ledTimer)
      && (ev.Indicate? && ev.indication.Packet() ==> ctl.ledTimer)
      && (p.ctl.ledTimer && !ev.LedFire? ==> ctl.ledTimer)
  {
  }

  /** In every reachable state a blinking stable state, or a packet not yet undone, has the LED timer
      running, provided its starts succeed. */
  lemma {:induction false} TimerIsLive(c: Config, evs: seq<LedEvent>)
    requires c.LedsEnabled() && StartsSucceed(evs)
    ensures
      var ctl := Run(c, INITIAL_PICTURE, evs).ctl;
      && ctl.stable.Stable()
      && (ctl.stable.Blinking() || PendingPackets(evs) > 0 ==> ctl.ledTimer)
  {
    if evs != [] {
      var before, ev := evs[..|evs| - 1], evs[|evs| - 1];
      assert ev in evs && forall e | e in before :: e in evs;
      TimerIsLive(c, before);
      LiveStep(c, Run(c, INITIAL_PICTURE, before), ev);
    }
  }

  // ----- Coming to rest -----

  /** A fire shows the stable state again and restarts the timer only for a blinking state. */
  lemma FireRestarts(c: Config, p: Picture, env: Env)
    requires c.LedsEnabled() && p.ctl.ledTimer && p.ctl.stable.Stable()
    ensures Step(c, p, LedFire(env)).ctl
            == p.ctl.(ledTimer := p.ctl.stable.Blinking() && env.start.Ok())
  {
  }

  predicate RestartsSucceed(evs: seq<LedEvent>) { forall ev | ev in evs && ev.LedFire? :: ev.env.start.Ok() }

  /** With no further calls, the LED timer is running after some fires exactly when the stable state blinks
      and every restart succeeded. So a non-blinking state stops it for good, and so does one failed
      restart, whose error no caller sees. */
  lemma {:induction false} RestsExactly(c: Config, p: Picture, env: Env, evs: seq<LedEvent>)
    requires c.LedsEnabled() && p.ctl.ledTimer && p.ctl.stable.Stable()
    requires forall ev | ev in evs :: Fire(ev)
    ensures Run(c, Step(c, p, LedFire(env)), evs).ctl
            == p.ctl.(ledTimer := p.ctl.stable.Blinking() && env.start.Ok() && RestartsSucceed(evs))
  {
    FireRestarts(c, p, env);
    if evs != [] {
      var before, ev := evs[..|evs| - 1], evs[|evs| - 1];
      assert forall e :: e in evs <==> e in before || e == ev by { assert evs == before + [ev]; }
      assert ev in evs;
      RestsExactly(c, p, env, before);
      var q := Run(c, Step(c, p, LedFire(env)), before);
      if ev.LedFire? && q.ctl.ledTimer {
        FireRestarts(c, q, ev.env);
      }
    }
  }

  /** Showing a non-blinking state again changes nothing, and touches nothing but the alert LED if that
      had changed in between. */
  lemma ShowTwice(b: Board, i: Indication, env: Env, env': Env, mask: Word, lit: Word, lit': Word)
    requires i.Stable() && !i.Blinking()
    requires lit' - {b.Alert()} == NextLit(b, i, env, mask, lit) - {b.Alert()}
    ensures NextLit(b, i, env', mask, lit') - {b.Alert()} == NextLit(b, i, env, mask, lit) - {b.Alert()}
    ensures lit' == NextLit(b, i, env, mask, lit) ==> NextLit(b, i, env', mask, lit') == lit'
  {
  }

  lemma {:induction false} ReplayKeepsPicture(c: Config, p: Picture, i: Indication, env: Env, evs: seq<LedEvent>)
    requires c.LedsEnabled() && i.Stable() && !i.Blinking()
    requires forall ev | ev in evs :: Fire(ev)
    ensures
      var shown := Step(c, p, Indicate(i, env));
      var later := Run(c, shown, evs);
      && later.ctl.stable == i && later.ctl.alertMask == p.ctl.alertMask
      && later.lit - {c.board.Alert()} == shown.lit - {c.board.Alert()}
      && ((forall ev | ev in evs :: ev.LedFire?) ==> later.lit == shown.lit)
  {
    if evs != [] {
      var before, ev := evs[..|evs| - 1], evs[|evs| - 1];
      assert ev in evs && forall e | e in before :: e in evs;
      ReplayKeepsPicture(c, p, i, env, before);
      if ev.LedFire? {
        var q := Run(c, Step(c, p, Indicate(i, env)), before);
        ShowTwice(c.board, i, env, ev.env, p.ctl.alertMask, p.lit, q.lit);
      }
    }
  }

  /** A stale LED timer, left running from an earlier state, cannot change a non-blinking picture once it is
      shown: the OUT register stays as it is, and with alert ticks in between only the alert pin moves. */
  lemma ReplayIsIdempotent(c: Config, d: Device, i: Indication, env: Env, evs: seq<LedEvent>)
    requires c.board.Valid() && c.LedsEnabled() && i.Stable() && !i.Blinking()
    requires forall ev | ev in evs :: Fire(ev)
    ensures
      var shown := DeviceStep(c, d, Indicate(i, env));
      var later := DeviceRun(c, shown, evs);
      && later.out - {c.board.Alert()} == shown.out - {c.board.Alert()}
      && ((forall ev | ev in evs :: ev.LedFire?) ==> later.out == shown.out)
  {
    var b, shown := c.board, DeviceStep(c, d, Indicate(i, env));
    var later, kept := DeviceRun(c, shown, evs), (forall ev | ev in evs :: ev.LedFire?);
    assert && later.out - b.leds == shown.out - b.leds
           && Lit(b, later.out) - {b.Alert()} == Lit(b, shown.out) - {b.Alert()}
           && (kept ==> Lit(b, later.out) == Lit(b, shown.out)) by {
      StepRefines(c, d, Indicate(i, env));
      RunRefines(c, shown, evs);
      ReplayKeepsPicture(c, Abstract(b, d), i, env, evs);
    }
    OutDetermined(b, later.out, shown.out, {b.Alert()});
    if kept {
      OutDetermined(b, later.out, shown.out, {});
      assert later.out == later.out - {} && shown.out == shown.out - {};
    }
  }
}
