/** What the LEDs show, as counts over the calls and fires so far: no register, no mask, and no question whether a
    timer was running. */
module History {
  import opened Common
  import opened Boards
  import opened Indications
  import opened LedMachine
  import opened Alerts
  import opened Blink

  // ----- Positions and counts in a run -----

  /** Kinds of events; `SteadyCall` is a call that leaves LED 0 steady, `Showing` a state shown by a call or a fire. */
  datatype Kind = Packet | AlertCall | LinkCall | SteadyCall | StableCall | Tick | Showing

  predicate Is(ev: LedEvent, kind: Kind) {
    match kind
    case Packet => ev.Indicate? && ev.indication.Packet()
    case AlertCall => ev.Indicate? && ev.indication.IsAlert()
    case LinkCall => ev.Indicate? && ev.indication.Link()
    case SteadyCall => ev.Indicate? && (ev.indication.Idle? || ev.indication.Connected?)
    case StableCall => ev.Indicate? && ev.indication.Stable()
    case Tick => ev.AlertFire?
    case Showing => ev.LedFire? || (ev.Indicate? && ev.indication.Stable())
  }

  /** The last event of a kind. */
  function LastOf(evs: seq<LedEvent>, kind: Kind): (last: Option<LedEvent>)
    ensures last.Some? ==> Is(last.value, kind)
  {
    if evs == [] then None
    else if Is(evs[|evs| - 1], kind) then Some(evs[|evs| - 1])
    else LastOf(evs[..|evs| - 1], kind)
  }

  /** The events after the last one of a kind, or all of them if there is none. */
  function Since(evs: seq<LedEvent>, kind: Kind): seq<LedEvent> {
    if evs == [] || Is(evs[|evs| - 1], kind) then [] else Since(evs[..|evs| - 1], kind) + [evs[|evs| - 1]]
  }

  function Count(evs: seq<LedEvent>, kind: Kind): nat {
    if evs == [] then 0 else Count(evs[..|evs| - 1], kind) + if Is(evs[|evs| - 1], kind) then 1 else 0
  }

  // ----- The LEDs -----

  /** How often a blinking state is shown: by the calls for one, and by the fires from the first such call on. */
  function BlinkShows(evs: seq<LedEvent>): nat {
    if evs == [] then 0 else NextShows(BlinkShows(evs[..|evs| - 1]), evs[|evs| - 1])
  }

  function NextShows(shows: nat, ev: LedEvent): nat {
    if (ev.Indicate? && ev.indication.Blinking()) || (ev.LedFire? && shows > 0) then shows + 1 else shows
  }

  /** LED 0 as the last call for Idle or Connected left it. */
  predicate SteadyLit(evs: seq<LedEvent>) {
    var steady := LastOf(evs, SteadyCall);
    steady.Some? && steady.value.Indicate? && steady.value.indication.Connected?
  }

  /** LED 0 is as that call left it, toggled each time a blinking state is shown since. */
  function Led0Lit(evs: seq<LedEvent>): bool {
    SteadyLit(evs) != (BlinkShows(Since(evs, SteadyCall)) % 2 == 1)
  }

  /** LED 1 is lit after an odd number of packets since a state was last shown. */
  function Led1Lit(evs: seq<LedEvent>): bool { Count(Since(evs, Showing), Packet) % 2 == 1 }

  /** Whether a call raises an alert. */
  predicate RaisingCall(call: Option<LedEvent>) {
    call.Some? && Is(call.value, AlertCall) && Raises(call.value.indication, call.value.env)
  }

  /** Whether it raises one that ticks. */
  predicate TickingCall(call: Option<LedEvent>) {
    RaisingCall(call) && !call.value.indication.Alert3? && call.value.env.start.Ok()
  }

  /** The alert LED is lit if the last alert call raised the alert and, where it ticks, an even number of ticks has
      come since. */
  function AlertLit(evs: seq<LedEvent>): bool {
    AlertAfter(LastOf(evs, AlertCall), Count(Since(evs, AlertCall), Tick))
  }

  predicate AlertAfter(call: Option<LedEvent>, ticks: nat) {
    RaisingCall(call) && (TickingCall(call) ==> ticks % 2 == 0)
  }

  /** The link state called for last. */
  function LinkState(evs: seq<LedEvent>): Indication {
    match LastOf(evs, LinkCall)
    case Some(Indicate(i, _)) => i
    case _ => Idle
  }

  predicate NoTakeover(evs: seq<LedEvent>) { forall ev | ev in evs && ev.Indicate? :: !ev.indication.Takeover() }

  /** On a board with LED 2, on every run without a takeover whose LED timer starts succeed and whose alert timer
      stops take effect, the lit LEDs are exactly those the counts say. */
  lemma HistoryDetermines(c: Config, evs: seq<LedEvent>)
    requires c.board.Valid() && c.LedsEnabled() && c.board.led2.Some?
    requires NoTakeover(evs) && StartsSucceed(evs) && StopsTakeEffect(evs)
    ensures
      var lit := Run(c, INITIAL_PICTURE, evs).lit;
      && (c.board.led0 in lit <==> Led0Lit(evs))
      && (c.board.led1 in lit <==> Led1Lit(evs))
      && (c.board.Alert() in lit <==> AlertLit(evs))
      && lit <= {c.board.led0, c.board.led1, c.board.Alert()}
  {
    RunsInStep(c, evs);
    MemoryIsCounts(evs);
    PendingIsCount(evs);
  }

  // ----- One step at a time -----

  /** What has to be carried from one step to the next, besides the pending packets. */
  datatype Memory = Memory(state: Indication, led0: bool, alert: bool, ticks: bool)

  const FORGOTTEN: Memory := Memory(Idle, false, false, false)

  /** A state is shown: LED 0 is dark for Idle, lit for Connected and toggled for a blinking state. */
  function Show(h: Memory, i: Indication): Memory {
    h.(state := i, led0 := i.Connected? || (i.Blinking() && !h.led0))
  }

  function Remember(h: Memory, ev: LedEvent): Memory {
    match ev
    case LedFire(_) => Show(h, h.state)
    case AlertFire => h.(alert := h.alert != h.ticks)
    case Indicate(i, env) =>
      if i.Link() then Show(h, i)
      else if i.IsAlert() then
        h.(alert := Raises(i, env), ticks := Raises(i, env) && !i.Alert3? && env.start.Ok())
      else h
  }

  function MemoryOf(evs: seq<LedEvent>): Memory {
    if evs == [] then FORGOTTEN else Remember(MemoryOf(evs[..|evs| - 1]), evs[|evs| - 1])
  }

  function Shown(b: Board, h: Memory, packets: nat): Word {
    (if h.led0 then {b.led0} else {})
    + (if packets % 2 == 1 then {b.led1} else {})
    + (if h.alert then {b.Alert()} else {})
  }

  /** The LED timer's side of the control state agrees with the history. */
  predicate TimerInStep(ctl: Control, h: Memory, packets: nat) {
    && ctl.stable == h.state && h.state.Link()
    && (h.state.Idle? ==> !h.led0) && (h.state.Connected? ==> h.led0)
    && (h.state.Blinking() || packets > 0 ==> ctl.ledTimer)
  }

  /** The alerts' side. */
  predicate AlertInStep(b: Board, ctl: Control, h: Memory) {
    MaskValid(b, ctl) && (ctl.alertMask == {} ==> !h.alert) && ctl.alertTimer == h.ticks
  }

  lemma TimerStaysInStep(c: Config, p: Picture, h: Memory, packets: nat, ev: LedEvent)
    requires c.LedsEnabled() && TimerInStep(p.ctl, h, packets)
    requires NoTakeover([ev]) && StartsSucceed([ev])
    ensures TimerInStep(Step(c, p, ev).ctl, Remember(h, ev), NextPending(packets, ev))
  {
    assert ev in [ev];
  }

  lemma AlertStaysInStep(c: Config, p: Picture, h: Memory, ev: LedEvent)
    requires c.LedsEnabled() && AlertInStep(c.board, p.ctl, h) && p.ctl.stable.Link()
    requires StopsTakeEffect([ev])
    ensures AlertInStep(c.board, Step(c, p, ev).ctl, Remember(h, ev))
  {
    assert ev in [ev];
  }

  /** Showing a link state: only LED 0 and an active alert may stay lit. */
  lemma ShowInStep(b: Board, h: Memory, packets: nat, i: Indication, env: Env, mask: Word)
    requires b.Valid() && b.led2.Some? && i.Link()
    requires mask == {b.Alert()} || (mask == {} && !h.alert)
    ensures NextLit(b, i, env, mask, Shown(b, h, packets)) == Shown(b, Show(h, i), 0)
  {
  }

  lemma PictureStaysInStep(c: Config, p: Picture, h: Memory, packets: nat, ev: LedEvent)
    requires c.board.Valid() && c.LedsEnabled() && c.board.led2.Some? && NoTakeover([ev])
    requires TimerInStep(p.ctl, h, packets) && AlertInStep(c.board, p.ctl, h) && p.lit == Shown(c.board, h, packets)
    ensures Step(c, p, ev).lit == Shown(c.board, Remember(h, ev), NextPending(packets, ev))
  {
    assert ev in [ev];
    if ev.LedFire? {
      ShowInStep(c.board, h, packets, h.state, ev.env, p.ctl.alertMask);
    } else if ev.Indicate? && ev.indication.Link() {
      ShowInStep(c.board, h, packets, ev.indication, ev.env, p.ctl.alertMask);
    }
  }

  lemma {:induction false} RunsInStep(c: Config, evs: seq<LedEvent>)
    requires c.board.Valid() && c.LedsEnabled() && c.board.led2.Some?
    requires NoTakeover(evs) && StartsSucceed(evs) && StopsTakeEffect(evs)
    ensures
      var p, h, packets := Run(c, INITIAL_PICTURE, evs), MemoryOf(evs), PendingPackets(evs);
      TimerInStep(p.ctl, h, packets) && AlertInStep(c.board, p.ctl, h) && p.lit == Shown(c.board, h, packets)
  {
    if evs != [] {
      var before, ev := evs[..|evs| - 1], evs[|evs| - 1];
      assert ev in evs && forall e | e in before :: e in evs;
      RunsInStep(c, before);
      var p, h, packets := Run(c, INITIAL_PICTURE, before), MemoryOf(before), PendingPackets(before);
      TimerStaysInStep(c, p, h, packets, ev);
      AlertStaysInStep(c, p, h, ev);
      PictureStaysInStep(c, p, h, packets, ev);
    }
  }

  // ----- The steps add up to the counts -----

  /** The last event in the positions and counts. */
  lemma LastStep(evs: seq<LedEvent>, kind: Kind, counted: Kind)
    requires evs != []
    ensures
      var before, ev := evs[..|evs| - 1], evs[|evs| - 1];
      && LastOf(evs, kind) == (if Is(ev, kind) then Some(ev) else LastOf(before, kind))
      && Count(Since(evs, kind), counted) ==
         (if Is(ev, kind) then 0 else Count(Since(before, kind), counted) + if Is(ev, counted) then 1 else 0)
      && BlinkShows(Since(evs, kind)) == (if Is(ev, kind) then 0 else NextShows(BlinkShows(Since(before, kind)), ev))
  {
    var before, ev := evs[..|evs| - 1], evs[|evs| - 1];
    if !Is(ev, kind) {
      SnocCount(Since(before, kind), ev, counted);
    }
  }

  lemma SnocCount(evs: seq<LedEvent>, ev: LedEvent, counted: Kind)
    ensures Count(evs + [ev], counted) == Count(evs, counted) + if Is(ev, counted) then 1 else 0
    ensures BlinkShows(evs + [ev]) == NextShows(BlinkShows(evs), ev)
  {
    assert (evs + [ev])[..|evs|] == evs;
  }

  lemma {:induction false} PendingIsCount(evs: seq<LedEvent>)
    ensures PendingPackets(evs) == Count(Since(evs, Showing), Packet)
  {
    if evs != [] {
      PendingIsCount(evs[..|evs| - 1]);
      LastStep(evs, Showing, Packet);
    }
  }

  function Counts(evs: seq<LedEvent>): Memory {
    Memory(LinkState(evs), Led0Lit(evs), AlertLit(evs), TickingCall(LastOf(evs, AlertCall)))
  }

  /** A blinking state has been shown as such, and a steady one decides LED 0. */
  predicate Settled(evs: seq<LedEvent>) {
    SettledAt(LinkState(evs), SteadyLit(evs), BlinkShows(Since(evs, SteadyCall)))
  }

  predicate SettledAt(state: Indication, steady: bool, shows: nat) {
    state.Link() && (state.Blinking() <==> shows > 0) && (!state.Blinking() ==> state.Connected? == steady)
  }

  lemma {:induction false} MemoryIsCounts(evs: seq<LedEvent>)
    requires NoTakeover(evs)
    ensures MemoryOf(evs) == Counts(evs) && Settled(evs)
  {
    if evs != [] {
      var before, ev := evs[..|evs| - 1], evs[|evs| - 1];
      assert ev in evs && forall e | e in before :: e in evs;
      MemoryIsCounts(before);
      AlertNext(Counts(before), evs);
      Led0Next(evs);
    }
  }

  /** The alert LED follows the last alert call and flips with every tick of it. */
  lemma AlertNext(h: Memory, evs: seq<LedEvent>)
    requires evs != [] && NoTakeover(evs)
    requires h.alert == AlertLit(evs[..|evs| - 1]) && h.ticks == TickingCall(LastOf(evs[..|evs| - 1], AlertCall))
    ensures
      var h' := Remember(h, evs[|evs| - 1]);
      h'.alert == AlertLit(evs) && h'.ticks == TickingCall(LastOf(evs, AlertCall))
  {
    var before, ev := evs[..|evs| - 1], evs[|evs| - 1];
    assert ev in evs;
    LastStep(evs, AlertCall, Tick);
    AlertArithmetic(h, LastOf(before, AlertCall), Count(Since(before, AlertCall), Tick), ev,
                    LastOf(evs, AlertCall), Count(Since(evs, AlertCall), Tick));
  }

  lemma AlertArithmetic(h: Memory, call: Option<LedEvent>, ticks: nat, ev: LedEvent,
                        call': Option<LedEvent>, ticks': nat)
    requires h.alert == AlertAfter(call, ticks) && h.ticks == TickingCall(call)
    requires ev.Indicate? ==> !ev.indication.Takeover()
    requires call' == if Is(ev, AlertCall) then Some(ev) else call
    requires ticks' == if Is(ev, AlertCall) then 0 else ticks + if Is(ev, Tick) then 1 else 0
    ensures
      var h' := Remember(h, ev);
      h'.alert == AlertAfter(call', ticks') && h'.ticks == TickingCall(call')
  {
  }

  /** LED 0 follows the shows of the link state called for last. */
  lemma Led0Next(evs: seq<LedEvent>)
    requires evs != [] && NoTakeover(evs) && Settled(evs[..|evs| - 1])
    ensures
      var h := Remember(Counts(evs[..|evs| - 1]), evs[|evs| - 1]);
      h.state == LinkState(evs) && h.led0 == Led0Lit(evs)
    ensures Settled(evs)
  {
    var before, ev := evs[..|evs| - 1], evs[|evs| - 1];
    assert ev in evs;
    LastStep(evs, LinkCall, Tick);
    LastStep(evs, SteadyCall, Tick);
    Led0Arithmetic(Counts(before), SteadyLit(before), BlinkShows(Since(before, SteadyCall)), ev);
  }

  lemma Led0Arithmetic(h: Memory, steady: bool, shows: nat, ev: LedEvent)
    requires SettledAt(h.state, steady, shows) && h.led0 == (steady != (shows % 2 == 1))
    requires ev.Indicate? ==> !ev.indication.Takeover()
    ensures
      var h' := Remember(h, ev);
      var shows' := if Is(ev, SteadyCall) then 0 else NextShows(shows, ev);
      var steady' := if Is(ev, SteadyCall) then ev.indication.Connected? else steady;
      && SettledAt(h'.state, steady', shows') && h'.led0 == (steady' != (shows' % 2 == 1))
      && h'.state == if Is(ev, LinkCall) then ev.indication else h.state
  {
  }
}
