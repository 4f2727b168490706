/** The ANT button module: whether the channel is connected decides what releasing button 3 means. */
module AntMode {
  import opened Common
  import opened Boards
  import opened Buttons

  const BTN_ID_WAKEUP: Pin := 3
  const BTN_ID_SLEEP: uint32 := 3

  datatype AntEvt = Rx | RxFailGoToSearch | OtherEvt

  datatype Ant = Ant(buttons: ButtonState, connected: bool)

  datatype AntEvent = Board(ev: ButtonEvent) | Channel(evt: AntEvt) | AntInit

  /** Binding button 3's release, as both configuration functions do. */
  function Configure(s: ButtonState, event: Event): (s': ButtonState)
    ensures |s'.table| == |s.table| && s'.guard == s.guard
  {
    s.(table := Bind(s.table, BTN_ID_SLEEP, ReleaseAction, event).0)
  }

  /** The error filter of the configuration functions: an invalid parameter counts as success. */
  function Tolerate(err: uint32): uint32 {
    if err == NRF_SUCCESS || err == NRF_ERROR_INVALID_PARAM then NRF_SUCCESS else err
  }

  function AntStep(pins: seq<Pin>, s: Ant, ev: AntEvent): (s': Ant)
    requires |s.buttons.table| == |s.buttons.guard| == |pins|
    ensures |s'.buttons.table| == |s'.buttons.guard| == |pins|
  {
    match ev
    case Board(e) => s.(buttons := ButtonStep(pins, s.buttons, e))
    case Channel(Rx) => Ant(if s.connected then s.buttons else Configure(s.buttons, Default), true)
    case Channel(RxFailGoToSearch) => Ant(Configure(s.buttons, Sleep), false)
    case Channel(OtherEvt) => s
    case AntInit => s.(buttons := Configure(s.buttons, if s.connected then Default else Sleep))
  }

  function AntRun(pins: seq<Pin>, s: Ant, evs: seq<AntEvent>): (s': Ant)
    requires |s.buttons.table| == |s.buttons.guard| == |pins|
    ensures |s'.buttons.table| == |s'.buttons.guard| == |pins|
  {
    if evs == [] then s else AntStep(pins, AntRun(pins, s, evs[..|evs| - 1]), evs[|evs| - 1])
  }

  /** Configuring never fails, and without a fourth button it does nothing. */
  lemma ConfigureAlwaysSucceeds(s: ButtonState, event: Event)
    ensures Tolerate(Bind(s.table, BTN_ID_SLEEP, ReleaseAction, event).1) == NRF_SUCCESS
    ensures |s.table| <= 3 ==> Configure(s, event) == s
  {
  }

  // ----- The channel -----

  /** The channel is connected if its last event among reception and loss was a reception. */
  predicate ConnectedAfter(start: bool, evs: seq<AntEvent>) {
    if evs == [] then start
    else
      match evs[|evs| - 1]
      case Channel(Rx) => true
      case Channel(RxFailGoToSearch) => false
      case _ => ConnectedAfter(start, evs[..|evs| - 1])
  }

  lemma {:induction false} FlagIsLastChannelEvent(pins: seq<Pin>, s: Ant, evs: seq<AntEvent>)
    requires Shaped(pins, s.buttons)
    ensures AntRun(pins, s, evs).connected == ConnectedAfter(s.connected, evs)
  {
    if evs != [] {
      FlagIsLastChannelEvent(pins, s, evs[..|evs| - 1]);
    }
  }

  // ----- Everything but the release of button 3 -----

  /** What the button driver, the long-push timer and other callers do. */
  function BoardPart(evs: seq<AntEvent>): seq<ButtonEvent> {
    if evs == [] then []
    else BoardPart(evs[..|evs| - 1]) + if evs[|evs| - 1].Board? then [evs[|evs| - 1].ev] else []
  }

  predicate AgreeBut3(x: ButtonState, y: ButtonState) {
    && |x.table| == |y.table| == |x.guard| == |y.guard| && x.longPin == y.longPin && x.timer == y.timer
    && (forall i | 0 <= i < |x.table| ::
          && x.table[i].push == y.table[i].push && x.table[i].longPush == y.table[i].longPush
          && (i != 3 ==> x.table[i].release == y.table[i].release && x.guard[i] == y.guard[i]))
  }

  /** The module disturbs nothing else: apart from the release of button 3 and its guard, the buttons are as if
      it were not there, and entirely so on a board without a fourth button. */
  lemma {:induction false} OthersUndisturbed(pins: seq<Pin>, s: Ant, evs: seq<AntEvent>)
    requires Shaped(pins, s.buttons)
    ensures
      var with, without := AntRun(pins, s, evs).buttons, ButtonRun(pins, s.buttons, BoardPart(evs));
      AgreeBut3(with, without) && (|pins| <= 3 ==> with == without)
  {
    if evs != [] {
      var before, ev := evs[..|evs| - 1], evs[|evs| - 1];
      OthersUndisturbed(pins, s, before);
      var with, without := AntRun(pins, s, before), ButtonRun(pins, s.buttons, BoardPart(before));
      if ev.Board? {
        BoardStepAgrees(pins, with.buttons, without, ev.ev);
        assert BoardPart(evs)[..|BoardPart(evs)| - 1] == BoardPart(before);
      } else {
        ChannelStepAgrees(pins, with, ev);
        assert BoardPart(evs) == BoardPart(before);
      }
    }
  }

  lemma BoardStepAgrees(pins: seq<Pin>, x: ButtonState, y: ButtonState, ev: ButtonEvent)
    requires Shaped(pins, x) && AgreeBut3(x, y)
    ensures AgreeBut3(ButtonStep(pins, x, ev), ButtonStep(pins, y, ev))
  {
  }

  lemma ChannelStepAgrees(pins: seq<Pin>, s: Ant, ev: AntEvent)
    requires Shaped(pins, s.buttons) && !ev.Board?
    ensures
      var s' := AntStep(pins, s, ev).buttons;
      AgreeBut3(s', s.buttons) && (|pins| <= 3 ==> s' == s.buttons)
  {
  }

  // ----- The release of button 3, whoever binds it -----

  /** What an event binds button 3's release to, if it does, depending on whether the channel is connected. */
  function BindsTo(connected: bool, ev: AntEvent): Option<Event> {
    match ev
    case Board(e) =>
      if Binds(e, 3, ReleaseAction) then Some(if e.event == Default then Nothing else e.event) else None
    case Channel(Rx) => if connected then None else Some(Nothing)
    case Channel(RxFailGoToSearch) => Some(Sleep)
    case Channel(OtherEvt) => None
    case AntInit => Some(if connected then Nothing else Sleep)
  }

  /** The last such binding. */
  function BoundAfter(s: Ant, evs: seq<AntEvent>): Event
    requires |s.buttons.table| > 3
  {
    if evs == [] then s.buttons.table[3].release
    else
      var before := evs[..|evs| - 1];
      match BindsTo(ConnectedAfter(s.connected, before), evs[|evs| - 1])
      case Some(e) => e
      case None => BoundAfter(s, before)
  }

  /** The last such binding at the time of the last push of button 3. */
  function BoundAtPush(pins: seq<Pin>, s: Ant, evs: seq<AntEvent>): Event
    requires |s.buttons.table| == |s.buttons.guard| == |pins| > 3
  {
    if evs == [] then s.buttons.guard[3]
    else
      var before, ev := evs[..|evs| - 1], evs[|evs| - 1];
      if ev.Board? && PushOf(pins, ev.ev, 3) then BoundAfter(s, before) else BoundAtPush(pins, s, before)
  }

  lemma {:induction false} BindingIsHistory(pins: seq<Pin>, s: Ant, evs: seq<AntEvent>)
    requires |pins| > 3 && Shaped(pins, s.buttons)
    ensures
      var now := AntRun(pins, s, evs).buttons;
      now.table[3].release == BoundAfter(s, evs) && now.guard[3] == BoundAtPush(pins, s, evs)
  {
    if evs != [] {
      var before, ev := evs[..|evs| - 1], evs[|evs| - 1];
      BindingIsHistory(pins, s, before);
      FlagIsLastChannelEvent(pins, s, before);
      Button3Step(pins, AntRun(pins, s, before), ev);
    }
  }

  lemma Button3Step(pins: seq<Pin>, s: Ant, ev: AntEvent)
    requires |pins| > 3 && Shaped(pins, s.buttons)
    ensures
      var s' := AntStep(pins, s, ev).buttons;
      && s'.table[3].release == (match BindsTo(s.connected, ev)
                                 case Some(e) => e
                                 case None => s.buttons.table[3].release)
      && s'.guard[3] == (if ev.Board? && PushOf(pins, ev.ev, 3) then s.buttons.table[3].release
                         else s.buttons.guard[3])
  {
  }

  /** On every run, even if others bind button 3 as well: releasing it raises the event of the last binding, made by
      whomever, exactly if there is one, a callback is registered, and it was also the last at the last push. */
  lemma Release3Exactly(pins: seq<Pin>, callback: bool, s: Ant, evs: seq<AntEvent>, answer: Answer)
    requires Distinct(pins) && |pins| > 3 && Shaped(pins, s.buttons)
    ensures
      var now := BoundAfter(s, evs);
      Raised(pins, callback, AntRun(pins, s, evs).buttons, Report(pins[3], ReleaseAction, answer))
      == if callback && now != Nothing && now == BoundAtPush(pins, s, evs) then Some(now) else None
  {
    BindingIsHistory(pins, s, evs);
    ButtonOfIndex(pins, 3);
  }

  // ----- Sleep -----

  /** Nobody but this module binds button 3's release. */
  predicate LeavesSleepAlone(evs: seq<AntEvent>) {
    forall ev | ev in evs && ev.Board? :: !Binds(ev.ev, 3, ReleaseAction)
  }

  /** Whether the channel was searching when button 3 was last pushed; before any push, whether its guard was Sleep
      at the start, which it never is at power-up. */
  predicate LastPushSearching(pins: seq<Pin>, s: Ant, evs: seq<AntEvent>)
    requires |s.buttons.guard| > 3
  {
    if evs == [] then s.buttons.guard[3] == Sleep
    else
      var before, ev := evs[..|evs| - 1], evs[|evs| - 1];
      if ev.Board? && PushOf(pins, ev.ev, 3) then !ConnectedAfter(s.connected, before)
      else LastPushSearching(pins, s, before)
  }

  /** Left to the module, button 3's release is bound to Sleep exactly while the channel is searching. */
  lemma {:induction false} SleepBinding(pins: seq<Pin>, s: Ant, evs: seq<AntEvent>)
    requires |pins| > 3 && Shaped(pins, s.buttons) && LeavesSleepAlone(evs)
    ensures
      var start := AntStep(pins, s, AntInit);
      && BoundAfter(start, evs) == (if ConnectedAfter(s.connected, evs) then Nothing else Sleep)
      && (BoundAtPush(pins, start, evs) == Sleep <==> LastPushSearching(pins, start, evs))
  {
    if evs != [] {
      var before, ev := evs[..|evs| - 1], evs[|evs| - 1];
      assert ev in evs && forall e | e in before :: e in evs;
      SleepBinding(pins, s, before);
    }
  }

  /** Releasing button 3 asks for sleep exactly when a callback is registered, the channel is searching, and it
      was also searching when button 3 was last pushed. The channel may have connected and gone back to
      searching any number of times in between. */
  lemma SleepExactly(pins: seq<Pin>, callback: bool, s: Ant, evs: seq<AntEvent>, answer: Answer)
    requires Distinct(pins) && |pins| > 3 && Shaped(pins, s.buttons) && LeavesSleepAlone(evs)
    ensures
      var start := AntStep(pins, s, AntInit);
      Raised(pins, callback, AntRun(pins, start, evs).buttons, Report(pins[3], ReleaseAction, answer))
      == if callback && !ConnectedAfter(s.connected, evs) && LastPushSearching(pins, start, evs)
         then Some(Sleep) else None
  {
    Release3Exactly(pins, callback, AntStep(pins, s, AntInit), evs, answer);
    SleepBinding(pins, s, evs);
  }
}
