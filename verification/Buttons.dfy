/** Buttons: the event table, the release guard captured at push time, and the long-push timer that all
    buttons share. */
module Buttons {
  import opened Common
  import opened Boards

  datatype Event =
    | Nothing
    | Default
    | ClearBondingData
    | ClearAlert
    | Disconnect
    | AdvertisingStart
    | AdvertisingStop
    | WhitelistOff
    | Bond
    | Reset
    | Sleep
    | Wakeup
    | Dfu
    | Key(n: nat)

  /** `Other` stands for an action code that is none of the three. */
  datatype Action = PushAction | ReleaseAction | LongPushAction | OtherAction

  datatype ButtonCfg = ButtonCfg(push: Event, longPush: Event, release: Event)

  /** `guard` holds each button's release binding as of its last push; `longPin` is the pin a long push
      will be attributed to. */
  datatype ButtonState = ButtonState(table: seq<ButtonCfg>, guard: seq<Event>, longPin: Pin, timer: bool)

  /** What can happen: the button driver reports an action on a pin, the long-push timer expires, or a
      caller binds an event. An expiry of a timer that is not running does not happen. */
  datatype ButtonEvent =
    | Report(pin: Pin, action: Action, answer: Answer)
    | Expire
    | Assign(button: uint32, action: Action, event: Event)

  ghost predicate Distinct(pins: seq<Pin>) { forall i, j | 0 <= i < j < |pins| :: pins[i] != pins[j] }

  ghost predicate Shaped(pins: seq<Pin>, s: ButtonState) { |s.table| == |s.guard| == |pins| }

  /** The first button on a pin, or the number of buttons if there is none. */
  function ButtonOf(pins: seq<Pin>, pin: Pin): (b: nat)
    ensures b <= |pins| && (b < |pins| ==> pins[b] == pin)
    ensures forall j | 0 <= j < b :: pins[j] != pin
  {
    if pins == [] || pins[0] == pin then 0 else
    var b := 1 + ButtonOf(pins[1..], pin);
    assert forall j | 1 <= j < b :: pins[j] == pins[1..][j - 1];
    b
  }

  // ----- Handling one report -----

  /** State change of `bsp_button_event_handler`. */
  function Handle(pins: seq<Pin>, s: ButtonState, pin: Pin, action: Action, answer: Answer): (s': ButtonState)
    requires |s.table| == |s.guard| == |pins|
    ensures |s'.table| == |s'.guard| == |pins|
  {
    var b := ButtonOf(pins, pin);
    if b == |pins| then s else
    match action
    case PushAction =>
      var arms := s.table[b].longPush != Nothing;
      s.(guard := s.guard[b := s.table[b].release],
         timer := if arms then AfterStart(s.timer, answer) else s.timer,
         longPin := if arms && answer.Ok() then pin else s.longPin)
    case ReleaseAction =>
      s.(timer := AfterStop(s.timer, answer))
    case LongPushAction => s
    case OtherAction => s
  }

  /** The event `bsp_button_event_handler` passes to the callback, if any. */
  function Delivered(pins: seq<Pin>, callback: bool, s: ButtonState, pin: Pin, action: Action): Option<Event>
    requires |s.table| == |s.guard| == |pins|
  {
    var b := ButtonOf(pins, pin);
    var event :=
      if b == |pins| then Nothing else
      match action
      case PushAction => s.table[b].push
      case ReleaseAction => if s.guard[b] == s.table[b].release then s.table[b].release else Nothing
      case LongPushAction => s.table[b].longPush
      case OtherAction => Nothing;
    if event != Nothing && callback then Some(event) else None
  }

  /** `bsp_event_to_button_action_assign`: the new table and the return code. */
  function Bind(table: seq<ButtonCfg>, button: uint32, action: Action, event: Event): (r: (seq<ButtonCfg>, uint32))
    ensures |r.0| == |table|
  {
    if button >= |table| then (table, NRF_ERROR_INVALID_PARAM) else
    var e := if event != Default then event else if action.PushAction? then Key(button) else Nothing;
    match action
    case PushAction => (table[button := table[button].(push := e)], NRF_SUCCESS)
    case LongPushAction => (table[button := table[button].(longPush := e)], NRF_SUCCESS)
    case ReleaseAction => (table[button := table[button].(release := e)], NRF_SUCCESS)
    case OtherAction => (table, NRF_ERROR_INVALID_PARAM)
  }

  // ----- Runs -----

  function ButtonStep(pins: seq<Pin>, s: ButtonState, ev: ButtonEvent): (s': ButtonState)
    requires |s.table| == |s.guard| == |pins|
    ensures |s'.table| == |s'.guard| == |pins|
  {
    match ev
    case Report(pin, action, answer) => Handle(pins, s, pin, action, answer)
    case Expire => s.(timer := false)
    case Assign(button, action, event) => s.(table := Bind(s.table, button, action, event).0)
  }

  /** What the callback receives from an event: an expiry is a long push of the remembered pin. */
  function Raised(pins: seq<Pin>, callback: bool, s: ButtonState, ev: ButtonEvent): Option<Event>
    requires |s.table| == |s.guard| == |pins|
  {
    match ev
    case Report(pin, action, _) => Delivered(pins, callback, s, pin, action)
    case Expire => if s.timer then Delivered(pins, callback, s, s.longPin, LongPushAction) else None
    case Assign(_, _, _) => None
  }

  function ButtonRun(pins: seq<Pin>, s: ButtonState, evs: seq<ButtonEvent>): (s': ButtonState)
    requires |s.table| == |s.guard| == |pins|
    ensures |s'.table| == |s'.guard| == |pins|
  {
    if evs == [] then s else ButtonStep(pins, ButtonRun(pins, s, evs[..|evs| - 1]), evs[|evs| - 1])
  }

  /** Before the first push: every guard empty and the long-push timer not running. */
  predicate Untouched(pins: seq<Pin>, s: ButtonState) {
    |s.table| == |s.guard| == |pins| && (forall e | e in s.guard :: e == Nothing) && !s.timer
  }

  /** After power-up. */
  function PowerUp(pins: seq<Pin>): (s: ButtonState)
    ensures Untouched(pins, s) && NoDefault(s.table)
  {
    ButtonState(seq(|pins|, _ => ButtonCfg(Nothing, Nothing, Nothing)), seq(|pins|, _ => Nothing), 0, false)
  }

  // ----- The event table -----

  predicate NoDefault(table: seq<ButtonCfg>) {
    forall cfg | cfg in table :: cfg.push != Default && cfg.longPush != Default && cfg.release != Default
  }

  /** One bind changes at most the field it names of the button it names, and reports success exactly when
      the button and the action exist. The default event is the key event for a push and nothing otherwise. */
  lemma BindChangesOneField(table: seq<ButtonCfg>, button: uint32, action: Action, event: Event, i: nat)
    requires i < |table|
    ensures
      var (table', err) := Bind(table, button, action, event);
      && |table'| == |table|
      && (err == NRF_SUCCESS <==> button < |table| && !action.OtherAction?)
      && (err != NRF_SUCCESS ==> err == 7 && table' == table)
      && (table'[i].push != table[i].push ==> button == i && action.PushAction?)
      && (table'[i].longPush != table[i].longPush ==> button == i && action.LongPushAction?)
      && (table'[i].release != table[i].release ==> button == i && action.ReleaseAction?)
      && (button == i ==>
            && (action.PushAction? ==> table'[i].push == if event == Default then Key(i) else event)
            && (action.LongPushAction? ==> table'[i].longPush == if event == Default then Nothing else event)
            && (action.ReleaseAction? ==> table'[i].release == if event == Default then Nothing else event))
  {
  }

  lemma {:induction false} TableHasNoDefault(pins: seq<Pin>, s: ButtonState, evs: seq<ButtonEvent>)
    requires Shaped(pins, s) && NoDefault(s.table)
    ensures NoDefault(ButtonRun(pins, s, evs).table)
  {
    if evs != [] {
      TableHasNoDefault(pins, s, evs[..|evs| - 1]);
    }
  }

  /** The callback is never given Nothing or Default, and never called when there is none. */
  lemma RaisedIsReal(pins: seq<Pin>, callback: bool, s: ButtonState, evs: seq<ButtonEvent>, next: ButtonEvent)
    requires Shaped(pins, s) && NoDefault(s.table)
    ensures
      var raised := Raised(pins, callback, ButtonRun(pins, s, evs), next);
      raised.Some? ==> callback && raised.value != Nothing && raised.value != Default
  {
    TableHasNoDefault(pins, s, evs);
  }

  // ----- Bindings over a run -----

  predicate Binds(ev: ButtonEvent, b: nat, action: Action) { ev.Assign? && ev.button == b && ev.action == action }

  /** The last bind of this action of button `b` is event `j`. */
  ghost predicate LastBindAt(evs: seq<ButtonEvent>, j: nat, b: nat, action: Action) {
    j < |evs| && Binds(evs[j], b, action) && (forall i | j < i < |evs| :: !Binds(evs[i], b, action))
  }

  /** Only binds of an action change its binding. */
  lemma StepKeepsBinding(pins: seq<Pin>, s: ButtonState, ev: ButtonEvent, b: nat)
    requires Shaped(pins, s) && b < |pins|
    ensures
      var cfg, cfg' := s.table[b], ButtonStep(pins, s, ev).table[b];
      && (!Binds(ev, b, PushAction) ==> cfg'.push == cfg.push)
      && (!Binds(ev, b, LongPushAction) ==> cfg'.longPush == cfg.longPush)
      && (!Binds(ev, b, ReleaseAction) ==> cfg'.release == cfg.release)
  {
  }

  /** A binding is what the last bind of it made it, whatever happened since. */
  lemma {:induction false} BindStays(pins: seq<Pin>, s: ButtonState, evs: seq<ButtonEvent>, j: nat, b: nat,
                                     action: Action)
    requires Shaped(pins, s) && b < |pins| && LastBindAt(evs, j, b, action)
    ensures
      var e, cfg := evs[j].event, ButtonRun(pins, s, evs).table[b];
      && (action.PushAction? ==> cfg.push == if e == Default then Key(b) else e)
      && (action.LongPushAction? ==> cfg.longPush == if e == Default then Nothing else e)
      && (action.ReleaseAction? ==> cfg.release == if e == Default then Nothing else e)
    decreases |evs|
  {
    var before := evs[..|evs| - 1];
    if j < |before| {
      BindStays(pins, s, before, j, b, action);
      StepKeepsBinding(pins, ButtonRun(pins, s, before), evs[|evs| - 1], b);
    }
  }

  /** Without one it is what it was before the run. */
  lemma {:induction false} NeverBoundStays(pins: seq<Pin>, s: ButtonState, evs: seq<ButtonEvent>, b: nat,
                                           action: Action)
    requires Shaped(pins, s) && b < |pins| && forall ev | ev in evs :: !Binds(ev, b, action)
    ensures
      var cfg := ButtonRun(pins, s, evs).table[b];
      && (action.PushAction? ==> cfg.push == s.table[b].push)
      && (action.LongPushAction? ==> cfg.longPush == s.table[b].longPush)
      && (action.ReleaseAction? ==> cfg.release == s.table[b].release)
  {
    if evs != [] {
      var before, ev := evs[..|evs| - 1], evs[|evs| - 1];
      assert ev in evs && forall e | e in before :: e in evs;
      NeverBoundStays(pins, s, before, b, action);
      StepKeepsBinding(pins, ButtonRun(pins, s, before), ev, b);
    }
  }

  // ----- Pushes -----

  /** After any run, pushing a button raises the event its push is bound to now, whatever else is bound, and
      exactly if there is one and a callback is registered. */
  lemma PushExactly(pins: seq<Pin>, callback: bool, s: ButtonState, evs: seq<ButtonEvent>, b: nat, answer: Answer)
    requires Distinct(pins) && Shaped(pins, s) && b < |pins|
    ensures
      var now := ButtonRun(pins, s, evs).table[b].push;
      Raised(pins, callback, ButtonRun(pins, s, evs), Report(pins[b], PushAction, answer))
      == if callback && now != Nothing then Some(now) else None
  {
    ButtonOfIndex(pins, b);
  }

  /** That is the event of the last bind, or the button's own key event if that bind gave the default. */
  lemma PushRaisesLastBind(pins: seq<Pin>, callback: bool, s: ButtonState, evs: seq<ButtonEvent>,
                           j: nat, b: nat, answer: Answer)
    requires Distinct(pins) && Shaped(pins, s) && b < |pins| && LastBindAt(evs, j, b, PushAction)
    ensures
      var e := if evs[j].event == Default then Key(b) else evs[j].event;
      Raised(pins, callback, ButtonRun(pins, s, evs), Report(pins[b], PushAction, answer))
      == if callback && e != Nothing then Some(e) else None
  {
    PushExactly(pins, callback, s, evs, b, answer);
    BindStays(pins, s, evs, j, b, PushAction);
  }

  /** From power-up, nothing is ever raised until something is bound. */
  lemma SilentUntilBound(pins: seq<Pin>, callback: bool, evs: seq<ButtonEvent>, next: ButtonEvent)
    requires forall ev | ev in evs :: !ev.Assign?
    ensures Raised(pins, callback, ButtonRun(pins, PowerUp(pins), evs), next) == None
  {
    forall b: nat | b < |pins|
      ensures ButtonRun(pins, PowerUp(pins), evs).table[b] == ButtonCfg(Nothing, Nothing, Nothing)
    {
      NeverBoundStays(pins, PowerUp(pins), evs, b, PushAction);
      NeverBoundStays(pins, PowerUp(pins), evs, b, LongPushAction);
      NeverBoundStays(pins, PowerUp(pins), evs, b, ReleaseAction);
    }
  }

  /** A report from a pin that has no button, or of an unknown action, does nothing at all. */
  lemma StrayReportIsIgnored(pins: seq<Pin>, callback: bool, s: ButtonState, pin: Pin, action: Action, answer: Answer)
    requires Shaped(pins, s) && (pin !in pins || action.OtherAction?)
    ensures ButtonStep(pins, s, Report(pin, action, answer)) == s
    ensures Raised(pins, callback, s, Report(pin, action, answer)) == None
  {
  }

  // ----- The release guard -----

  predicate PushOf(pins: seq<Pin>, ev: ButtonEvent, b: nat) {
    ev.Report? && ev.action.PushAction? && ButtonOf(pins, ev.pin) == b
  }

  /** The last push of button `b` is event `k`. */
  ghost predicate LastPushAt(pins: seq<Pin>, evs: seq<ButtonEvent>, k: nat, b: nat) {
    k < |evs| && PushOf(pins, evs[k], b) && (forall j | k < j < |evs| :: !PushOf(pins, evs[j], b))
  }

  /** The release binding that button `b` had when its last push was handled; Nothing before any push. */
  function BoundAtLastPush(pins: seq<Pin>, s: ButtonState, evs: seq<ButtonEvent>, b: nat): Event
    requires |s.table| == |s.guard| == |pins| && b < |pins|
  {
    if evs == [] then Nothing
    else if PushOf(pins, evs[|evs| - 1], b) then ButtonRun(pins, s, evs[..|evs| - 1]).table[b].release
    else BoundAtLastPush(pins, s, evs[..|evs| - 1], b)
  }

  /** One step changes a button's guard only by pushing it, and its release binding only by binding it. */
  lemma StepAtButton(pins: seq<Pin>, s: ButtonState, ev: ButtonEvent, b: nat)
    requires Shaped(pins, s) && b < |pins|
    ensures
      var s' := ButtonStep(pins, s, ev);
      && s'.guard[b] == (if PushOf(pins, ev, b) then s.table[b].release else s.guard[b])
      && (!Binds(ev, b, ReleaseAction) ==> s'.table[b].release == s.table[b].release)
  {
  }

  lemma {:induction false} GuardRemembersPush(pins: seq<Pin>, s: ButtonState, evs: seq<ButtonEvent>, b: nat)
    requires Untouched(pins, s) && b < |pins|
    ensures ButtonRun(pins, s, evs).guard[b] == BoundAtLastPush(pins, s, evs, b)
  {
    if evs == [] {
      assert s.guard[b] in s.guard;
    } else {
      GuardRemembersPush(pins, s, evs[..|evs| - 1], b);
      StepAtButton(pins, ButtonRun(pins, s, evs[..|evs| - 1]), evs[|evs| - 1], b);
    }
  }

  lemma ButtonOfIndex(pins: seq<Pin>, b: nat)
    requires Distinct(pins) && b < |pins|
    ensures ButtonOf(pins, pins[b]) == b
  {
  }

  /** Releasing a button raises its release event exactly when a callback is registered, an event is bound,
      and that same event was bound when the button was last pushed, however its own and other buttons'
      bindings changed in between. */
  lemma ReleaseExactly(pins: seq<Pin>, callback: bool, s: ButtonState, evs: seq<ButtonEvent>, b: nat, answer: Answer)
    requires Distinct(pins) && Untouched(pins, s) && b < |pins|
    ensures
      var now := ButtonRun(pins, s, evs).table[b].release;
      Raised(pins, callback, ButtonRun(pins, s, evs), Report(pins[b], ReleaseAction, answer))
      == if callback && now != Nothing && now == BoundAtLastPush(pins, s, evs, b) then Some(now) else None
  {
    ButtonOfIndex(pins, b);
    GuardRemembersPush(pins, s, evs, b);
  }

  /** So a release event always has a push behind it, at which it was already bound. */
  lemma {:induction false} LastPushExists(pins: seq<Pin>, s: ButtonState, evs: seq<ButtonEvent>, b: nat)
    returns (k: nat)
    requires Shaped(pins, s) && b < |pins| && BoundAtLastPush(pins, s, evs, b) != Nothing
    ensures LastPushAt(pins, evs, k, b)
    ensures ButtonRun(pins, s, evs[..k]).table[b].release == BoundAtLastPush(pins, s, evs, b)
  {
    var before := evs[..|evs| - 1];
    if PushOf(pins, evs[|evs| - 1], b) {
      k := |evs| - 1;
    } else {
      k := LastPushExists(pins, s, before, b);
      assert before[..k] == evs[..k];
    }
  }

  /** A release event bound only after the last push of a button is not raised by releasing it. */
  lemma LateBindingIsSilent(pins: seq<Pin>, callback: bool, s: ButtonState, evs: seq<ButtonEvent>,
                            k: nat, b: nat, answer: Answer)
    requires Distinct(pins) && Untouched(pins, s) && b < |pins|
    requires LastPushAt(pins, evs, k, b)
    requires ButtonRun(pins, s, evs[..k]).table[b].release != ButtonRun(pins, s, evs).table[b].release
    ensures Raised(pins, callback, ButtonRun(pins, s, evs), Report(pins[b], ReleaseAction, answer)) == None
  {
    ReleaseExactly(pins, callback, s, evs, b, answer);
    PushWasAt(pins, s, evs, k, b);
  }

  /** With the last push and the last bind of the release at known positions, in either order: releasing the button
      raises the event of that bind exactly if there is a callback, the bind gave an event, and the push already
      found that same event bound. So binding it again after the push does not keep it from being raised. */
  lemma LateBindingExactly(pins: seq<Pin>, callback: bool, s: ButtonState, evs: seq<ButtonEvent>,
                           k: nat, j: nat, b: nat, answer: Answer)
    requires Distinct(pins) && Untouched(pins, s) && b < |pins|
    requires LastPushAt(pins, evs, k, b) && LastBindAt(evs, j, b, ReleaseAction)
    ensures
      var bound, atPush := evs[j].event, ButtonRun(pins, s, evs[..k]).table[b].release;
      Raised(pins, callback, ButtonRun(pins, s, evs), Report(pins[b], ReleaseAction, answer))
      == if callback && bound != Nothing && bound != Default && bound == atPush then Some(bound) else None
  {
    ReleaseExactly(pins, callback, s, evs, b, answer);
    PushWasAt(pins, s, evs, k, b);
    BindStays(pins, s, evs, j, b, ReleaseAction);
  }

  /** Such a run: an event is bound, the button pushed, the event unbound and bound again, and releasing the button
      still raises it. */
  lemma ReboundIsRaised(pins: seq<Pin>, s: ButtonState, b: nat, e: Event, answer: Answer)
    requires Distinct(pins) && Untouched(pins, s) && b < |pins| < WORD_LIMIT && e != Nothing && e != Default
    ensures
      var bind, unbind := Assign(b, ReleaseAction, e), Assign(b, ReleaseAction, Nothing);
      var evs := [bind, Report(pins[b], PushAction, answer), unbind, bind];
      && LastPushAt(pins, evs, 1, b)
      && Raised(pins, true, ButtonRun(pins, s, evs), Report(pins[b], ReleaseAction, answer)) == Some(e)
  {
    var bind, unbind := Assign(b, ReleaseAction, e), Assign(b, ReleaseAction, Nothing);
    var push := Report(pins[b], PushAction, answer);
    ButtonOfIndex(pins, b);
    FourSteps(pins, s, bind, push, unbind, bind);
  }

  lemma FourSteps(pins: seq<Pin>, s: ButtonState, e: ButtonEvent, f: ButtonEvent, g: ButtonEvent, h: ButtonEvent)
    requires Shaped(pins, s)
    ensures ButtonRun(pins, s, [e, f]) == ButtonStep(pins, ButtonStep(pins, s, e), f)
    ensures ButtonRun(pins, s, [e, f, g]) == ButtonStep(pins, ButtonRun(pins, s, [e, f]), g)
    ensures ButtonRun(pins, s, [e, f, g, h]) == ButtonStep(pins, ButtonRun(pins, s, [e, f, g]), h)
  {
    assert [e, f, g, h][..3] == [e, f, g] && [e, f, g][..2] == [e, f] && [e, f][..1] == [e] && [e][..0] == [];
    assert ButtonRun(pins, s, [e]) == ButtonStep(pins, s, e);
  }

  lemma {:induction false} PushWasAt(pins: seq<Pin>, s: ButtonState, evs: seq<ButtonEvent>, k: nat, b: nat)
    requires Shaped(pins, s) && b < |pins|
    requires LastPushAt(pins, evs, k, b)
    ensures BoundAtLastPush(pins, s, evs, b) == ButtonRun(pins, s, evs[..k]).table[b].release
    decreases |evs|
  {
    if k < |evs| - 1 {
      var before := evs[..|evs| - 1];
      assert before[..k] == evs[..k];
      PushWasAt(pins, s, before, k, b);
    }
  }

  // ----- Long pushes -----

  /** The event, handled in state `s`, is a push that starts the long-push timer for button `b`. */
  predicate Arms(pins: seq<Pin>, s: ButtonState, ev: ButtonEvent, b: nat)
    requires |s.table| == |s.guard| == |pins|
  {
    b < |pins| && PushOf(pins, ev, b) && s.table[b].longPush != Nothing && ev.answer.Ok()
  }

  /** The event ends a pending long push: an expiry, or a release of any button that leaves the timer stopped. */
  predicate Ends(pins: seq<Pin>, ev: ButtonEvent) {
    ev.Expire? ||
    (ev.Report? && ev.action.ReleaseAction? && ButtonOf(pins, ev.pin) < |pins| && ev.answer.StopsTimer())
  }

  /** The button of the last push that armed the long-push timer, unless something ended it since. */
  function Candidate(pins: seq<Pin>, s: ButtonState, evs: seq<ButtonEvent>): (r: Option<nat>)
    requires |s.table| == |s.guard| == |pins|
    ensures r.Some? ==> r.value < |pins|
  {
    if evs == [] then None
    else
      var before, ev := evs[..|evs| - 1], evs[|evs| - 1];
      var b := if ev.Report? then ButtonOf(pins, ev.pin) else |pins|;
      if Ends(pins, ev) then None
      else if Arms(pins, ButtonRun(pins, s, before), ev, b) then Some(b)
      else Candidate(pins, s, before)
  }

  /** Event `k` of the run armed the timer for button `b`. */
  ghost predicate ArmedAt(pins: seq<Pin>, s: ButtonState, evs: seq<ButtonEvent>, k: nat, b: nat)
    requires Shaped(pins, s)
  {
    k < |evs| && Arms(pins, ButtonRun(pins, s, evs[..k]), evs[k], b)
  }

  /** Since event `k`, nothing ended the long push and no push armed the timer. */
  ghost predicate Undisturbed(pins: seq<Pin>, s: ButtonState, evs: seq<ButtonEvent>, k: nat)
    requires Shaped(pins, s)
  {
    && (forall j | k < j < |evs| :: !Ends(pins, evs[j]))
    && (forall j: nat, b: nat | k < j :: !ArmedAt(pins, s, evs, j, b))
  }

  /** The candidate, by positions in the run: it is button `b` exactly if some push armed the timer for `b` and
      nothing ended it or armed the timer since. */
  lemma CandidateExactly(pins: seq<Pin>, s: ButtonState, evs: seq<ButtonEvent>, b: nat)
    requires Shaped(pins, s)
    ensures Candidate(pins, s, evs) == Some(b)
            <==> exists k :: ArmedAt(pins, s, evs, k, b) && Undisturbed(pins, s, evs, k)
  {
    if Candidate(pins, s, evs) == Some(b) {
      var k := CandidateArmedAt(pins, s, evs, b);
    }
    forall k | ArmedAt(pins, s, evs, k, b) && Undisturbed(pins, s, evs, k)
      ensures Candidate(pins, s, evs) == Some(b)
    {
      ArmedStaysCandidate(pins, s, evs, k, b);
    }
  }

  lemma PrefixArms(pins: seq<Pin>, s: ButtonState, evs: seq<ButtonEvent>, k: nat, b: nat)
    requires Shaped(pins, s) && k < |evs| - 1
    ensures ArmedAt(pins, s, evs[..|evs| - 1], k, b) <==> ArmedAt(pins, s, evs, k, b)
  {
    assert evs[..|evs| - 1][..k] == evs[..k];
  }

  lemma {:induction false} CandidateArmedAt(pins: seq<Pin>, s: ButtonState, evs: seq<ButtonEvent>, b: nat)
    returns (k: nat)
    requires Shaped(pins, s) && Candidate(pins, s, evs) == Some(b)
    ensures ArmedAt(pins, s, evs, k, b) && Undisturbed(pins, s, evs, k)
  {
    var before, ev := evs[..|evs| - 1], evs[|evs| - 1];
    if Arms(pins, ButtonRun(pins, s, before), ev, b) {
      k := |evs| - 1;
    } else {
      k := CandidateArmedAt(pins, s, before, b);
      forall j: nat, b': nat | j < |before| ensures ArmedAt(pins, s, before, j, b') <==> ArmedAt(pins, s, evs, j, b') {
        PrefixArms(pins, s, evs, j, b');
      }
    }
  }

  lemma {:induction false} ArmedStaysCandidate(pins: seq<Pin>, s: ButtonState, evs: seq<ButtonEvent>, k: nat, b: nat)
    requires Shaped(pins, s) && ArmedAt(pins, s, evs, k, b) && Undisturbed(pins, s, evs, k)
    ensures Candidate(pins, s, evs) == Some(b)
    decreases |evs|
  {
    if k < |evs| - 1 {
      var before := evs[..|evs| - 1];
      forall j: nat, b': nat | j < |before| ensures ArmedAt(pins, s, before, j, b') <==> ArmedAt(pins, s, evs, j, b') {
        PrefixArms(pins, s, evs, j, b');
      }
      var last := |evs| - 1;
      var c := if evs[last].Report? then ButtonOf(pins, evs[last].pin) else |pins|;
      assert !Ends(pins, evs[last]) && !ArmedAt(pins, s, evs, last, c);
      ArmedStaysCandidate(pins, s, before, k, b);
    }
  }

  /** When a held button still gets its long push: armed at `k` and neither pushed again nor expired since, it is
      the candidate exactly if no release, of any button, stopped the timer and no other button armed it. */
  lemma HeldExactly(pins: seq<Pin>, s: ButtonState, evs: seq<ButtonEvent>, k: nat, b: nat)
    requires Shaped(pins, s) && ArmedAt(pins, s, evs, k, b)
    requires forall j | k < j < |evs| :: !evs[j].Expire? && !PushOf(pins, evs[j], b)
    ensures Candidate(pins, s, evs) == Some(b) <==> Undisturbed(pins, s, evs, k)
  {
    if Candidate(pins, s, evs) == Some(b) {
      var k' := CandidateArmedAt(pins, s, evs, b);
      assert k' <= k;
      assert ArmedAt(pins, s, evs, k, b) && b < |pins|;
      assert k' == k;
    } else if Undisturbed(pins, s, evs, k) {
      ArmedStaysCandidate(pins, s, evs, k, b);
    }
  }

  /** The timer runs exactly while there is a candidate, and remembers the candidate's pin. */
  lemma {:induction false} TimerHasCandidate(pins: seq<Pin>, s: ButtonState, evs: seq<ButtonEvent>)
    requires Untouched(pins, s)
    ensures
      var now := ButtonRun(pins, s, evs);
      && (now.timer <==> Candidate(pins, s, evs).Some?)
      && (now.timer ==> now.longPin == pins[Candidate(pins, s, evs).value])
  {
    if evs != [] {
      TimerHasCandidate(pins, s, evs[..|evs| - 1]);
    }
  }

  /** An expiry is a long push of the candidate and of no other button: it raises the long-push event that button has
      at the expiry, exactly when there is such a button, it has one and a callback is registered. */
  lemma LongPushExactly(pins: seq<Pin>, callback: bool, s: ButtonState, evs: seq<ButtonEvent>)
    requires Distinct(pins) && Untouched(pins, s)
    ensures
      var now, b := ButtonRun(pins, s, evs), Candidate(pins, s, evs);
      Raised(pins, callback, now, Expire)
      == if b.Some? && callback && now.table[b.value].longPush != Nothing
         then Some(now.table[b.value].longPush) else None
  {
    TimerHasCandidate(pins, s, evs);
    var b := Candidate(pins, s, evs);
    if b.Some? {
      ButtonOfIndex(pins, b.value);
    }
  }

  /** In terms of the binds: an expiry raises the event last bound to the candidate's long push, and nothing if that
      bind gave no event or the default. */
  lemma LongPushRaisesLastBind(pins: seq<Pin>, callback: bool, s: ButtonState, evs: seq<ButtonEvent>, j: nat, b: nat)
    requires Distinct(pins) && Untouched(pins, s) && b < |pins|
    requires Candidate(pins, s, evs) == Some(b) && LastBindAt(evs, j, b, LongPushAction)
    ensures
      var e := evs[j].event;
      Raised(pins, callback, ButtonRun(pins, s, evs), Expire)
      == if callback && e != Nothing && e != Default then Some(e) else None
  {
    LongPushExactly(pins, callback, s, evs);
    BindStays(pins, s, evs, j, b, LongPushAction);
  }

  /** And only a push of a button with such a bind starts the long-push timer. */
  lemma PushArmsExactly(pins: seq<Pin>, s: ButtonState, evs: seq<ButtonEvent>, j: nat, b: nat, answer: Answer)
    requires Distinct(pins) && Shaped(pins, s) && b < |pins| && LastBindAt(evs, j, b, LongPushAction)
    ensures
      var now, e := ButtonRun(pins, s, evs), evs[j].event;
      var arms := e != Nothing && e != Default && answer.code == 0;
      var next := ButtonStep(pins, now, Report(pins[b], PushAction, answer));
      next.timer == (now.timer || arms) && next.longPin == if arms then pins[b] else now.longPin
  {
    ButtonOfIndex(pins, b);
    BindStays(pins, s, evs, j, b, LongPushAction);
  }

  /** After any run, the release of any button cancels whatever long push was pending exactly if its stop takes
      effect; otherwise the expiry raises what it would have raised without the release. */
  lemma ReleaseCancelsExactly(pins: seq<Pin>, callback: bool, s: ButtonState, evs: seq<ButtonEvent>,
                              b: nat, stop: Answer)
    requires Distinct(pins) && Untouched(pins, s) && b < |pins|
    ensures
      var held := Raised(pins, callback, ButtonRun(pins, s, evs), Expire);
      Raised(pins, callback, ButtonRun(pins, s, evs + [Report(pins[b], ReleaseAction, stop)]), Expire)
      == if stop.StopsTimer() then None else held
  {
    var release := Report(pins[b], ReleaseAction, stop);
    ButtonOfIndex(pins, b);
    assert (evs + [release])[..|evs|] == evs;
  }

  /** So a button that is still held loses its long push when another one is released. */
  lemma OtherReleaseCancels(pins: seq<Pin>, s: ButtonState, b: nat, other: nat, e: Event, stop: Answer)
    requires Distinct(pins) && Untouched(pins, s) && b < |pins| < WORD_LIMIT && other < |pins| && b != other
    requires e != Nothing && e != Default && stop.StopsTimer()
    ensures
      var held := [Assign(b, LongPushAction, e), Report(pins[b], PushAction, Answer(NRF_SUCCESS, false))];
      && Raised(pins, true, ButtonRun(pins, s, held), Expire) == Some(e)
      && Raised(pins, true, ButtonRun(pins, s, held + [Report(pins[other], ReleaseAction, stop)]), Expire) == None
  {
    var bind, push := Assign(b, LongPushAction, e), Report(pins[b], PushAction, Answer(NRF_SUCCESS, false));
    ButtonOfIndex(pins, b);
    FourSteps(pins, s, bind, push, push, push);
    ReleaseCancelsExactly(pins, true, s, [bind, push], other, stop);
  }
}
