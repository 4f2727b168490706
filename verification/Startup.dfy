/** What initialisation binds and reports. */
module Startup {
  import opened Common
  import opened Boards
  import opened Buttons
  import opened LedMachine

  /** The codes returned by the calls that initialisation makes to other libraries. */
  datatype InitAnswers = InitAnswers(buttonInit: uint32, buttonEnable: uint32,
                                     createButton: uint32, createLeds: uint32, createAlert: uint32)

  datatype TimerId = ButtonTimer | LedsTimer | AlertTimer

  // ----- Codes -----

  /** A call made only if all before it succeeded. */
  function Then(err: uint32, code: uint32): uint32 { if err != NRF_SUCCESS then err else code }

  /** The return code of initialisation. */
  function InitCode(flags: Word, a: InitAnswers): uint32 {
    Then(Then(ButtonsCode(flags, a), a.createLeds), a.createAlert)
  }

  function ButtonsCode(flags: Word, a: InitAnswers): uint32 {
    if INIT_BUTTONS in flags then Then(Then(a.buttonInit, a.buttonEnable), a.createButton) else NRF_SUCCESS
  }

  /** The timers initialisation creates. */
  function InitCreates(flags: Word, a: InitAnswers): set<TimerId> {
    ButtonsCreate(flags, a)
    + (if Then(ButtonsCode(flags, a), a.createLeds) == NRF_SUCCESS then {LedsTimer} else {})
    + (if InitCode(flags, a) == NRF_SUCCESS then {AlertTimer} else {})
  }

  function ButtonsCreate(flags: Word, a: InitAnswers): set<TimerId> {
    if INIT_BUTTONS in flags && ButtonsCode(flags, a) == NRF_SUCCESS then {ButtonTimer} else {}
  }

  /** The codes of the calls initialisation makes if all goes well, in order. */
  function InitCalls(flags: Word, a: InitAnswers): seq<uint32> {
    (if INIT_BUTTONS in flags then [a.buttonInit, a.buttonEnable, a.createButton] else [])
    + [a.createLeds, a.createAlert]
  }

  /** No failure is masked by a later success: the code is that of the first call that failed. */
  lemma FirstErrorIsReported(flags: Word, a: InitAnswers, k: nat)
    requires k < |InitCalls(flags, a)|
    ensures InitCode(flags, a) == NRF_SUCCESS ==> InitCalls(flags, a)[k] == NRF_SUCCESS
    ensures InitCalls(flags, a)[k] != NRF_SUCCESS && (forall j | 0 <= j < k :: InitCalls(flags, a)[j] == NRF_SUCCESS)
            ==> InitCode(flags, a) == InitCalls(flags, a)[k]
  {
    var calls := InitCalls(flags, a);
    if forall j | 0 <= j < k :: calls[j] == NRF_SUCCESS {
      assert k > 0 ==> calls[0] == NRF_SUCCESS;
      assert k > 1 ==> calls[1] == NRF_SUCCESS;
      assert k > 2 ==> calls[2] == NRF_SUCCESS;
      assert k > 3 ==> calls[3] == NRF_SUCCESS;
    }
  }

  /** Initialisation succeeds exactly if it created every timer it should, and a timer is never created after a
      failed call. */
  lemma InitSucceedsExactly(flags: Word, a: InitAnswers)
    ensures InitCode(flags, a) == NRF_SUCCESS
            <==> InitCreates(flags, a)
                 == {LedsTimer, AlertTimer} + (if INIT_BUTTONS in flags then {ButtonTimer} else {})
    ensures AlertTimer in InitCreates(flags, a) ==> LedsTimer in InitCreates(flags, a)
    ensures INIT_BUTTONS in flags && LedsTimer in InitCreates(flags, a) ==> ButtonTimer in InitCreates(flags, a)
  {
    assert InitCode(flags, a) == NRF_SUCCESS <==> AlertTimer in InitCreates(flags, a);
  }

  /** The return code, call by call. */
  lemma InitCodeExactly(flags: Word, a: InitAnswers)
    ensures InitCode(flags, a) ==
            if 1 in flags && a.buttonInit != 0 then a.buttonInit
            else if 1 in flags && a.buttonEnable != 0 then a.buttonEnable
            else if 1 in flags && a.createButton != 0 then a.createButton
            else if a.createLeds != 0 then a.createLeds
            else a.createAlert
  {
  }

  /** Which calls must have succeeded for each timer to be created. */
  lemma CreatedExactly(flags: Word, a: InitAnswers)
    ensures
      var made := InitCreates(flags, a);
      var buttons := a.buttonInit == 0 && a.buttonEnable == 0 && a.createButton == 0;
      && (ButtonTimer in made <==> 1 in flags && buttons)
      && (LedsTimer in made <==> (1 in flags ==> buttons) && a.createLeds == 0)
      && (AlertTimer in made <==> (1 in flags ==> buttons) && a.createLeds == 0 && a.createAlert == 0)
  {
  }

  // ----- Bindings -----

  /** The table after binding the default event to the push of each of the first `n` buttons. */
  function DefaultPushes(table: seq<ButtonCfg>, n: nat): (table': seq<ButtonCfg>)
    requires n <= |table| < WORD_LIMIT
    ensures |table'| == |table|
  {
    if n == 0 then table else Bind(DefaultPushes(table, n - 1), n - 1, PushAction, Default).0
  }

  /** Every button's push gets its own key event; the other bindings stay. */
  lemma {:induction false} DefaultPushesAre(table: seq<ButtonCfg>, n: nat, i: nat)
    requires n <= |table| < WORD_LIMIT && i < |table|
    ensures DefaultPushes(table, n)[i] == if i < n then table[i].(push := Key(i)) else table[i]
  {
    if n > 0 {
      DefaultPushesAre(table, n - 1, i);
    }
  }

  /** The buttons after power-up and a successful initialisation. */
  function Ready(pins: seq<Pin>): (s: ButtonState)
    requires |pins| <= 8
    ensures |s.table| == |s.guard| == |pins|
  {
    var s := PowerUp(pins);
    s.(table := DefaultPushes(s.table, |pins|))
  }

  lemma ReadyBindings(pins: seq<Pin>, i: nat)
    requires i < |pins| <= 8
    ensures Ready(pins).table[i] == ButtonCfg(Key(i), Nothing, Nothing) && Ready(pins).guard[i] == Nothing
  {
    DefaultPushesAre(PowerUp(pins).table, |pins|, i);
  }

  /** The button theorems apply from there. */
  lemma ReadyIsUntouched(pins: seq<Pin>)
    requires |pins| <= 8
    ensures Untouched(pins, Ready(pins)) && NoDefault(Ready(pins).table)
  {
    var s := Ready(pins);
    forall k | 0 <= k < |pins| ensures s.table[k] == ButtonCfg(Key(k), Nothing, Nothing) {
      ReadyBindings(pins, k);
    }
  }

  /** Button i's push raises key event i and no other button's does, and nothing else is bound. */
  lemma FirstInit(pins: seq<Pin>, i: nat, j: nat, answer: Answer)
    requires Distinct(pins) && |pins| <= 8 && i < |pins| && j < |pins|
    ensures Raised(pins, true, Ready(pins), Report(pins[i], PushAction, answer)) == Some(Key(i))
    ensures Raised(pins, true, Ready(pins), Report(pins[i], ReleaseAction, answer)) == None
    ensures Raised(pins, true, Ready(pins), Report(pins[i], LongPushAction, answer)) == None
    ensures Raised(pins, true, Ready(pins), Report(pins[i], PushAction, answer))
            != Raised(pins, true, Ready(pins), Report(pins[j], PushAction, answer)) || i == j
  {
    ReadyBindings(pins, i);
    ReadyBindings(pins, j);
    ButtonOfIndex(pins, i);
    ButtonOfIndex(pins, j);
  }
}
