# Board support package: a verified model

This project models the LED and button half of the Nordic board support package: the LED indication state
machine, the button event machine, the LED register macros, and the ANT button module that rides on top of
them. It proves what the code keeps over every run, not only what one call does.

## How it is built

| file | what it holds |
|---|---|
| `Common.dfy` | return codes, the timer library's answers, conversion of milliseconds to ticks |
| `Boards.dfy` | a board's LED pins and polarity, the register macros, what they do to the LEDs |
| `Indications.dfy` | the indications, their grouping and their intervals |
| `LedMachine.dfy` | the LED machine over the OUT register (`DeviceStep`) and over the set of lit LEDs (`Step`), and the refinement of one indication |
| `Catalogue.dfy` | every indication by its values: LEDs, control state, delay and return code, failures included |
| `Polarity.dfy` | refinement over whole runs, independence of polarity, pin frame |
| `Alerts.dfy` | alerts against everything else: independence, its exact limits, the alert LED by parity |
| `Blink.dfy` | packets, the life of the single-shot LED timer, replay of stable states |
| `History.dfy` | what the LEDs show, as counts and parities over the calls and fires alone |
| `Effects.dfy` | every LED after every run, with takeovers and on boards without LED 2: last put, then flips |
| `Timing.dfy` | tick conversion, blink timing |
| `Buttons.dfy` | event table, release guard, long pushes, over arbitrary interleavings |
| `AntMode.dfy` | the ANT button mode composed with the button machine: the channel, who binds button 3, and what stays undisturbed |
| `Startup.dfy` | default bindings, return code and timers of initialisation |
| `BoardSupport.dfy` | the class with the static variables and GPIO registers; each method is tied to the machines above, and power-up with initialisation to the states their runs start from |
| `BtnAnt.dfy` | the ANT module as a class that calls the board support class |

The classes follow the C code: fields are its static variables, arrays its fixed-size buffers, methods its
functions. Their contracts give the new state as a step of a machine, and the lemmas are about runs of that
machine. The LED machine exists twice. `NextOut` writes the OUT register through the macros, as the code
does; `NextLit` says which LEDs are lit afterwards and never mentions the register or the polarity.
`IndicateRefines` and `RunRefines` connect the two.

A 32-bit register or mask is the set of the positions of its 1 bits, so that `&`, `|`, `& ~` and `1 << p`
are intersection, union, difference and a singleton.

## Assumptions

- The timer library is the environment. A start or stop call gets an arbitrary return code. A successful
  start leaves the timer running, a successful stop leaves it not running, a failed start changes
  nothing, and a failed stop may or may not leave it running (`Answer.keeps`;
  components/libraries/timer/app_timer.c:1005-1018 clears the flag before it can fail for want of memory).
  For the repeated alert timer that clearing lasts one period at most: the library lets the pending expiry pass
  and arms the timer again (app_timer.c:537-544 and 627). Its failing stop therefore leaves it running, and
  `keeps == false` describes the failing stop of a single-shot timer only.
  Starting a running timer leaves it running; which delay then applies is not modelled.
- A timer fires only while it is running; an event for a timer that is not running leaves the state alone.
  Single-shot timers stop when they fire.
- Handlers run one at a time. The button callback is the last thing its handler does, so whatever it calls
  are the next events of the run.
- A board has two or more LEDs. LED 0 and LED 1 are distinct, LED 2 if present is a third, all are inside the
  LED mask, and the polarity mask is arbitrary. At most eight buttons sit on distinct pins.
- The full configuration is modelled: LEDs and buttons present, `BSP_SIMPLE` not defined.

## Where code and documentation part

- examples/bsp/bsp.h:245 says that alerts are indicated independently. They are, but not always:
  `IndependenceExactly` gives the indications that respect them (not the fatal error or the user states, and
  packets only on a board with LED 2), and `StopMattersExactly` the stop failures they survive.
- examples/bsp/bsp.h:249-252 promises a successful return for an indication that was set. A successful `AlertOff`
  need not darken the alert LED: it does so if and only if the mask was set or the LED was dark
  (`SuccessMeansIndicated`). Two things leave the LED lit with the mask empty. An earlier `AlertOff` could not stop
  the timer (`StuckAlert`); or, with no failure at all, something other than an alert lit the LED, namely a
  takeover such as `UserStateOn`, or a packet on a board without LED 2 (`StuckWithoutAlert`). `AlertOffExactly` shows
  that these are all: over all runs of alerts, both timers and a given set of other indications, `AlertOff` darkens the
  LED if and only if failing stops do not leave the timer running and none of those indications lights it.
- The comment at examples/bsp/bsp.c:171 says that no release event is sent if it was bound after the push.
  The code compares bindings by value, so an event that was bound at the push, unbound, and bound again is
  still sent (`ReboundIsRaised`). `LateBindingExactly` says exactly when the last bind is the one that is raised.
- Holding a button is not enough for a long push: the timer is stopped by a release of any button whose stop takes
  effect (`OtherReleaseCancels`, `ReleaseCancelsExactly`), and its owner is replaced by any other button
  that starts it. `HeldExactly` says when a held button still gets its long push.
- A failed restart of the LED timer inside its own handler ends a blinking state silently (`RestsExactly`).

## Model

| member | source | states |
|---|---|---|
| `Boards.OffRefines` | examples/bsp/boards.h:56-57 | LEDS_OFF darkens exactly the masked LEDs, whatever their polarity, and leaves every other pin |
| `Boards.OnRefines` | examples/bsp/boards.h:59-60 | LEDS_ON lights exactly the masked LEDs, whatever their polarity, and leaves every other pin |
| `Boards.IsOnReadsLit` | examples/bsp/boards.h:62 | LED_IS_ON of an LED tells whether it is lit |
| `Boards.InvertRefines` | examples/bsp/boards.h:64-66 | LEDS_INVERT toggles the masked LEDs, and also any masked pin that is not an LED |
| `Boards.OutDetermined` | examples/bsp/boards.h:56-66 | lit LEDs and other pins determine the OUT register |
| `LedMachine.IndicateRefines` | examples/bsp/bsp.c:228-449 | every indication, on the register, does to the lit LEDs what the picture machine says, and to no other pin anything |
| `LedMachine.BlinkRefines` | examples/bsp/bsp.c:240-345 | the blinking cases toggle LED 0 and darken all else but an active alert |
| `LedMachine.BlinkReadsLed0` | examples/bsp/bsp.c:242-258 | darkening the other LEDs first does not change the branch taken |
| `LedMachine.SuccessMeansIndicated` | examples/bsp/bsp.h:249-252 | success means the state is remembered and its LEDs shown, the alert raised or its mask cleared, and the needed timer running; a successful AlertOff leaves the alert LED dark if and only if the mask was set or the LED was dark before; failure means the timer call made failed, and a failed stop clears the alert even when asked to raise one |
| `LedMachine.FailedStartStillShows` | examples/bsp/bsp.c:240-411 | whether the start succeeds or fails, the LEDs are the same |
| `Catalogue.LedsShown` | examples/bsp/bsp.c:233-442 | the LEDs lit after each indication, named one by one: LED 0 for user state 0, LED 1 for user state 1, both for 2, none for off, all for 3, on and the fatal error, and what each of the others keeps, sets or toggles |
| `Catalogue.ControlKept` | examples/bsp/bsp.c:233-442 | remembered state, alert mask and both timers after each indication, whatever the timer library answers; a blinking state is remembered even if its timer could not be started |
| `Catalogue.DelayRequested` | examples/bsp/bsp.c:31-51 | the delay each indication asks for, in numbers: 100 or 500 ms for packets, 800, 600 and 400 ms for the ticking alerts, the lit or dark time of each blinking state, none for the rest |
| `Catalogue.CodeReturned` | examples/bsp/bsp.c:228-497 | the return code is that of the last timer call made, 0 if none was or LEDs are not enabled |
| `Catalogue.FiresAreCalls` | examples/bsp/bsp.c:459-478 | a fire of the LED timer is a call for the remembered state whose code is lost; a tick inverts the alert LED, LED 2 or else LED 1, alone |
| `Polarity.StepRefines` | examples/bsp/bsp.c:459-497 | each call and timer fire on the register is the same step, with the same code and timer request, on the picture |
| `Polarity.RunRefines` | examples/bsp/bsp.c:228-497 | the same over every run; pins outside the LED mask never change |
| `Polarity.InitRefines` | examples/bsp/bsp.c:570-574 | initialisation with LEDs leaves all LEDs dark; it leaves other pins alone in any case |
| `Polarity.DisabledIsSilent` | examples/bsp/bsp.c:459-497 | initialised without LEDs, no call or fire ever drives a pin, starts a timer or fails |
| `Polarity.PolarityIndependence` | examples/bsp/boards.h:56-66 | boards differing only in polarity make the same timer requests with the same codes on every run from initialisation and, with LEDs enabled, show the same LEDs |
| `Polarity.PinLevels` | examples/bsp/bsp.c:228-479 | the level of each pin after any run, from its LED, its polarity, its level before initialisation and whether LEDs are enabled |
| `Alerts.ControlInvariant` | examples/bsp/bsp.c:228-467 | on every run the stable state is never a packet or an alert, the alert mask is empty or the alert LED, and a running alert timer has the mask set if stops take effect |
| `Alerts.AlertIndependence` | examples/bsp/bsp.c:233-412 | any mix of alerts, link states, packets and both timers shows the union of what the alerts alone and the rest alone show, each with its own LEDs, codes and timer requests |
| `Alerts.IndependenceExactly` | examples/bsp/bsp.c:235-467 | alerts stay independent on all runs of alerts, both timers and a given set of indications if and only if every member of the set is neutral |
| `Alerts.TickCommutesExactly` | examples/bsp/bsp.c:474-478 | an alert tick commutes with showing Idle if and only if a running alert timer has its mask set |
| `Alerts.StopMattersExactly` | examples/bsp/bsp.c:393-411 | alerts stay independent under a failing stop if and only if it does not leave the timer running |
| `Alerts.AlertOffExactly` | examples/bsp/bsp.c:388-412 | over all runs of alerts, both timers and a given set of other indications, every successful AlertOff leaves the alert LED dark if and only if a failing stop does not leave the alert timer running and no member of the set is a takeover that lights the alert LED or a packet on a board without LED 2 |
| `Alerts.StuckAlert` | examples/bsp/bsp.c:405-411 | with a stop that leaves the timer running, some run ends in a successful AlertOff that leaves the alert LED lit and no timer to change it |
| `Alerts.StuckWithoutAlert` | examples/bsp/bsp.c:409-410 | after any one such indication, with no failure, a successful AlertOff leaves the alert LED lit |
| `Alerts.LitMeansMasked` | examples/bsp/bsp.c:388-478 | on every run without such indications whose stops take effect, a lit alert LED has the mask set |
| `Alerts.AlertParity` | examples/bsp/bsp.c:388-412 | after an alert is raised, its LED is lit exactly after an even number of ticks, on any run of neutral indications; the steady alert never ticks |
| `Blink.PacketsAreUndone` | examples/bsp/bsp.c:352-380 | after any packets and alerts, the next fire of the LED timer leaves only LED 0 and an active alert lit and shows the link state again |
| `Blink.TimerIsLive` | examples/bsp/bsp.c:240-380 | on every run whose starts succeed, a blinking state or a packet not yet undone has the LED timer running |
| `Blink.FireRestarts` | examples/bsp/bsp.c:459-467 | a fire changes nothing in the control state but the timer, which it restarts only for a blinking state |
| `Blink.RestsExactly` | examples/bsp/bsp.c:459-467 | with no further calls the LED timer keeps running if and only if the state blinks and every restart succeeds |
| `Blink.ReplayIsIdempotent` | examples/bsp/bsp.c:459-467 | a stale LED timer cannot change a non-blinking picture already shown; with alert ticks only the alert pin moves |
| `History.ShowInStep` | examples/bsp/bsp.c:235-356 | showing a link state, by a call or by the timer, leaves only LED 0 and an active alert, LED 0 dark, lit or toggled by the state |
| `History.PendingIsCount` | examples/bsp/bsp.c:352-380 | the packets a fire will undo are those counted since a state was last shown |
| `History.MemoryIsCounts` | examples/bsp/bsp.c:235-478 | what the LEDs remember step by step is given by the last calls, the shows and the ticks since, on every run without a takeover |
| `History.HistoryDetermines` | examples/bsp/bsp.c:228-479 | on a board with LED 2 and every run without a takeover, whose starts succeed and alert stops take effect: LED 0 is as the last Idle or Connected left it, toggled once for each blinking state shown since; LED 1 is lit after an odd number of packets since a state was last shown; the alert LED is lit if the last alert call raised the alert and, where it ticks, an even number of ticks came since; no other LED is ever lit |
| `Effects.ControlIsHistory` | examples/bsp/bsp.c:228-467 | remembered state, alert mask and both timers after every run, takeovers included, from the last calls and fires alone |
| `Effects.LastPutDecides` | examples/bsp/bsp.c:228-478 | on every board and every run, takeovers included, whose LED timer starts succeed and alert stops take effect, an LED is as the last event that put it on or off left it, flipped once for each event that flips it since |
| `Effects.StepHasEffect` | examples/bsp/bsp.c:228-478 | what each call or fire does to one LED, from the calls and fires before it |
| `Effects.SharedLed` | examples/bsp/bsp.c:352-478 | on a board without LED 2, while an alert is up and no takeover was shown, LED 1 is lit if and only if the packets and the ticks since it was raised add up to an even number |
| `Timing.RequestsAreDelays` | examples/bsp/bsp.c:261-403 | every timer request carries the conversion of one of the listed delays |
| `Timing.DelaysAreHundreds` | examples/bsp/bsp.c:31-51 | every delay is a multiple of 100 ms between 100 ms and 4 s |
| `Timing.TicksWrap` | examples/bsp/bsp.c:110 | n times 100 ms are n times the tick rate, modulo 2^32 |
| `Timing.ConversionExactly` | examples/bsp/bsp.c:110 | dividing first is exact and free of 32-bit overflow for all delays if and only if 40 times the tick rate fits 32 bits |
| `Timing.BlinkAlternates` | examples/bsp/bsp.c:240-350 | undisturbed, LED 0 alternates with every fire and the timer stays live |
| `Timing.BlinkDwell` | examples/bsp/bsp.c:240-350 | after any number of fires LED 0 has spent that many turns of the state's own on and off intervals |
| `Timing.BlinkTotals` | examples/bsp/bsp.c:31-43 | over 2k fires LED 0 is lit and dark for k times the state's own times, in numbers: 200 and 1800 ms advertising, 200 and 800 with whitelist, 200 and 200 directed, 100 and 100 bonding, 400 and 4000 scanning or slow; no tick lost |
| `Buttons.BindChangesOneField` | examples/bsp/bsp.c:597-634 | a bind changes at most the named field of the named button and fails, with code 7, exactly for an unknown button or action; the default is the key event for a push and nothing for a release or long push |
| `Buttons.TableHasNoDefault` | examples/bsp/bsp.c:604-608 | on every run no table entry is the default marker |
| `Buttons.BindStays` | examples/bsp/bsp.c:597-634 | after any run a binding is what the last bind of it gave, with the default resolved |
| `Buttons.NeverBoundStays` | examples/bsp/bsp.c:165-210 | a binding nobody binds stays as it was, whatever is pushed, released or expires |
| `Buttons.PushExactly` | examples/bsp/bsp.c:182-209 | after any run a push raises the event bound to it now, whatever else is bound, if and only if there is one and a callback |
| `Buttons.PushRaisesLastBind` | examples/bsp/bsp.c:183-209 | that is the event of the last bind of the push, or the button's own key event if that gave the default |
| `Buttons.SilentUntilBound` | examples/bsp/bsp.c:165-210 | from power-up no report and no expiry raises anything until something is bound |
| `Buttons.StrayReportIsIgnored` | examples/bsp/bsp.c:173-209 | a report from a pin without a button, or of an unknown action, changes and raises nothing |
| `Buttons.RaisedIsReal` | examples/bsp/bsp.c:206-209 | the callback is never called with Nothing or Default, nor without being registered |
| `Buttons.GuardRemembersPush` | examples/bsp/bsp.c:192 | a button's guard is its release binding at its last push |
| `Buttons.ReleaseExactly` | examples/bsp/bsp.c:194-200 | a release raises an event if and only if one is bound now and the same was bound at the last push, under any interleaving |
| `Buttons.LastPushExists` | examples/bsp/bsp.c:171 | a raised release event has a last push behind it at which it was bound |
| `Buttons.LateBindingIsSilent` | examples/bsp/bsp.c:171 | a release event not yet bound at the last push is not raised |
| `Buttons.LateBindingExactly` | examples/bsp/bsp.c:171-200 | with the last push and the last bind of the release anywhere in the run, the release raises the event of that bind if and only if there is a callback, the bind gave an event, and that same event was bound at the push |
| `Buttons.ReboundIsRaised` | examples/bsp/bsp.c:171-200 | an event bound, pushed, unbound and bound again is raised by the release |
| `Buttons.TimerHasCandidate` | examples/bsp/bsp.c:182-195 | the long-push timer runs exactly while some button is a candidate, and remembers that button's pin |
| `Buttons.CandidateExactly` | examples/bsp/bsp.c:182-195 | button b is the candidate if and only if some push armed the timer for b and since then nothing expired, no release stopped the timer and no push armed it |
| `Buttons.CandidateArmedAt` | examples/bsp/bsp.c:182-195 | finds the position of that push in the run |
| `Buttons.ArmedStaysCandidate` | examples/bsp/bsp.c:182-195 | a push that armed the timer and was not disturbed since is the candidate |
| `Buttons.HeldExactly` | examples/bsp/bsp.c:182-195 | a button that armed the timer, with no expiry and no push of its own since, is still the candidate if and only if no release of any button stopped the timer and no other button armed it |
| `Buttons.LongPushExactly` | examples/bsp/bsp.c:216-219 | an expiry raises the current long-push event of the candidate, and nothing if there is none |
| `Buttons.LongPushRaisesLastBind` | examples/bsp/bsp.c:201-219 | an expiry raises the event last bound to the candidate's long push, and nothing if that bind gave Nothing or the default |
| `Buttons.PushArmsExactly` | examples/bsp/bsp.c:182-191 | a push starts the long-push timer and takes it over if and only if the last long-push bind gave an event and the start succeeds |
| `Buttons.ReleaseCancelsExactly` | examples/bsp/bsp.c:194-195 | after any run, the release of any button cancels the pending long push if its stop takes effect and otherwise leaves what the expiry raises as it was |
| `Buttons.OtherReleaseCancels` | examples/bsp/bsp.c:194-195 | a held button loses its long push when another one is released |
| `AntMode.ConfigureAlwaysSucceeds` | examples/bsp/bsp_btn_ant.c:61-89 | configuring the sleep button never reports an error and does nothing on a board with fewer than four buttons |
| `AntMode.FlagIsLastChannelEvent` | examples/bsp/bsp_btn_ant.c:101-127 | the connected flag after any run says whether the last channel event among reception and loss was a reception |
| `AntMode.OthersUndisturbed` | examples/bsp/bsp_btn_ant.c:49-144 | on every run, apart from the release of button 3 and its guard, the buttons are as if the module were not there, and entirely so on a board with fewer than four |
| `AntMode.BindingIsHistory` | examples/bsp/bsp_btn_ant.c:61-144 | button 3's release and guard after any run, even if others bind it: the last binding by the module or anyone else, now and at the last push |
| `AntMode.Release3Exactly` | examples/bsp/bsp_btn_ant.c:61-144 | on every such run a release of button 3 raises the last binding if and only if there is one, a callback, and it was also the last at the last push |
| `AntMode.SleepBinding` | examples/bsp/bsp_btn_ant.c:101-144 | after initialisation, if nobody else binds it, the last binding of button 3's release is Sleep exactly while the channel events say searching, and at its last push exactly if they did then |
| `AntMode.SleepExactly` | examples/bsp/bsp_btn_ant.c:61-144 | releasing button 3 asks for sleep if and only if a callback is registered, the channel is searching, and it was searching at the last push, all told from the channel events alone |
| `Startup.FirstErrorIsReported` | examples/bsp/bsp.c:530-590 | of the calls initialisation makes, success means that none failed, and otherwise the code is that of the first that failed |
| `Startup.InitCodeExactly` | examples/bsp/bsp.c:530-590 | the return code, by the answers of the five calls in their order: button driver, its enabling, button timer, LED timer, alert timer |
| `Startup.InitSucceedsExactly` | examples/bsp/bsp.c:543-590 | initialisation succeeds if and only if it created every timer it should; the timers are created in order |
| `Startup.CreatedExactly` | examples/bsp/bsp.c:526-590 | each timer is created if and only if its own creation and every call before it returned 0 |
| `Startup.DefaultPushesAre` | examples/bsp/bsp.c:530-533 | the first n pushes get their own key events, all else stays |
| `Startup.ReadyIsUntouched` | examples/bsp/bsp.c:511-553 | the state after initialisation is one the button theorems start from |
| `Startup.FirstInit` | examples/bsp/bsp.c:511-591 | after power-up and initialisation, pushing button i raises key event i and no other button does; nothing else is bound |
| `BoardSupport.Gpio.LedsOff` | examples/bsp/boards.h:56-57 | the two register writes give the macro's OUT value |
| `BoardSupport.Gpio.LedsOn` | examples/bsp/boards.h:59-60 | the two register writes give the macro's OUT value |
| `BoardSupport.Gpio.LedsInvert` | examples/bsp/boards.h:64-66 | the two register writes give the macro's OUT value |
| `BoardSupport.Bsp.constructor` | examples/bsp/bsp.c:54-65 | power-up values of the static variables |
| `BoardSupport.Bsp.LedIndication` | examples/bsp/bsp.c:228-449 | new OUT register, control state, return code and timer request of every indication |
| `BoardSupport.Bsp.LinkIndication` | examples/bsp/bsp.c:235-356 | the cases Idle to Connected |
| `BoardSupport.Bsp.BlinkIndication` | examples/bsp/bsp.c:240-345 | the blinking cases, each with its own pair of intervals |
| `BoardSupport.Bsp.BlinkLed0` | examples/bsp/bsp.c:242-261 | the common part of the blinking cases |
| `BoardSupport.Bsp.PacketIndication` | examples/bsp/bsp.c:358-380 | the packet cases |
| `BoardSupport.Bsp.AlertIndication` | examples/bsp/bsp.c:388-412 | the alert cases |
| `BoardSupport.Bsp.TakeOver` | examples/bsp/bsp.c:382-442 | the cases that drive every LED |
| `BoardSupport.Bsp.IndicationSet` | examples/bsp/bsp.c:484-497 | one step of the LED machine; nothing happens unless LEDs were enabled |
| `BoardSupport.Bsp.LedsTimerHandler` | examples/bsp/bsp.c:459-467 | a fire of the LED timer is one step that shows the stable state again |
| `BoardSupport.Bsp.AlertTimerHandler` | examples/bsp/bsp.c:474-478 | a tick of the alert timer is one step |
| `BoardSupport.Bsp.ButtonEventHandler` | examples/bsp/bsp.c:165-210 | the search loop, the new button state, the event given to the callback and the long-push delay of 1000 ms |
| `BoardSupport.Bsp.ButtonTimerHandler` | examples/bsp/bsp.c:216-219 | an expiry is a long push of the remembered pin |
| `BoardSupport.Bsp.EventToButtonActionAssign` | examples/bsp/bsp.c:597-634 | the whole new table and the return code |
| `BoardSupport.FirstInitialisation` | examples/bsp/bsp.c:511-591 | power-up and initialisation with any flags lead to the states the LED and button runs start from, whatever the libraries answer; it succeeds if and only if every timer the flags call for was created |
| `BoardSupport.Bsp.Init` | examples/bsp/bsp.c:511-591 | bindings, registers, timers, return code and the timers created, from any state and after any failure; all LEDs dark if enabled, even if the buttons failed |
| `BoardSupport.Bsp.InitButtons` | examples/bsp/bsp.c:526-553 | every push is bound even if a later call fails; the code is that of the first failing call and the timer is created only if none failed |
| `BoardSupport.Bsp.BindDefaults` | examples/bsp/bsp.c:530-533 | the loop binds the default event to every button's push and never stops early |
| `BoardSupport.Bsp.InitLeds` | examples/bsp/bsp.c:570-574 | every LED pin is an output and every LED dark, whatever the polarity; no other pin's level changes |
| `BoardSupport.Bsp.InitTimers` | examples/bsp/bsp.c:577-587 | code and created timers after the two creations, each made only if all before it succeeded |
| `BoardSupport.Bsp.ButtonsStateGet` | examples/bsp/bsp.c:118-137 | bit i is set if and only if button i exists and its pin reads low, for all 32 bits |
| `BoardSupport.Bsp.ButtonIsPressed` | examples/bsp/bsp.c:140-156 | true if and only if the button exists and its pin reads low |
| `BoardSupport.Bsp.WakeupButtonsSet` | examples/bsp/bsp.c:657-672 | bits 16 and 17 of a button's pin configuration are both set if it is selected and both clear otherwise; no other bit or pin changes |
| `BtnAnt.AntButtons.Configure` | examples/bsp/bsp_btn_ant.c:61-89 | the binding made by both configuration functions; always success |
| `BtnAnt.AntButtons.OnAntEvt` | examples/bsp/bsp_btn_ant.c:101-127 | one step of the ANT machine |
| `BtnAnt.AntButtons.Init` | examples/bsp/bsp_btn_ant.c:130-144 | binds button 3 according to the channel flag |
| `BtnAnt.AntButtons.SleepModePrepare` | examples/bsp/bsp_btn_ant.c:92-98 | of the buttons only number 3 has bits 16 and 17 of its pin configuration set, the others neither |

## Left out

- The timer library: how long a timer takes, and which delay a second start of a running timer gets, so
  neither the time to a long push when two buttons overlap nor the length of a packet indication during
  blinking is covered. Blink timing charges each fire with the delay it requests.
- The button driver: debouncing and pin-to-action translation; the model starts at the reported action.
- Runs with a second initialisation. `BoardSupport.Bsp.Init` itself is modelled from any state, but the run
  theorems start after the first one.
- Undefined behaviour of the C expression `1 << 31`; a mask bit is a set member.
- Drive and pull settings of pins, the UART text output, the NFC wake-up, and the one-line forwards that
  enable and disable the buttons.
- The reduced build variants (`BSP_SIMPLE`, no LEDs, no buttons) and the one-LED board arduino_primo.h.
- The BLE button module: it binds three actions where the ANT module binds one, by the same calls.
- The radio protocol of the top-level README, the device headers and the start-up code.
