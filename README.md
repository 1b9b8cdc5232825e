# Counter timer engine — a Dafny model

This project models the engine of the `Counter` widget in `src/counter.js`.
A `Counter` counts the time from now to a target timestamp, or from it. Once
a second it recalculates the signed offset in whole seconds, splits its
magnitude into days, hours, minutes and seconds, and writes the result into
the `.digit` elements of its template. Along the way it fires the `start`,
`stop`, `tick` and `destroy` events, and callbacks can veto each of them.

The model has five modules:

- `Offsets` (`offsets.dfy`) covers `_recalc`. It rounds milliseconds to
  seconds as `Math.round` does and splits the magnitude into days, hours,
  minutes and seconds.
- `Digits` (`digits.dfy`) covers `_render`. It models the decimal text of a
  unit, the character a `charN` slot shows, and what one pass over the slots
  writes. The pass includes the `property`/`text` values that survive from
  one iteration to the next, because the source declares them with `var`.
- `Events` (`events.dfy`) describes the listener lists of `trigger`, `on`
  and `off` as functions. A callback is modelled by what it does when
  called:
  - whether it returns `false`;
  - what it writes into the event's `defaultPrevented`;
  - whether it calls `stop()` on the counter.
- `CounterEngine` (`counter.dfy`) holds the class `Counter`. Its fields
  mirror `_template`, `_timestamp`, `_events`, `_digits`, `_interval` and
  `_calc`, and it has one method per prototype function. `_digits` is an
  array of slots that `_render` updates in place. `trigger` and `stop` are
  mutually recursive, as in the source, where a `tick` callback may call
  `stop()`.
- `Scenarios` (`scenarios.dfy`) holds whole runs of a client that drives the
  clock by hand.

The clock is a parameter `now` (milliseconds) of every operation that reads
`new Date()`. The ticker set by `setInterval` is the boolean `running`.
Each call to `_tick` is a call of `Tick(now)`.

Where the documented behaviour of the widget and the code differ, the model
follows the code:

- A `.digit` element without a unit class is not skipped. It inherits the
  unit of the nearest earlier element that has one, because `property`
  keeps its value across iterations of the `_render` loop.
- `detach()` only takes the element out of its parent. It does not stop the
  ticker or drop the element.
- After `destroy()`, `start()` recalculates and runs again. Nothing marks a
  destroyed counter.
- `offset()` is defined right after construction, because the constructor
  calls `init`, which calls `_recalc`. It is undefined (`None`) only after
  `destroy()`.

## Model

| member | source | states |
|---|---|---|
| `Offsets.RoundSeconds` | src/counter.js:34 | The rounded count `k` is the integer whose interval `[1000k-500, 1000k+500)` holds the milliseconds, so halves round upwards as `Math.round` does. |
| `Offsets.RoundSecondsUnique` | src/counter.js:34 | Any integer whose rounding interval holds the milliseconds is the rounded value, so rounding has exactly one answer. |
| `Offsets.Compute` | src/counter.js:29-45 | `_calc.offset` is the rounded signed difference between clock and timestamp. `d*86400 + h*3600 + m*60 + s` equals its magnitude, with `h < 24`, `m < 60` and `s < 60`. |
| `Offsets.SplitSeconds` | src/counter.js:37-44 | Days, hours, minutes and seconds taken by remainders add back up to the total number of seconds, and hours stay below 24. |
| `Offsets.BreakdownUnique` | src/counter.js:37-44 | Any split with hours below 24 and minutes and seconds below 60 is the one computed. So the remainder form and the source's successive subtractions give the same fields. |
| `Offsets.WholeSecondOffset` | src/counter.js:31-44 | A clock exactly `k` seconds past the timestamp reports offset `k`, and its fields add up to `abs(k)`. |
| `Offsets.SignOnlyInOffset` | src/counter.js:34-37 | The same number of seconds before and after the timestamp gives opposite offsets and identical days, hours, minutes and seconds (`Math.abs`). |
| `Digits.DecimalText` | src/counter.js:70 | `toString()` of a field is non-empty and all digits, has no leading zero, and has exactly as many digits as the number needs. |
| `Digits.ParseDecimalText` | src/counter.js:70 | Reading the decimal text back gives the number (round trip). |
| `Digits.UnitValue` | src/counter.js:62-70 | `this._calc[property]`, where `property` is the first letter of the unit class. |
| `Digits.SlotText` | src/counter.js:70-77 | The text a slot of a given value and `charN` marker shows. It is all digits, and at most one character when the slot has a `charN` marker. |
| `Digits.SlotWholeNumber` | src/counter.js:68-70 | A slot without a `charN` class shows digits that read back as its field's value. |
| `Digits.DigitOfText` | src/counter.js:73-76 | The N-th character from the right of the text is the arithmetic digit `n / 10^(N-1) % 10`. |
| `Digits.SlotDigit` | src/counter.js:73-77 | A `charN` slot with N >= 1 shows the N-th decimal digit of its value. The `"0"` written for a text that is too short is exactly the missing digit. |
| `Digits.SecondsExample` | src/counter.js:70-77 | For 45 seconds: `sec` shows "45", `char1` "5", `char2` "4", `char3` "0", and `char0` shows "" (`substr(length, 1)`). |
| `Digits.CarriedUnit` | src/counter.js:59-65 | The value `property` holds after the loop has looked at the first `n` slots. It carries over from earlier iterations because it is declared with `var`. |
| `Digits.TextFor` | src/counter.js:67-77 | The value `text` is given at slot `i`: the slot text of the carried unit's field, or nothing while no unit is in force. |
| `Digits.CarriedText` | src/counter.js:59-78 | The value `text` holds after the loop has looked at the first `n` slots. |
| `Digits.Writes` | src/counter.js:81-83 | Slot `i` is written exactly when `text` is defined there and differs from the slot's current text. |
| `Digits.Written` | src/counter.js:57-84 | The indices of the slots one pass writes. |
| `Digits.RenderedAt` | src/counter.js:81-83 | Slot `i` after the pass: the new text if it is written, otherwise unchanged. |
| `Digits.Rendered` | src/counter.js:57-84 | The slots after one whole pass of the loop. |
| `Digits.CarriedUnitIsNearest` | src/counter.js:59-65 | The unit in force at a slot is `u` if and only if the nearest slot at or before it that has a unit class has `u`. |
| `Digits.CarriedUnitNone` | src/counter.js:59-68 | No unit is in force if and only if no slot so far has a unit class. |
| `Digits.NoUnitsNoWrites` | src/counter.js:68-83 | Without any unit class nothing is written and the slots are unchanged. |
| `Digits.RenderedKeepsMarkers` | src/counter.js:81-83 | A pass keeps the number of slots. Each slot keeps its unit and `charN` marker and differs at most in its text, so the unit carried into every slot is unchanged. |
| `Digits.RenderIdempotent` | src/counter.js:81-83 | A second pass with the same calculation writes nothing and changes nothing. |
| `Digits.InheritedUnitExample` | src/counter.js:59-65 | A slot without a unit class after a `sec` slot shows a digit of the seconds. |
| `Events.Invoked` | src/counter.js:279-285 | The callbacks `trigger` calls, in order: from the last registered backwards, up to and including the first that returns `false`. |
| `Events.PreventedAfter` | src/counter.js:271-283 | The event's `defaultPrevented` after the called callbacks have run: each may overwrite it, and one returning `false` sets it. |
| `Events.NotPrevented` | src/counter.js:269-288 | What `trigger` returns: the negation of `defaultPrevented` after the walk. |
| `Events.InvokedReversePrefix` | src/counter.js:279-285 | `trigger` calls the registered callbacks from last to first, at least one when there is one. It stops only after one that returns `false`, and none before it returns `false`. |
| `Events.PreventedAfterEndsFalse` | src/counter.js:281-283 | A walk that ends with a callback returning `false` leaves `defaultPrevented` true, whatever earlier callbacks wrote. |
| `Events.PreventedAfterNoWrites` | src/counter.js:271-288 | Callbacks that neither return `false` nor write `defaultPrevented` leave the event not prevented. |
| `Events.ReturningFalsePrevents` | src/counter.js:279-288 | If any registered callback returns `false`, `trigger` returns `false`. |
| `Events.NotPreventedIffNoFalse` | src/counter.js:279-288 | When no callback writes `defaultPrevented`, `trigger` returns true if and only if no callback returns `false`. |
| `Events.NoneStopsInvoked` | src/counter.js:279-285 | Callbacks none of which calls `stop()` cannot stop the counter from inside `trigger`. |
| `Events.TwoListenersExample` | src/counter.js:280-284 | With A registered before B, B is called first. If B returns `false`, A is never called and the event is prevented. |
| `Events.Without` | src/counter.js:315-328 | The callbacks left are exactly those of the list that the argument does not match by identity (`===`), and there are no more of them than before. |
| `Events.WithoutAppend` | src/counter.js:319-320 | Removing callbacks from two lists joined is removing from each and joining the results. |
| `Events.WithoutNoMatch` | src/counter.js:319-320 | A list with no matching callback is left as it is. |
| `Events.OffUndoesOn` | src/counter.js:298-328 | `off(name, cb)` after `on(name, cb)` of a callback not yet registered restores the list. |
| `Events.OffAllEmpties` | src/counter.js:319 | `off(name)` without a callback empties the list. |
| `Events.Collected` | src/counter.js:316-322 | The `result` array of `off` after its first loop has looked at the first `n` indices, with the intended guard. |
| `Events.CollectedMatches` | src/counter.js:317-322 | The first loop of `off` (intended guard) collects exactly the indices of the matching callbacks, in increasing order. |
| `Events.KeepFromMatches` | src/counter.js:325-327 | Splicing out the collected indices from the highest down leaves exactly the callbacks `Without` keeps, in order. |
| `Events.ListAsNumber` | src/counter.js:318 | The number `<` makes of `this._events[name]`: an absent list is `NaN`, the empty list is `""` and so 0, and a list of functions is their source text and so `NaN`. |
| `Events.OffGuardAsWritten` | src/counter.js:318 | The loop guard as written, `(i < list) ? list.length : 0`, with that coercion. |
| `Events.OffGuardAsWrittenIsZero` | src/counter.js:318 | The loop guard as written, `(i < list) ? list.length : 0`, is 0 for every index and every list, absent, empty or not. |
| `Events.OffGuardCounterexample` | src/counter.js:318 | For a list holding one callback, the intended guard `0 < list.length` holds and the written one is 0. |
| `CounterEngine.Counter.constructor` | src/counter.js:7-19 | The default template, the timestamp is now, no callbacks, no element, no ticker, and offset 0. |
| `CounterEngine.Counter.Init` | src/counter.js:115-117 | Recalculates at `now`; nothing else changes. |
| `CounterEngine.Counter.Recalc` | src/counter.js:29-45 | `_calc` becomes `Compute(now, timestamp)`; template, timestamp, callbacks, element and ticker are unchanged. |
| `CounterEngine.Counter.Render` | src/counter.js:53-85 | In place, the slots become one rendering pass over the old slots, and the written indices are exactly those the pass writes. Nothing happens without digits. |
| `CounterEngine.Counter.Trigger` | src/counter.js:269-289 | Returns "not prevented" for the registered callbacks. The ticker is cleared if and only if a called callback calls `stop()` while running and the `stop` event is not prevented. The offset is recalculated when that happens. |
| `CounterEngine.Counter.Stop` | src/counter.js:230-247 | When idle, nothing changes. When running, it recalculates and stops unless a `stop` callback prevents it. |
| `CounterEngine.Counter.Start` | src/counter.js:201-223 | When running, nothing changes. When idle, it recalculates; unless a `start` callback prevents it, it renders and runs. |
| `CounterEngine.Counter.Toggle` | src/counter.js:254-261 | Acts as `Stop` when running, with the slots untouched, and as `Start` otherwise. |
| `CounterEngine.Counter.Tick` | src/counter.js:93-108 | Recalculates. Still running exactly when no called `tick` callback stopped it. It renders only when `tick` was not prevented and the counter still runs. |
| `CounterEngine.Counter.Destroy` | src/counter.js:124-141 | Unless `destroy` is prevented: no ticker, no element, no digits, no calculation, and `Offset()` undefined. If prevented, only the callbacks' own `stop()` calls have an effect. |
| `CounterEngine.Counter.Attach` | src/counter.js:148-183 | Reads the parse of the stored template. Fails with the template error if and only if it has other than one root, after detaching. Otherwise fresh digits from that root, mounted only on an element parent, recalculated and rendered. |
| `CounterEngine.Counter.Detach` | src/counter.js:190-194 | The element is no longer mounted; nothing else changes. |
| `CounterEngine.Counter.Offset` | src/counter.js:335-337 | Defined if and only if there is a calculation, and then the rounded offset at the last clock reading. |
| `CounterEngine.Counter.SetTimestamp` | src/counter.js:345-359 | Stores the timestamp, recalculates against it and renders; no event fires. |
| `CounterEngine.Counter.SetTemplate` | src/counter.js:367-380 | Stores the template and its parse, and attaches again to the parent the element had, with the same failure rule as `Attach`. |
| `CounterEngine.Counter.On` | src/counter.js:298-306 | Appends the callback to the list of its event and creates the list when absent. Other events are unchanged. |
| `CounterEngine.Counter.SpliceOut` | src/counter.js:325-327 | Splicing increasing indices from the highest down removes exactly those positions from the original list. |
| `CounterEngine.Counter.Off` | src/counter.js:315-328 | With the intended guard, the list becomes `Without(list, callback)`, and an absent list stays absent. |
| `CounterEngine.Counter.OffAsWritten` | src/counter.js:315-328 | With the guard as written, the callbacks are left exactly as they were. |
| `Scenarios.SecondsDigitText` | src/counter.js:68-83 | A `sec char1` slot rendered `k < 10` seconds after the timestamp shows the digit `k`, whatever it showed before. |
| `Scenarios.TickRenders` | src/counter.js:93-108 | Given a template of one `sec char1` digit, attached, started at `t0` and ticked at `t0 + 5s`, the digit shows "5", the counter runs, and the offset is 5. |
| `Scenarios.TickStoppedByCallback` | src/counter.js:93-108 | A `tick` callback calling `stop()` stops the counter during the tick. `stop` recalculates with the clock value the tick was given, so the offset is 5. |
| `Scenarios.DefaultTemplateDigits` | src/counter.js:57-84 | One pass over the default template's nine digits, 1 day 2 hours 3 minutes 4 seconds past the timestamp, shows `001 02 03 04`. |
| `Scenarios.DefaultTemplateAttach` | src/counter.js:148-183 | A fresh counter, which holds the default template, attached at that clock value shows those digits. |
| `Scenarios.StartTwice` | src/counter.js:201-205 | A second `start()` while running changes nothing: the offset stays that of the first start. |
| `Scenarios.OffAsWrittenKeepsCallback` | src/counter.js:318 | `off('tick', cb)` as written leaves `cb` registered. |
| `Scenarios.OffRemovesCallback` | src/counter.js:315-328 | The intended `off('tick', cb)` removes `cb`. |

## Left out

- The DOM:
  - Next to the template string the counter keeps what the browser would parse from it: one list of `.digit` slots per top-level node. The constructor sets it to the default template's parse. `template(val)` is given the parse of `val` along with it, and the model does not check that the two agree.
  - Slot classes are already parsed into a unit and a `charN` position, so the class-name regular expressions are not modelled.
  - `parent` is reduced to whether it is an element, and the `NodeList` and selector-string forms of `attach` are not resolved.
  - `appendChild` and `removeChild` are the boolean `mounted`.
- Timers: `setInterval` and `clearInterval` are the boolean `running`, and the once-a-second call of `_tick` is a call of `Tick(now)` made by the client.
- The clock: `new Date().getTime()` is the parameter `now`, and the `timeStamp` field of the event object is not modelled. Every clock reading within one top-level call sees the same `now`. This covers a `stop()` that a callback calls during `trigger`, and the constructor, whose timestamp reading and `init`'s recalculation become one value. In the source each reading is a fresh `new Date()`, so a nested `stop()` could recalculate from a later millisecond and land on the next rounded second.
- Floating point: timestamps and clock readings are integers in milliseconds, and `Math.round` and `Math.floor` are exact on them.
- `CounterEngine.Counter.SetTimestamp`: takes an integer. The coercion `val*1` of strings and other values, and the `NaN` it can produce, are not modelled.
- `CounterEngine.Counter.SetTemplate`: takes a string. A call with a non-string value, which the source ignores, is not modelled.
- The getters: `timestamp()` and `template()` with no argument return the fields `timestamp` and `template`.
- Callbacks:
  - The only thing a callback can do to the counter is call `stop()`. Callbacks that call `start`, `on`, `off`, `destroy` or `attach` while `trigger` iterates are not modelled.
  - The `target` and `type` fields of the event object are not modelled.
- `CounterEngine.Counter.On`: requires that a `stop` callback does not itself call `stop()`. The source would recurse without end once such a callback is called, because `_interval` is still set while `stop` fires. A later `stop` callback that returns `false` would keep it from being called, and that case is not modelled either. Event names that are properties of `Object.prototype` (`toString`, `constructor`, `__proto__` and the like) make `on` throw a `TypeError` in the source, because `this._events[name]` is then an inherited non-array. This error is not modelled: `On` appends for every name.
- Registration of the constructor as `window.Counter` is not modelled.
- The source does not check that a callback is a function: `on` accepts any value, and `trigger` would throw on a non-function. The model's callbacks are all functions.

## Findings

| source | as written | input that shows it | evidently intended | confidence | as-written member | corrected member |
|---|---|---|---|---|---|---|
| src/counter.js:318 | `i < this._events[eventName] ? this._events[eventName].length : 0` parses as `(i < list) ? list.length : 0`. The list coerces to `""` (0) when empty and to `NaN` otherwise, so the guard is 0 from the first test and `off` never removes anything. | `on('tick', cb)` then `off('tick', cb)`: `cb` stays registered. | `i < (list ? list.length : 0)`: remove every matching callback (every callback when none is given). | not executed | `CounterEngine.Counter.OffAsWritten`, `Events.OffGuardAsWrittenIsZero`, `Scenarios.OffAsWrittenKeepsCallback` | `CounterEngine.Counter.Off`, `Events.OffUndoesOn`, `Scenarios.OffRemovesCallback` |
