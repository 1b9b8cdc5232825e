/**
  The counter object of src/counter.js as a class: the fields the source
  keeps on `this` and one method per prototype function. The clock and the
  host element are parameters, the template is kept together with its
  parse, and `running` stands for `_interval` being set.
 */
module CounterEngine {
  import opened Wrappers
  import opened Offsets
  import opened Digits
  import opened Events

  const TickEvent := "tick"
  const StartEvent := "start"
  const StopEvent := "stop"
  const DestroyEvent := "destroy"

  /** The message `attach` throws when the template does not have exactly one root. */
  const TemplateError := "Counter -> template error (wrap everything aroung one element)"

  const DefaultTemplate := "<div class=\"counter\"><span class=\"digit day char3\">0</span><span class=\"digit day char2\">0</span><span class=\"digit day char1 sep\">0</span><span class=\"digit hrs char2\">0</span><span class=\"digit hrs char1 sep dot\">0</span><span class=\"digit min char2\">0</span><span class=\"digit min char1 sep dot\">0</span><span class=\"digit sec char2\">0</span><span class=\"digit sec char1\">0</span></div>"

  /** The `.digit` elements of the default template (src/counter.js:8), in document order. */
  const DefaultSlots: seq<Slot> := [
    Slot(Some(Day), Some(3), "0"), Slot(Some(Day), Some(2), "0"), Slot(Some(Day), Some(1), "0"),
    Slot(Some(Hrs), Some(2), "0"), Slot(Some(Hrs), Some(1), "0"),
    Slot(Some(Min), Some(2), "0"), Slot(Some(Min), Some(1), "0"),
    Slot(Some(Sec), Some(2), "0"), Slot(Some(Sec), Some(1), "0")]

  class Counter {
    /** `_template` */
    var template: string
    /**
      What the host parser makes of `_template`: one list of `.digit` slots
      per top-level node. It is set together with `template`.
     */
    var roots: seq<seq<Slot>>
    /** `_timestamp`, in milliseconds */
    var timestamp: int
    /** `_events` */
    var events: Registry
    /** `_digits`; `null` exactly when `_element` is `null` */
    var digits: array?<Slot>
    /** `_element.parentNode` is set */
    var mounted: bool
    /** `_interval` is set: a ticker calls `_tick` every second */
    var running: bool
    /** `_calc`; `None` stands for the empty object `{}` */
    var calculated: Option<Breakdown>
    /** The clock reading of the last `_recalc` */
    ghost var clock: int

    /**
      The object invariant: there is always a calculation to render from when
      there are digits (the source would otherwise call `toString` on
      `undefined`), only an existing element can be mounted, the calculation
      is that of the timestamp at the last clock reading, and no `stop`
      callback calls `stop()` (which would recurse without end).
     */
    ghost predicate Valid()
      reads this
    {
      && Wellformed()
      && (digits != null ==> calculated.Some?)
      && (calculated.Some? ==> calculated.value == Compute(clock, timestamp))
    }

    /** The part of `Valid` that does not involve the calculation. */
    ghost predicate Wellformed()
      reads this
    {
      && (mounted ==> digits != null)
      && NoneStops(Listeners(events, StopEvent))
    }

    /** The slots the counter writes into, empty when there is no element. */
    ghost function Slots(): seq<Slot>
      reads this, digits
    {
      if digits == null then [] else digits[..]
    }

    twostate predicate SameConfig()
      reads this
    {
      && template == old(template) && roots == old(roots)
      && timestamp == old(timestamp) && events == old(events)
    }

    twostate predicate SameElement()
      reads this
    {
      digits == old(digits) && mounted == old(mounted)
    }

    /**
      The state the callbacks `called` leave behind: each one that calls
      `stop()` stops a running counter unless a `stop` callback prevents it,
      and recalculates the offset on the way.
     */
    twostate predicate StopsFrom(called: seq<Listener>, now: int)
      reads this
    {
      var halted := old(running) && AnyStops(called);
      && running == (old(running) && !(AnyStops(called) && NotPrevented(Listeners(events, StopEvent))))
      && calculated == (if halted then Some(Compute(now, timestamp)) else old(calculated))
      && clock == (if halted then now else old(clock))
    }

    /** What `stop()` does: nothing when idle; otherwise recalculate and stop unless prevented. */
    twostate predicate StopEffect(now: int)
      reads this
    {
      if old(running) then
        && calculated == Some(Compute(now, timestamp)) && clock == now
        && running == !NotPrevented(Listeners(events, StopEvent))
      else
        running == old(running) && calculated == old(calculated) && clock == old(clock)
    }

    /**
      What `start()` does: nothing when running; otherwise recalculate, and
      unless the `start` event is prevented, render and run.
     */
    twostate predicate StartEffect(now: int)
      reads this, digits
    {
      if old(running) then
        && running && calculated == old(calculated) && clock == old(clock)
        && Slots() == old(Slots())
      else
        && calculated == Some(Compute(now, timestamp)) && clock == now
        && running == NotPrevented(Listeners(events, StartEvent))
        && (digits != null ==>
              Slots() == if running then Rendered(calculated.value, old(Slots())) else old(Slots()))
    }

    /** The constructor (src/counter.js:7-19): default template, the timestamp is now, then `init`. */
    constructor (now: int)
      ensures Valid()
      ensures template == DefaultTemplate && roots == [DefaultSlots]
      ensures timestamp == now && events == map[]
      ensures digits == null && !mounted && !running
      ensures calculated == Some(Compute(now, now)) && calculated.value.offset == 0
    {
      template := DefaultTemplate;
      roots := [DefaultSlots];
      timestamp := now;
      events := map[];
      digits := null;
      mounted := false;
      running := false;
      calculated := None;
      clock := now;
      new;
      Init(now);
      RoundSecondsUnique(0, 0);
    }

    /** `init`: compute the first offset. */
    method Init(now: int)
      requires Valid()
      modifies this
      ensures Valid() && SameConfig() && SameElement() && running == old(running)
      ensures calculated == Some(Compute(now, timestamp)) && clock == now
    {
      Recalc(now);
    }

    /** `_recalc`: the offset from `timestamp` to `now`, split by successive division. */
    method Recalc(now: int)
      requires Wellformed()
      modifies this
      ensures Valid() && SameConfig() && SameElement() && running == old(running)
      ensures calculated == Some(Compute(now, timestamp)) && clock == now
    {
      var offset := now - timestamp;
      var signed := RoundSeconds(offset);
      offset := Abs(signed);
      var d := offset / SecondsPerDay;
      offset := offset - d * SecondsPerDay;
      var h := offset / SecondsPerHour;
      offset := offset - h * SecondsPerHour;
      var m := offset / SecondsPerMinute;
      offset := offset - m * SecondsPerMinute;
      var s := offset;
      calculated := Some(Breakdown(signed, d, h, m, s));
      clock := now;
    }

    /**
      `_render`: one pass over the digits. `property` and `text` live across
      iterations, as the source's function-scoped `var`s do; a slot is
      written only when its text is defined and differs from the current one.
     */
    method Render() returns (written: set<nat>)
      requires Valid()
      modifies digits
      ensures digits != null ==> Slots() == Rendered(calculated.value, old(Slots()))
      ensures digits != null ==> written == Written(calculated.value, old(Slots()))
      ensures digits == null ==> written == {}
    {
      written := {};
      if digits == null {
        return;
      }
      var c := calculated.value;
      ghost var s := digits[..];
      var property: Option<Unit> := None;
      var text: Option<string> := None;
      var i := 0;
      while i < digits.Length
        invariant 0 <= i <= digits.Length == |s|
        invariant property == CarriedUnit(s, i)
        invariant text == CarriedText(c, s, i)
        invariant forall j :: 0 <= j < i ==> digits[j] == RenderedAt(c, s, j)
        invariant forall j :: i <= j < digits.Length ==> digits[j] == s[j]
        invariant forall j :: j in written <==> 0 <= j < i && Writes(c, s, j)
      {
        RenderStep(c, s, i);
        var slot := digits[i];
        if slot.unit.Some? {
          property := slot.unit;
        }
        if property.Some? {
          text := Some(SlotText(UnitValue(c, property.value), slot.charPos));
        }
        if text.Some? && slot.text != text.value {
          digits[i] := slot.(text := text.value);
          written := written + {i};
        }
        assert property == CarriedUnit(s, i + 1) && text == CarriedText(c, s, i + 1);
        assert digits[i] == RenderedAt(c, s, i);
        i := i + 1;
      }
      assert written == Written(c, s);
      assert digits[..] == Rendered(c, s);
    }

    /**
      `trigger`: call the callbacks for `name` from the last registered to
      the first, stopping at the first that returns `false`, and report
      whether the default was not prevented. A callback may call `stop()`.
     */
    method Trigger(name: string, now: int) returns (ok: bool)
      requires Valid()
      modifies this
      decreases if name == StopEvent then 0 else 2
      ensures Valid() && SameConfig() && SameElement()
      ensures ok == NotPrevented(Listeners(events, name))
      ensures StopsFrom(Invoked(Listeners(events, name)), now)
    {
      var prevented := false;
      ghost var called: seq<Listener> := [];
      ghost var stops := false;
      ghost var running0, calculated0, clock0 := running, calculated, clock;
      ghost var stopAllowed := NotPrevented(Listeners(events, StopEvent));
      if name in events {
        var ls := events[name];
        var i := |ls| - 1;
        assert ls[..i + 1] == ls;
        while i >= 0
          invariant -1 <= i < |ls|
          invariant Valid() && SameConfig() && SameElement()
          invariant called + Invoked(ls[..i + 1]) == Invoked(ls)
          invariant PreventedAfter(Invoked(ls), false) == PreventedAfter(Invoked(ls[..i + 1]), prevented)
          invariant stops == AnyStops(called)
          invariant running == (running0 && !(stops && stopAllowed))
          invariant calculated == (if running0 && stops then Some(Compute(now, timestamp)) else calculated0)
          invariant clock == (if running0 && stops then now else clock0)
          decreases i
        {
          var l := ls[i];
          InvokedStep(ls, i, prevented);
          ghost var calledBefore := called;
          if l.callsStop {
            Stop(now);
          }
          if l.setsPrevented.Some? {
            prevented := l.setsPrevented.value;
          }
          AnyStopsAppend(called, l);
          called := called + [l];
          stops := stops || l.callsStop;
          if l.returnsFalse {
            prevented := true;
            break;
          }
          AppendAssoc(calledBefore, [l], Invoked(ls[..i]));
          i := i - 1;
        }
        assert called == Invoked(ls) by {
          if i == -1 {
            assert ls[..i + 1] == [];
          }
        }
      }
      assert called == Invoked(Listeners(events, name));
      ok := !prevented;
    }

    /** `stop`: when running, recalculate, trigger `stop`, and unless prevented clear the ticker. */
    method Stop(now: int)
      requires Valid()
      modifies this
      decreases 1
      ensures Valid() && SameConfig() && SameElement()
      ensures StopEffect(now)
    {
      if !running {
        return;
      }
      Recalc(now);
      NoneStopsInvoked(Listeners(events, StopEvent));
      var ok := Trigger(StopEvent, now);
      if !ok {
        return;
      }
      running := false;
    }

    /** `start`: when idle, recalculate, trigger `start`, and unless prevented render and run. */
    method Start(now: int)
      requires Valid()
      modifies this, digits
      ensures Valid() && SameConfig() && SameElement()
      ensures StartEffect(now)
    {
      if running {
        return;
      }
      Recalc(now);
      var ok := Trigger(StartEvent, now);
      if !ok {
        return;
      }
      var _ := Render();
      running := true;
    }

    /** `toggle`: `stop` when running, `start` otherwise. */
    method Toggle(now: int)
      requires Valid()
      modifies this, digits
      ensures Valid() && SameConfig() && SameElement()
      ensures old(running) ==> StopEffect(now) && Slots() == old(Slots())
      ensures !old(running) ==> StartEffect(now)
    {
      if running {
        Stop(now);
      } else {
        Start(now);
      }
    }

    /**
      `_tick`: recalculate, trigger `tick`, and render only when the event
      was not prevented and the counter is still running afterwards.
     */
    method Tick(now: int)
      requires Valid()
      modifies this, digits
      ensures Valid() && SameConfig() && SameElement()
      ensures calculated == Some(Compute(now, timestamp)) && clock == now
      ensures running == (old(running) && !(AnyStops(Invoked(Listeners(events, TickEvent))) &&
                                            NotPrevented(Listeners(events, StopEvent))))
      ensures digits != null ==>
                Slots() == if NotPrevented(Listeners(events, TickEvent)) && running
                           then Rendered(calculated.value, old(Slots())) else old(Slots())
    {
      Recalc(now);
      var ok := Trigger(TickEvent, now);
      if !ok {
        return;
      }
      if !running {
        return;
      }
      var _ := Render();
    }

    /**
      `destroy`: trigger `destroy`; unless prevented, cancel the ticker,
      detach, and drop the element, the digits and the calculation.
     */
    method Destroy(now: int)
      requires Valid()
      modifies this
      ensures Valid() && SameConfig()
      ensures NotPrevented(Listeners(events, DestroyEvent)) ==>
                !running && digits == null && !mounted && calculated == None && Offset() == None
      ensures !NotPrevented(Listeners(events, DestroyEvent)) ==>
                SameElement() && StopsFrom(Invoked(Listeners(events, DestroyEvent)), now)
    {
      var ok := Trigger(DestroyEvent, now);
      if !ok {
        return;
      }
      // clearInterval(this._interval): the ticker is cancelled here and
      // `_interval` is cleared below.
      Detach();
      digits := null;
      running := false;
      calculated := None;
    }

    /**
      `attach`: detach, then build the element from the parse of the
      template. Anything but exactly one root throws, after the old element
      has already been detached.
     */
    method Attach(parentIsElement: bool, now: int) returns (r: Outcome<string>)
      requires Valid()
      modifies this
      ensures Valid() && SameConfig() && running == old(running)
      ensures r.Fail? <==> |roots| != 1
      ensures r.Fail? ==> r.error == TemplateError && !mounted && digits == old(digits)
                          && calculated == old(calculated) && clock == old(clock)
      ensures r.Pass? ==> digits != null && fresh(digits) && mounted == parentIsElement
                          && calculated == Some(Compute(now, timestamp)) && clock == now
                          && Slots() == Rendered(calculated.value, roots[0])
    {
      Detach();
      if |roots| != 1 {
        return Fail(TemplateError);
      }
      var slots := roots[0];
      digits := new Slot[|slots|](i requires 0 <= i < |slots| => slots[i]);
      assert digits[..] == slots;
      mounted := parentIsElement;
      Recalc(now);
      var _ := Render();
      r := Pass;
    }

    /** `detach`: take the element out of its parent, if it has one. */
    method Detach()
      requires Valid()
      modifies this`mounted
      ensures Valid() && !mounted
    {
      if digits != null && mounted {
        mounted := false;
      }
    }

    /** `offset()`: the signed offset of the last calculation; `undefined` after `destroy`. */
    function Offset(): (r: Option<int>)
      requires Valid()
      reads this
      ensures r.Some? <==> calculated.Some?
      ensures r.Some? ==> r.value == RoundSeconds(clock - timestamp)
    {
      if calculated.Some? then Some(calculated.value.offset) else None
    }

    /** `timestamp(val)`: store the new timestamp, recalculate and render; no event. */
    method SetTimestamp(val: int, now: int)
      requires Valid()
      modifies this, digits
      ensures Valid() && SameElement() && running == old(running)
      ensures template == old(template) && roots == old(roots)
      ensures events == old(events) && timestamp == val
      ensures calculated == Some(Compute(now, val)) && clock == now
      ensures digits != null ==> Slots() == Rendered(calculated.value, old(Slots()))
    {
      timestamp := val;
      Recalc(now);
      var _ := Render();
    }

    /**
      `template(val)`: store the template and attach again to the parent the
      element had, if any. `parsed` is what the host parser makes of `val`.
     */
    method SetTemplate(val: string, parsed: seq<seq<Slot>>, now: int) returns (r: Outcome<string>)
      requires Valid()
      modifies this
      ensures Valid() && template == val && roots == parsed
      ensures timestamp == old(timestamp) && events == old(events)
      ensures running == old(running)
      ensures r.Fail? <==> |parsed| != 1
      ensures r.Fail? ==> !mounted && digits == old(digits) && calculated == old(calculated)
      ensures r.Pass? ==> digits != null && fresh(digits) && mounted == old(mounted)
                          && calculated == Some(Compute(now, timestamp))
                          && Slots() == Rendered(calculated.value, parsed[0])
    {
      template := val;
      roots := parsed;
      var parentIsElement := digits != null && mounted;
      r := Attach(parentIsElement, now);
    }

    /** `on`: append the callback to the list of `name`, creating the list if needed. */
    method On(name: string, cb: Listener)
      requires Valid()
      requires name == StopEvent ==> !cb.callsStop
      modifies this`events
      ensures Valid()
      ensures events == old(events)[name := Listeners(old(events), name) + [cb]]
    {
      if name !in events {
        events := events[name := []];
      }
      events := events[name := events[name] + [cb]];
    }

    /**
      The second loop of `off` (src/counter.js:325-327): splice out the
      listed indices from the highest down, so the lower ones stay valid.
     */
    method SpliceOut(name: string, indices: seq<nat>)
      requires Valid()
      requires forall t :: 0 <= t < |indices| ==> indices[t] < |Listeners(events, name)|
      requires forall t, u :: 0 <= t < u < |indices| ==> indices[t] < indices[u]
      modifies this`events
      ensures Valid()
      ensures name in old(events) ==>
                events == old(events)[name := KeepFrom(old(events)[name], Positions(indices), 0)]
      ensures name !in old(events) ==> events == old(events)
    {
      ghost var ls := Listeners(events, name);
      ghost var removed := Positions(indices);
      var k := |indices| - 1;
      if name in old(events) {
        assert ls[..|ls|] == ls && KeepFrom(ls, removed, |ls|) == [];
        assert ls[..|ls|] + KeepFrom(ls, removed, |ls|) == ls;
        assert old(events)[name := ls] == old(events);
      }
      while k >= 0
        invariant -1 <= k < |indices|
        invariant name !in old(events) ==> events == old(events)
        invariant name in old(events) ==>
                    var low := if k + 1 < |indices| then indices[k + 1] else |ls|;
                    low <= |ls| && events == old(events)[name := ls[..low] + KeepFrom(ls, removed, low)]
        invariant Valid()
        decreases k + 1
      {
        var j := indices[k];
        ghost var low := if k + 1 < |indices| then indices[k + 1] else |ls|;
        assert j in removed;
        assert forall q :: j < q < low ==> q !in removed;
        assert name in old(events);
        SpliceStep(ls, removed, j, low);
        if name == StopEvent {
          SpliceNoneStops(events[name], j);
        }
        events := events[name := events[name][..j] + events[name][j + 1..]];
        k := k - 1;
      }
      if name in old(events) {
        var low := if 0 < |indices| then indices[0] else |ls|;
        assert forall q :: 0 <= q < low ==> q !in removed;
        KeepFromGap(ls, removed, 0, low);
        assert ls[..low] == ls[0..low];
        assert events == old(events)[name := KeepFrom(ls, removed, 0)];
        assert ls == old(events)[name];
      }
    }

    /**
      `off` with the loop guard its authors meant, `i < (list ? list.length : 0)`:
      collect the indices of the matching callbacks, then splice them out.
      Without a callback every callback for `name` goes.
     */
    method Off(name: string, cb: Option<Listener>)
      requires Valid()
      modifies this`events
      ensures Valid()
      ensures name in old(events) ==> events == old(events)[name := Without(old(events)[name], cb)]
      ensures name !in old(events) ==> events == old(events)
    {
      var ls := Listeners(events, name);
      var result: seq<nat> := [];
      var i := 0;
      while i < |ls|
        invariant 0 <= i <= |ls|
        invariant result == Collected(ls, cb, i)
      {
        if cb.None? || ls[i].id == cb.value.id {
          result := result + [i];
        }
        i := i + 1;
      }
      CollectedMatches(ls, cb, |ls|);
      SpliceOut(name, result);
      KeepFromMatches(ls, cb, Positions(result), 0);
    }

    /**
      `off` as written: the guard at src/counter.js:318 is
      `(i < list) ? list.length : 0`, which is 0 from the first test on, so
      the collecting loop exits before its body runs, nothing is collected
      and the splicing loop removes nothing.
     */
    method OffAsWritten(name: string, cb: Option<Listener>)
      requires Valid()
      modifies this`events
      ensures Valid()
      ensures events == old(events)
    {
      var x := Lookup(events, name);
      var ls := Listeners(events, name);
      var result: seq<nat> := [];
      var guard := OffGuardAsWritten(0, x);
      OffGuardAsWrittenIsZero(0, x);
      assert guard == 0 && result == Collected(ls, cb, 0);
      SpliceOut(name, result);
      if name in old(events) {
        KeepFromGap(ls, {}, 0, |ls|);
        assert ls[0..|ls|] == ls && KeepFrom(ls, {}, |ls|) == [];
        assert Positions(result) == {};
        assert KeepFrom(ls, Positions(result), 0) == ls;
        assert events == old(events)[name := ls];
      }
    }
  }
}
