/**
  Whole-counter runs: a client builds a counter, mounts one seconds digit,
  registers callbacks and drives the clock by hand. Each run states what
  the source promises a user of the library would see.
 */
module Scenarios {
  import opened Wrappers
  import opened Offsets
  import opened Digits
  import opened Events
  import opened CounterEngine

  /** A slot showing the last digit of the seconds, as `digit sec char1` does. */
  function SecondsDigit(text: string): Slot {
    Slot(Some(Sec), Some(1), text)
  }

  /** A template with one root holding one seconds digit; it parses to `[[SecondsDigit("0")]]`. */
  const SecondsTemplate := "<div><span class=\"digit sec char1\">0</span></div>"

  /** A `tick` callback that calls `stop()` and returns nothing. */
  const Stopper := Listener(1, false, None, true)

  /** Triggering `tick` with only `Stopper` registered calls it, so it stops the counter. */
  lemma StopperStops()
    ensures AnyStops(Invoked([Stopper])) && NotPrevented([])
  {
    assert Invoked([Stopper]) == [Stopper];
    assert [Stopper][0].callsStop;
  }

  /** The breakdown of a whole number of seconds below a minute. */
  lemma SecondsOnly(t0: int, k: nat)
    requires k < 60
    ensures Compute(t0 + 1000 * k, t0) == Breakdown(k, 0, 0, 0, k)
  {
    WholeSecondOffset(t0, k);
    BreakdownUnique(t0 + 1000 * k, t0, 0, 0, 0, k);
  }

  /** What the seconds digit reads once rendered from `k` whole seconds, whatever it read before. */
  lemma SecondsDigitText(t0: int, k: nat, text: string)
    requires k < 10
    ensures Rendered(Compute(t0 + 1000 * k, t0), [SecondsDigit(text)]) == [SecondsDigit([DigitChar(k)])]
  {
    SecondsOnly(t0, k);
    SlotDigit(k, 1);
    var c := Compute(t0 + 1000 * k, t0);
    assert CarriedUnit([SecondsDigit(text)], 1) == Some(Sec);
    assert RenderedAt(c, [SecondsDigit(text)], 0) == SecondsDigit([DigitChar(k)]);
  }

  /**
    A fresh counter given a template of one seconds digit, mounted, started
    at `t0` and ticked five seconds later, shows 5 and keeps running.
   */
  method TickRenders(t0: int) returns (shown: string, stillRunning: bool, offset: Option<int>)
    ensures shown == "5" && stillRunning && offset == Some(5)
  {
    var c := new Counter(t0);
    var r := c.SetTemplate(SecondsTemplate, [[SecondsDigit("0")]], t0);
    r := c.Attach(true, t0);
    SecondsDigitText(t0, 0, "0");
    assert c.digits[..] == [SecondsDigit("0")];
    c.Start(t0);
    assert c.running && c.digits[..] == [SecondsDigit("0")];
    c.Tick(t0 + 1000 * 5);
    SecondsDigitText(t0, 5, "0");
    SecondsOnly(t0, 5);
    assert c.digits[..] == [SecondsDigit("5")];
    shown := c.digits[0].text;
    stillRunning := c.running;
    offset := c.Offset();
  }

  /**
    A `tick` callback that calls `stop()` stops the counter during the tick.
    `stop` recalculates before it clears the ticker, and it is given the
    tick's clock value, so the offset read afterwards is 5.
   */
  method TickStoppedByCallback(t0: int) returns (stillRunning: bool, offset: Option<int>)
    ensures !stillRunning && offset == Some(5)
  {
    var c := new Counter(t0);
    c.On(TickEvent, Stopper);
    c.Start(t0);
    assert Listeners(c.events, TickEvent) == [Stopper] && Listeners(c.events, StopEvent) == [];
    StopperStops();
    c.Tick(t0 + 1000 * 5);
    SecondsOnly(t0, 5);
    stillRunning := c.running;
    offset := c.Offset();
  }

  /** The default template's digits, `DDD HH MM SS`, for 1 day, 2 hours, 3 minutes and 4 seconds. */
  const DefaultShown := [
    Slot(Some(Day), Some(3), "0"), Slot(Some(Day), Some(2), "0"), Slot(Some(Day), Some(1), "1"),
    Slot(Some(Hrs), Some(2), "0"), Slot(Some(Hrs), Some(1), "2"),
    Slot(Some(Min), Some(2), "0"), Slot(Some(Min), Some(1), "3"),
    Slot(Some(Sec), Some(2), "0"), Slot(Some(Sec), Some(1), "4")]

  /** Slot `i` of the default template after one pass over 1 day, 2 hours, 3 minutes and 4 seconds. */
  lemma DefaultSlotShown(i: nat)
    requires i < |DefaultSlots|
    ensures RenderedAt(Breakdown(93784, 1, 2, 3, 4), DefaultSlots, i) == DefaultShown[i]
  {
    var s := DefaultSlots[i];
    assert CarriedUnit(DefaultSlots, i + 1) == s.unit;
    assert Pow10(1) == 10 && Pow10(2) == 100;
    SlotDigit(UnitValue(Breakdown(93784, 1, 2, 3, 4), s.unit.value), s.charPos.value);
  }

  /** One pass over the default template's digits shows each field zero-padded to its width. */
  lemma DefaultTemplateDigits(t0: int)
    ensures Rendered(Compute(t0 + 1000 * 93784, t0), DefaultSlots) == DefaultShown
  {
    WholeSecondOffset(t0, 93784);
    BreakdownUnique(t0 + 1000 * 93784, t0, 1, 2, 3, 4);
    var r := Rendered(Breakdown(93784, 1, 2, 3, 4), DefaultSlots);
    forall i | 0 <= i < |DefaultSlots|
      ensures r[i] == DefaultShown[i]
    {
      DefaultSlotShown(i);
    }
  }

  /**
    A counter attached to the default template 1 day, 2 hours, 3 minutes
    and 4 seconds after its timestamp shows `001 02 03 04`.
   */
  method DefaultTemplateAttach(t0: int) returns (shown: seq<Slot>)
    ensures shown == DefaultShown
  {
    var c := new Counter(t0);
    var r := c.Attach(true, t0 + 1000 * 93784);
    DefaultTemplateDigits(t0);
    shown := c.digits[..];
  }

  /**
    Starting twice leaves the first start's calculation in place: the
    second `start` finds the ticker set and does nothing.
   */
  method StartTwice(t0: int) returns (first: Option<int>, second: Option<int>, stillRunning: bool)
    ensures first == Some(0) && second == Some(0) && stillRunning
  {
    var c := new Counter(t0);
    c.Start(t0);
    first := c.Offset();
    c.Start(t0 + 3000);
    second := c.Offset();
    stillRunning := c.running;
    RoundSecondsUnique(0, 0);
  }

  /**
    `off` as written keeps the callback it was asked to remove: the `tick`
    list still holds it afterwards.
   */
  method OffAsWrittenKeepsCallback(t0: int) returns (kept: bool)
    ensures kept
  {
    var c := new Counter(t0);
    c.On(TickEvent, Stopper);
    c.OffAsWritten(TickEvent, Some(Stopper));
    kept := Stopper in Listeners(c.events, TickEvent);
  }

  /** The intended `off` removes the callback. */
  method OffRemovesCallback(t0: int) returns (kept: bool)
    ensures !kept
  {
    var c := new Counter(t0);
    c.On(TickEvent, Stopper);
    c.Off(TickEvent, Some(Stopper));
    OffUndoesOn([], Stopper);
    kept := Stopper in Listeners(c.events, TickEvent);
  }
}
