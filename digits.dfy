/**
  The digit protocol of `_render` (src/counter.js:53-85): the decimal text of
  a unit, the character a `charN` slot shows, and what one pass over the
  slots writes.
 */
module Digits {
  import opened Wrappers
  import opened Offsets

  /** The unit marker of a slot: class `day`, `hrs`, `min` or `sec`. */
  datatype Unit = Day | Hrs | Min | Sec

  /**
    One `.digit` element: its unit marker, its `charN` marker (both already
    parsed from the class name) and its current text (`innerHTML`).
   */
  datatype Slot = Slot(unit: Option<Unit>, charPos: Option<nat>, text: string)

  /** `this._calc[property]`, where `property` is the first letter of the unit. */
  function UnitValue(c: Breakdown, u: Unit): nat {
    match u
    case Day => c.d
    case Hrs => c.h
    case Min => c.m
    case Sec => c.s
  }

  predicate IsDigit(ch: char) {
    '0' <= ch <= '9'
  }

  function DigitChar(d: nat): (ch: char)
    requires d < 10
    ensures IsDigit(ch)
  {
    ('0' as int + d) as char
  }

  function DigitValue(ch: char): nat
    requires IsDigit(ch)
  {
    ch as int - '0' as int
  }

  function Pow10(k: nat): (p: nat)
    ensures p >= 1
  {
    if k == 0 then 1 else 10 * Pow10(k - 1)
  }

  /**
    `n.toString()` for a non-negative integer: at least one character, all of
    them digits, no leading zero, and exactly as many digits as `n` needs.
   */
  function DecimalText(n: nat): (t: string)
    ensures 1 <= |t|
    ensures forall i :: 0 <= i < |t| ==> IsDigit(t[i])
    ensures |t| > 1 ==> t[0] != '0'
    ensures n < Pow10(|t|)
    ensures |t| > 1 ==> Pow10(|t| - 1) <= n
    decreases n
  {
    if n < 10 then [DigitChar(n)] else DecimalText(n / 10) + [DigitChar(n % 10)]
  }

  /** Reads a string of decimal digits as a number (the most significant digit first). */
  function ParseDecimal(t: string): nat
    requires forall i :: 0 <= i < |t| ==> IsDigit(t[i])
    decreases |t|
  {
    if t == [] then 0 else 10 * ParseDecimal(t[..|t| - 1]) + DigitValue(t[|t| - 1])
  }

  /** Reading the decimal text back gives the number: the whole-number display loses nothing. */
  lemma {:induction false} ParseDecimalText(n: nat)
    ensures ParseDecimal(DecimalText(n)) == n
    decreases n
  {
    var t := DecimalText(n);
    if n >= 10 {
      ParseDecimalText(n / 10);
      assert t[..|t| - 1] == DecimalText(n / 10);
    }
  }

  /**
    The text a slot of value `v` shows: the whole decimal text without a
    `charN` marker; with one, the N-th digit from the least significant end,
    `"0"` when the text is shorter than N, and `""` for `char0`, because
    `substr(length - 0, 1)` is empty.
   */
  function SlotText(v: nat, charPos: Option<nat>): (r: string)
    ensures forall i :: 0 <= i < |r| ==> IsDigit(r[i])
    ensures charPos.Some? ==> |r| <= 1
  {
    var t := DecimalText(v);
    match charPos
    case None => t
    case Some(n) =>
      if n <= |t| then (if n == 0 then "" else [t[|t| - n]]) else "0"
  }

  lemma DivDiv(n: nat, b: nat)
    requires b > 0
    ensures n / 10 / b == n / (10 * b)
  {
    var q := n / 10 / b;
    var r := n / 10 % b;
    assert n / 10 == b * q + r;
    assert n == 10 * (b * q + r) + n % 10;
    assert n == (10 * b) * q + (10 * r + n % 10);
    assert 10 * r + n % 10 < 10 * b;
    DivUnique(n, 10 * b, q, 10 * r + n % 10);
  }

  lemma {:induction false} Pow10Monotone(i: nat, j: nat)
    requires i <= j
    ensures Pow10(i) <= Pow10(j)
    decreases j
  {
    if i < j {
      Pow10Monotone(i, j - 1);
    }
  }

  /**
    The k-th character from the right of `n`'s decimal text is the k-th
    decimal digit of `n`, computed arithmetically.
   */
  lemma {:induction false} DigitOfText(n: nat, k: nat)
    requires 1 <= k <= |DecimalText(n)|
    ensures DecimalText(n)[|DecimalText(n)| - k] == DigitChar(n / Pow10(k - 1) % 10)
    decreases n
  {
    if n >= 10 && k > 1 {
      var t' := DecimalText(n / 10);
      DigitOfText(n / 10, k - 1);
      assert DecimalText(n)[|DecimalText(n)| - k] == t'[|t'| - (k - 1)];
      assert Pow10(k - 1) == 10 * Pow10(k - 2);
      DivDiv(n, Pow10(k - 2));
    }
  }

  /**
    Every `charN` slot with N >= 1 shows the N-th decimal digit of its value:
    the `"0"` the source writes for a too-short text is exactly the digit
    that is missing.
   */
  lemma SlotDigit(v: nat, k: nat)
    requires k >= 1
    ensures SlotText(v, Some(k)) == [DigitChar(v / Pow10(k - 1) % 10)]
  {
    var t := DecimalText(v);
    if k <= |t| {
      DigitOfText(v, k);
    } else {
      Pow10Monotone(|t|, k - 1);
      DivUnique(v, Pow10(k - 1), 0, v);
    }
  }

  /** A slot without a `charN` marker shows text that reads back as its value. */
  lemma SlotWholeNumber(v: nat)
    ensures forall i :: 0 <= i < |SlotText(v, None)| ==> IsDigit(SlotText(v, None)[i])
    ensures ParseDecimal(SlotText(v, None)) == v
  {
    ParseDecimalText(v);
  }

  /** Seconds = 45: `sec` shows "45", `char1` "5", `char2` "4", `char3` "0", `char0` "". */
  lemma SecondsExample()
    ensures SlotText(45, None) == "45"
    ensures SlotText(45, Some(1)) == "5" && SlotText(45, Some(2)) == "4"
    ensures SlotText(45, Some(3)) == "0" && SlotText(45, Some(0)) == ""
  {
    assert DecimalText(4) == "4";
    assert DecimalText(45) == DecimalText(4) + ['5'];
  }

  // ---------------------------------------------------------------------------
  // One pass of `_render` over the slots. `property` and `text` are declared
  // inside the loop with `var`, so they keep their values from one iteration
  // to the next: a slot without a unit marker uses the unit of the nearest
  // earlier slot that had one.

  /** The value of `property` after the loop has looked at `s[..n]`. */
  function CarriedUnit(s: seq<Slot>, n: nat): Option<Unit>
    requires n <= |s|
  {
    if n == 0 then None
    else if s[n - 1].unit.Some? then s[n - 1].unit
    else CarriedUnit(s, n - 1)
  }

  /** The value of `text` when the loop reaches the write for slot `i`. */
  function TextFor(c: Breakdown, s: seq<Slot>, i: nat): Option<string>
    requires i < |s|
  {
    match CarriedUnit(s, i + 1)
    case None => None
    case Some(u) => Some(SlotText(UnitValue(c, u), s[i].charPos))
  }

  /** The value of `text` after the loop has looked at `s[..n]`. */
  function CarriedText(c: Breakdown, s: seq<Slot>, n: nat): Option<string>
    requires n <= |s|
  {
    if n == 0 then None else TextFor(c, s, n - 1)
  }

  /** One iteration of the rendering loop, slot `i`, in terms of the carried values. */
  lemma RenderStep(c: Breakdown, s: seq<Slot>, i: nat)
    requires i < |s|
    ensures CarriedUnit(s, i + 1) == if s[i].unit.Some? then s[i].unit else CarriedUnit(s, i)
    ensures CarriedText(c, s, i + 1) ==
              match CarriedUnit(s, i + 1)
              case None => CarriedText(c, s, i)
              case Some(u) => Some(SlotText(UnitValue(c, u), s[i].charPos))
    ensures Writes(c, s, i) <==>
              CarriedText(c, s, i + 1).Some? && s[i].text != CarriedText(c, s, i + 1).value
    ensures RenderedAt(c, s, i) ==
              if Writes(c, s, i) then s[i].(text := CarriedText(c, s, i + 1).value) else s[i]
  {
    if i > 0 && CarriedUnit(s, i + 1).None? {
      assert CarriedUnit(s, i).None?;
    }
  }

  /** Slot `i` is written: its text is defined and differs from the current one. */
  predicate Writes(c: Breakdown, s: seq<Slot>, i: nat)
    requires i < |s|
  {
    TextFor(c, s, i).Some? && TextFor(c, s, i).value != s[i].text
  }

  /** The indices of the slots one pass writes. */
  function Written(c: Breakdown, s: seq<Slot>): set<nat> {
    set i: nat | i < |s| && Writes(c, s, i)
  }

  function RenderedAt(c: Breakdown, s: seq<Slot>, i: nat): Slot
    requires i < |s|
  {
    if Writes(c, s, i) then s[i].(text := TextFor(c, s, i).value) else s[i]
  }

  /** The slots after one pass of `_render`. */
  function Rendered(c: Breakdown, s: seq<Slot>): seq<Slot> {
    seq(|s|, i requires 0 <= i < |s| => RenderedAt(c, s, i))
  }

  /**
    The carried unit is that of the nearest slot at or before the current one
    that has a unit marker, and there is none exactly when no slot so far
    has one.
   */
  lemma {:induction false} CarriedUnitIsNearest(s: seq<Slot>, n: nat, u: Unit)
    requires n <= |s|
    ensures CarriedUnit(s, n) == Some(u) <==>
            exists j :: 0 <= j < n && s[j].unit == Some(u) &&
                        forall k :: j < k < n ==> s[k].unit.None?
  {
    if n > 0 {
      CarriedUnitIsNearest(s, n - 1, u);
      if s[n - 1].unit.None? && CarriedUnit(s, n) == Some(u) {
        var j :| 0 <= j < n - 1 && s[j].unit == Some(u) &&
                 forall k :: j < k < n - 1 ==> s[k].unit.None?;
        assert forall k :: j < k < n ==> s[k].unit.None?;
      }
    }
  }

  lemma {:induction false} CarriedUnitNone(s: seq<Slot>, n: nat)
    requires n <= |s|
    ensures CarriedUnit(s, n).None? <==> forall j :: 0 <= j < n ==> s[j].unit.None?
  {
    if n > 0 {
      CarriedUnitNone(s, n - 1);
    }
  }

  /** Slots without any unit marker are never written: no unit, no text. */
  lemma NoUnitsNoWrites(c: Breakdown, s: seq<Slot>)
    requires forall j :: 0 <= j < |s| ==> s[j].unit.None?
    ensures Written(c, s) == {} && Rendered(c, s) == s
  {
    forall i | 0 <= i < |s|
      ensures !Writes(c, s, i)
    {
      CarriedUnitNone(s, i + 1);
    }
  }

  /**
    Rendering changes only texts, never the markers: every slot keeps its
    unit and `charN` marker, so the unit carried into each slot is the same.
   */
  lemma {:induction false} RenderedKeepsMarkers(c: Breakdown, s: seq<Slot>, n: nat)
    requires n <= |s|
    ensures |Rendered(c, s)| == |s|
    ensures forall i :: 0 <= i < |s| ==> Rendered(c, s)[i] == s[i].(text := Rendered(c, s)[i].text)
    ensures CarriedUnit(Rendered(c, s), n) == CarriedUnit(s, n)
  {
    if n > 0 {
      RenderedKeepsMarkers(c, s, n - 1);
    }
  }

  /**
    A second pass with the same offset writes nothing: after one pass every
    slot already shows its text.
   */
  lemma RenderIdempotent(c: Breakdown, s: seq<Slot>)
    ensures Written(c, Rendered(c, s)) == {}
    ensures Rendered(c, Rendered(c, s)) == Rendered(c, s)
  {
    var r := Rendered(c, s);
    forall i | 0 <= i < |r|
      ensures !Writes(c, r, i)
    {
      RenderedKeepsMarkers(c, s, i + 1);
    }
  }

  /**
    The carry at work: a slot without a unit marker after a `sec` slot shows
    a digit of the seconds, where a slot left alone was to be expected.
   */
  lemma InheritedUnitExample()
    ensures var c := Breakdown(45, 0, 0, 0, 45);
            var s := [Slot(Some(Sec), None, "0"), Slot(None, Some(1), "x")];
            Rendered(c, s) == [Slot(Some(Sec), None, "45"), Slot(None, Some(1), "5")]
  {
    SecondsExample();
    var c := Breakdown(45, 0, 0, 0, 45);
    var s := [Slot(Some(Sec), None, "0"), Slot(None, Some(1), "x")];
    assert CarriedUnit(s, 2) == Some(Sec);
  }
}
