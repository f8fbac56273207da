/** The entry form: the text fields of a new activity, the rule that keeps the quantity
    field to digits and at most one dot, the buttons that step the quantity and the
    month, and the submit that builds the record. */
module Form {
  import opened Types
  import Dates
  import opened Decimal

  /** `parseFloat(text) || 1`: the quantity a submitted record carries; a field that
      does not parse, or parses to 0, gives 1. */
  function SubmittedValue(text: string): real {
    match ParseFloat(text)
    case None => 1.0
    case Some(v) => if v == 0.0 then 1.0 else v
  }

  /** `parseFloat(text) || 0`: the value the step buttons start from. */
  function CurrentValue(text: string): real {
    match ParseFloat(text)
    case None => 0.0
    case Some(v) => v
  }

  /** A parsed quantity is never negative. */
  lemma ParsedNonNegative(text: string)
    ensures ParseFloat(text).Some? ==> ParseFloat(text).value >= 0.0
  {
    match ParseDecimal(text)
    case None =>
    case Some(d) => FractionBelowOne(d);
  }

  /** A submitted record always carries a positive quantity, and the field's value when
      that value is positive. */
  lemma SubmittedValuePositive(text: string)
    ensures SubmittedValue(text) > 0.0
    ensures CurrentValue(text) > 0.0 ==> SubmittedValue(text) == CurrentValue(text)
    ensures CurrentValue(text) == 0.0 ==> SubmittedValue(text) == 1.0
  {
    ParsedNonNegative(text);
  }

  /** An emptied field, a lone dot and a zero all submit 1. */
  lemma SubmitDefaultsToOne()
    ensures SubmittedValue("") == 1.0 && SubmittedValue(".") == 1.0 && SubmittedValue("0") == 1.0
  {
    assert ParseDecimal("0") == Some(Dec(0, 0, 0)) by {
      assert DigitRun("0") == 1;
      assert "0"[..1] == "0";
    }
  }

  /** The decimal the step buttons start from: the parsed field, or 0. */
  function StartDecimal(text: string): (d: Dec)
    ensures WellFormed(d) && Value(d) == CurrentValue(text)
  {
    match ParseDecimal(text)
    case None => Dec(0, 0, 0)
    case Some(d) => d
  }

  /** `increment ? v + 1 : Math.max(0, v - 1)` */
  function Adjusted(v: real, increment: bool): real {
    if increment then v + 1.0 else if v - 1.0 >= 0.0 then v - 1.0 else 0.0
  }

  /** The text the + button writes matches the pattern and reads back as the value of
      the text it replaces plus one. */
  lemma IncrementedText(text: string)
    ensures MatchesQuantityPattern(ToText(Increment(StartDecimal(text))))
    ensures ParseFloat(ToText(Increment(StartDecimal(text)))) == Some(Adjusted(CurrentValue(text), true))
  {
    ToTextRoundTrip(Increment(StartDecimal(text)));
  }

  /** The text the - button writes matches the pattern and reads back as the value of
      the text it replaces minus one, but never below zero. */
  lemma DecrementedText(text: string)
    ensures MatchesQuantityPattern(ToText(Decrement(StartDecimal(text))))
    ensures ParseFloat(ToText(Decrement(StartDecimal(text)))) == Some(Adjusted(CurrentValue(text), false))
  {
    var d := StartDecimal(text);
    ToTextRoundTrip(Decrement(d));
    ClampAgrees(Value(d), Value(Decrement(d)));
  }

  lemma ClampAgrees(v: real, r: real)
    requires r == if v >= 1.0 then v - 1.0 else 0.0
    ensures r == Adjusted(v, false)
  {
  }

  /** The form's state: the three text fields and the month the new record goes to. */
  class ActivityForm {
    var name: string
    var quantity: string
    var unit: string
    var selectedDate: Dates.Date

    /** The quantity field holds digits and at most one dot, and the date is a real one. */
    predicate Valid()
      reads this
    {
      MatchesQuantityPattern(quantity) && Dates.Valid(selectedDate)
    }

    /** An empty name and unit, quantity 1, and today's date. */
    constructor (today: Dates.Date)
      requires Dates.Valid(today)
      ensures name == "" && quantity == "1" && unit == "" && selectedDate == today
      ensures Valid()
    {
      name, quantity, unit, selectedDate := "", "1", "", today;
      assert MatchesQuantityPattern("1") by {
        assert DigitRun("1") == 1;
      }
    }

    method HandleNameChange(value: string)
      modifies this
      ensures name == value
      ensures quantity == old(quantity) && unit == old(unit) && selectedDate == old(selectedDate)
    {
      name := value;
    }

    method HandleUnitChange(value: string)
      modifies this
      ensures unit == value
      ensures name == old(name) && quantity == old(quantity) && selectedDate == old(selectedDate)
    {
      unit := value;
    }

    /** An edit of the quantity field is kept only when it matches `^\d*\.?\d*$`. */
    method HandleQuantityChange(value: string)
      modifies this
      ensures MatchesQuantityPattern(value) ==> quantity == value
      ensures !MatchesQuantityPattern(value) ==> quantity == old(quantity)
      ensures name == old(name) && unit == old(unit) && selectedDate == old(selectedDate)
      ensures old(Valid()) ==> Valid()
      ensures old(Valid()) ==> DigitsAndDots(quantity) && CountDots(quantity) <= 1
    {
      if MatchesQuantityPattern(value) {
        quantity := value;
      }
      PatternIsOneDotAtMost(quantity);
    }

    /** The step buttons: the field becomes the text of its value plus one, or of its
        value minus one but never below zero, read back exactly by `parseFloat`. */
    method AdjustNumber(increment: bool)
      modifies this
      ensures quantity == ToText(if increment then Increment(StartDecimal(old(quantity)))
                                 else Decrement(StartDecimal(old(quantity))))
      ensures ParseFloat(quantity) == Some(Adjusted(CurrentValue(old(quantity)), increment))
      ensures MatchesQuantityPattern(quantity)
      ensures name == old(name) && unit == old(unit) && selectedDate == old(selectedDate)
      ensures old(Valid()) ==> Valid()
    {
      IncrementedText(quantity);
      DecrementedText(quantity);
      var current := StartDecimal(quantity);
      var next := if increment then Increment(current) else Decrement(current);
      quantity := ToText(next);
    }

    /** The month buttons: the date moves one month, its day clamped to the new month. */
    method HandleMonthChange(increment: bool)
      requires Dates.Valid(selectedDate)
      modifies this
      ensures selectedDate == Dates.AddMonths(old(selectedDate), if increment then 1 else -1)
      ensures Dates.Valid(selectedDate)
      ensures selectedDate.ms == old(selectedDate).ms
      ensures Dates.MonthIndex(selectedDate) == Dates.MonthIndex(old(selectedDate)) + (if increment then 1 else -1)
      ensures selectedDate.day == Dates.Min(old(selectedDate).day, Dates.DaysInMonth(selectedDate.year, selectedDate.month))
      ensures name == old(name) && quantity == old(quantity) && unit == old(unit)
      ensures old(Valid()) ==> Valid()
    {
      selectedDate := if increment then Dates.AddMonths(selectedDate, 1) else Dates.AddMonths(selectedDate, -1);
    }

    /** The submit: a quantity record with the given id, the form's name, unit and date,
        and a positive quantity; the text fields then return to their start values. The
        field's `required` attribute keeps an empty name from being submitted. */
    method HandleSubmit(id: string) returns (activity: Activity)
      requires name != ""
      modifies this
      ensures activity == Activity(id, old(name), Some(Quantity(Finite(SubmittedValue(old(quantity))), old(unit))),
                                   old(selectedDate), QuantityKind)
      ensures activity.quantity.value.value.r > 0.0
      ensures name == "" && quantity == "1" && unit == "" && selectedDate == old(selectedDate)
      ensures Valid() <==> Dates.Valid(selectedDate)
    {
      activity := Activity(id, name, Some(Quantity(Finite(SubmittedValue(quantity)), unit)), selectedDate, QuantityKind);
      SubmittedValuePositive(quantity);
      name, quantity, unit := "", "1", "";
      assert MatchesQuantityPattern("1") by {
        assert DigitRun("1") == 1;
      }
    }
  }
}
