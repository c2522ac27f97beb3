/** The date field: its validator, the class-validation hook that delegates
    to it, and the value the constructor starts from. */
module FieldDate {
  import opened JsStrings

  /** A JavaScript value as it reaches the validator. Only strings and the
      two missing values are modelled. */
  datatype JsValue = Undefined | Null | Str(s: string)

  /** The value the constructor uses when it is given none. The JSDoc of the
      constructor speaks of today's date, but the code's default parameter
      is this fixed date; the today-based default is commented out. */
  const DEFAULT_DATE: string := "2000-10-10"

  /** JavaScript truthiness restricted to the modelled values. */
  predicate IsFalsy(v: JsValue) {
    v.Undefined? || v.Null? || v.s == ""
  }

  // The pattern, alternative by alternative, as the regular expression
  // ^([0-9][0-9][0-9][0-9])-(0[1-9]|1[0-2])-(0[1-9]|[1-2][0-9]|3[0-1])$
  // spells it.

  /** The month group `(0[1-9]|1[0-2])`. */
  predicate MonthGroup(a: char, b: char) {
    || (a == '0' && '1' <= b <= '9')
    || (a == '1' && '0' <= b <= '2')
  }

  /** The day group `(0[1-9]|[1-2][0-9]|3[0-1])`. */
  predicate DayGroup(a: char, b: char) {
    || (a == '0' && '1' <= b <= '9')
    || ('1' <= a <= '2' && IsDigit(b))
    || (a == '3' && '0' <= b <= '1')
  }

  /** The anchored pattern. Without the `m` flag `$` matches only at the end
      of the input, so a match covers exactly ten characters. */
  predicate MatchesDatePattern(s: string) {
    && |s| == 10
    && IsDigit(s[0]) && IsDigit(s[1]) && IsDigit(s[2]) && IsDigit(s[3])
    && s[4] == '-'
    && MonthGroup(s[5], s[6])
    && s[7] == '-'
    && DayGroup(s[8], s[9])
  }

  // An independent, numeric reading of the same format.


  function TwoDigitValue(a: char, b: char): int {
    10 * DigitValue(a) + DigitValue(b)
  }

  /** `YYYY-MM-DD`: ten characters, digits everywhere except the hyphens at
      positions 4 and 7, a month from 1 to 12 and a day from 1 to 31. There
      is no calendar check: the day bound is 31 whatever the month. */
  predicate IsDateShaped(s: string) {
    && |s| == 10
    && (forall i :: 0 <= i < 10 && i != 4 && i != 7 ==> IsDigit(s[i]))
    && s[4] == '-' && s[7] == '-'
    && 1 <= TwoDigitValue(s[5], s[6]) <= 12
    && 1 <= TwoDigitValue(s[8], s[9]) <= 31
  }

  /** The regular expression accepts exactly the date-shaped strings. */
  lemma PatternIsDateShape(s: string)
    ensures MatchesDatePattern(s) <==> IsDateShaped(s)
  {
    if IsDateShaped(s) {
      assert IsDigit(s[0]) && IsDigit(s[1]) && IsDigit(s[2]) && IsDigit(s[3]);
      assert IsDigit(s[5]) && IsDigit(s[6]) && IsDigit(s[8]) && IsDigit(s[9]);
    }
  }

  /** `dateValidator`: a falsy input gives null; a string is returned
      unchanged when it has the date shape and replaced by null otherwise. */
  function DateValidator(newValue: JsValue): (r: JsValue)
    ensures r != Undefined
    ensures r.Str? <==> newValue.Str? && IsDateShaped(newValue.s)
    ensures r.Str? ==> r == newValue
    ensures IsFalsy(newValue) ==> r == Null
  {
    if IsFalsy(newValue) then Null
    else
      PatternIsDateShape(newValue.s);
      if !MatchesDatePattern(newValue.s) then Null
      else newValue
  }

  /** `doClassValidation_`: the field validates every new value with the
      date validator and nothing else. */
  function DoClassValidation(newValue: JsValue): (r: JsValue)
    ensures r != Undefined
    ensures IsFalsy(newValue) ==> r == Null
    ensures r == Null || r == newValue
    ensures r.Str? <==> newValue.Str? && IsDateShaped(newValue.s)
  {
    DateValidator(newValue)
  }

  /** The value handed to the base class by the constructor: the default
      parameter replaces a missing value, but not an explicit null. */
  function ConstructorValue(value: JsValue): (r: JsValue)
    ensures value.Undefined? ==> r == Str(DEFAULT_DATE)
    ensures !value.Undefined? ==> r == value
  {
    if value.Undefined? then Str(DEFAULT_DATE) else value
  }

  /** Validating twice is validating once. */
  lemma ValidatorIdempotent(v: JsValue)
    ensures DateValidator(DateValidator(v)) == DateValidator(v)
  {
  }

  /** The validator checks the format only: 31 February passes, while months
      00 and 13, days 00 and 32 and a two-digit year do not. */
  lemma NoCalendarCheck()
    ensures DateValidator(Str("2021-02-31")) == Str("2021-02-31")
    ensures DateValidator(Str("2021-00-15")) == Null
    ensures DateValidator(Str("2021-13-01")) == Null
    ensures DateValidator(Str("2021-01-00")) == Null
    ensures DateValidator(Str("2021-01-32")) == Null
    ensures DateValidator(Str("21-01-01")) == Null
    ensures DateValidator(Str("")) == Null
  {
  }

  /** A field constructed without a value starts from a date the class
      validation accepts unchanged. */
  lemma DefaultValueIsValid()
    ensures DoClassValidation(ConstructorValue(Undefined)) == Str(DEFAULT_DATE)
  {
  }
}
