/** `Employee.clean`: the check that an employee's availability, stored as
    JSON, is seven day strings of 96 '0'/'1' slots. The JSON value is
    modelled as a datatype; Python's `len`, `set` and `issubset` are spelled
    out on it, including the cases where they raise `TypeError`. */
module EmployeeModel {
  import opened Wrappers
  import opened Bitstrings

  /** A value stored in a JSON field. Numbers of every kind are `JNum`. */
  datatype Json =
    | JNull
    | JBool(b: bool)
    | JNum(n: real)
    | JStr(s: string)
    | JList(items: seq<Json>)
    | JObj(fields: map<string, Json>)

  /** What `clean` raises: Django's `ValidationError` with its message, or
      the `TypeError` Python raises on `len` of a value without a length or
      `set` of a list holding a list or a dictionary. */
  datatype CleanError = ValidationError(message: string) | TypeError

  const ShapeMessage: string := "Availability must be a list of 7 bitstrings (Mon\U{2013}Sun)."
  const DayMessage: string := "Each day's availability must be a 96-character binary string."

  /** Python's `len`: defined on strings, lists and dictionaries. */
  function Len(j: Json): (r: Option<nat>)
    ensures r.Some? <==> j.JStr? || j.JList? || j.JObj?
  {
    match j
    case JStr(s) => Some(|s|)
    case JList(items) => Some(|items|)
    case JObj(fields) => Some(|fields|)
    case _ => None
  }

  /** Lists and dictionaries cannot be put in a set. */
  predicate Unhashable(j: Json) {
    j.JList? || j.JObj?
  }

  /** The one-character strings "0" and "1". */
  predicate IsBit(j: Json) {
    j == JStr("0") || j == JStr("1")
  }

  /** `set(day).issubset({"0", "1"})`: the characters of a string, the
      elements of a list (an unhashable one raises), the keys of a
      dictionary. */
  function BitsOnly(day: Json): (r: Result<bool, CleanError>)
    requires Len(day).Some?
    ensures r.Err? <==> day.JList? && exists i :: 0 <= i < |day.items| && Unhashable(day.items[i])
    ensures r == Ok(true) <==>
              || (day.JStr? && IsBinary(day.s))
              || (day.JList? && forall i :: 0 <= i < |day.items| ==> IsBit(day.items[i]))
              || (day.JObj? && day.fields.Keys <= {"0", "1"})
  {
    match day
    case JStr(s) => Ok(forall i :: 0 <= i < |s| ==> s[i] in {'0', '1'})
    case JList(items) =>
      if exists i :: 0 <= i < |items| && Unhashable(items[i]) then Err(TypeError)
      else Ok(forall i :: 0 <= i < |items| ==> IsBit(items[i]))
    case JObj(fields) => Ok(fields.Keys <= {"0", "1"})
  }

  /** The check of one day: `len(day) != 96 or not set(day).issubset(...)`,
      evaluated left to right. None when the day passes. */
  function CheckDay(day: Json): Option<CleanError> {
    match Len(day)
    case None => Some(TypeError)
    case Some(n) =>
      if n != BitsPerDay then Some(ValidationError(DayMessage))
      else match BitsOnly(day)
        case Err(e) => Some(e)
        case Ok(b) => if b then None else Some(ValidationError(DayMessage))
  }

  /** The loop over the days: the first day that fails decides the error. */
  function CheckDays(days: seq<Json>): (r: Option<CleanError>)
    ensures r.None? <==> forall i :: 0 <= i < |days| ==> CheckDay(days[i]).None?
    ensures r.Some? ==> exists i :: 0 <= i < |days| && CheckDay(days[i]) == r
                                    && forall j :: 0 <= j < i ==> CheckDay(days[j]).None?
  {
    if days == [] then None
    else match CheckDay(days[0])
      case Some(e) => Some(e)
      case None =>
        var rest := CheckDays(days[1..]);
        assert forall i :: 1 <= i < |days| ==> days[i] == days[1..][i - 1];
        rest
  }

  /** `Employee.clean`. */
  function Clean(availability: Json): (r: Result<(), CleanError>)
    ensures !availability.JList? || |availability.items| != DaysPerWeek ==> r == Err(ValidationError(ShapeMessage))
    ensures r.Err? && availability.JList? && |availability.items| == DaysPerWeek
            ==> exists d :: 0 <= d < DaysPerWeek && CheckDay(availability.items[d]) == Some(r.error)
  {
    if !availability.JList? || |availability.items| != DaysPerWeek then Err(ValidationError(ShapeMessage))
    else match CheckDays(availability.items)
      case Some(e) => Err(e)
      case None => Ok(())
  }

  /** A day `clean` lets through: a binary string of 96 characters, or a list
      of 96 one-character strings "0" and "1". */
  predicate DayAccepted(day: Json) {
    || (day.JStr? && |day.s| == BitsPerDay && IsBinary(day.s))
    || (day.JList? && |day.items| == BitsPerDay && forall i :: 0 <= i < |day.items| ==> IsBit(day.items[i]))
  }

  /** A dictionary whose keys are among "0" and "1" has at most two keys. */
  lemma AtMostTwoKeys(fields: map<string, Json>)
    requires fields.Keys <= {"0", "1"}
    ensures |fields| <= 2
  {
    var keys := fields.Keys;
    if "0" in keys && "1" in keys {
      assert keys == {"0", "1"};
    } else if "0" in keys {
      assert keys == {"0"};
    } else if "1" in keys {
      assert keys == {"1"};
    } else {
      assert keys == {};
    }
  }

  /** One day passes exactly when it is accepted. */
  lemma CheckDayAccepts(day: Json)
    ensures CheckDay(day).None? <==> DayAccepted(day)
  {
    if day.JObj? && |day.fields| == BitsPerDay {
      if day.fields.Keys <= {"0", "1"} {
        AtMostTwoKeys(day.fields);
      }
    }
    if day.JList? && DayAccepted(day) {
      forall i | 0 <= i < |day.items| ensures !Unhashable(day.items[i]) {
        assert IsBit(day.items[i]);
      }
    }
  }

  /** `clean` accepts exactly seven accepted days. */
  lemma CleanAccepts(availability: Json)
    ensures Clean(availability).Ok? <==>
              availability.JList? && |availability.items| == DaysPerWeek
              && forall d :: 0 <= d < DaysPerWeek ==> DayAccepted(availability.items[d])
  {
    if availability.JList? {
      forall d | 0 <= d < |availability.items| {
        CheckDayAccepts(availability.items[d]);
      }
    }
  }

  /** When every day is a string, the only failure is the `ValidationError`
      about the day's shape, raised for the first day that is not 96 binary
      characters. */
  lemma StringDaysRaiseValidation(availability: Json)
    requires availability.JList? && |availability.items| == DaysPerWeek
    requires forall d :: 0 <= d < DaysPerWeek ==> availability.items[d].JStr?
    ensures Clean(availability).Err? ==> Clean(availability) == Err(ValidationError(DayMessage))
    ensures Clean(availability).Err? <==>
              exists d :: 0 <= d < DaysPerWeek && (|availability.items[d].s| != BitsPerDay || !IsBinary(availability.items[d].s))
  {
    CleanAccepts(availability);
  }

  // ---------------------------------------------------------------------
  // The documented contract: seven day strings

  /** A list of 96 "0" strings per day passes the check, although it is no
      bitstring. */
  lemma ListDaysAccepted()
    ensures Clean(JList(seq(DaysPerWeek, _ => JList(seq(BitsPerDay, _ => JStr("0")))))) == Ok(())
  {
    var day := JList(seq(BitsPerDay, _ => JStr("0")));
    var a := JList(seq(DaysPerWeek, _ => day));
    assert DayAccepted(day);
    CleanAccepts(a);
  }

  /** The days of an availability that is a list of strings. */
  function DayStrings(availability: Json): (r: Option<Week>)
    ensures r.Some? ==> availability.JList? && |r.value| == |availability.items|
                        && forall d :: 0 <= d < |r.value| ==> availability.items[d] == JStr(r.value[d])
  {
    if availability.JList? && forall d :: 0 <= d < |availability.items| ==> availability.items[d].JStr?
    then Some(seq(|availability.items|, d requires 0 <= d < |availability.items| => availability.items[d].s))
    else None
  }

  /** The check as documented: seven strings of 96 binary characters; any
      other day is rejected with the day message. */
  function CleanStrict(availability: Json): (r: Result<(), CleanError>)
    ensures r.Ok? <==> DayStrings(availability).Some? && WeekShape(DayStrings(availability).value)
                       && forall d :: 0 <= d < DaysPerWeek ==> IsBinary(DayStrings(availability).value[d])
    ensures r.Err? ==> r.error.ValidationError?
  {
    if !availability.JList? || |availability.items| != DaysPerWeek then Err(ValidationError(ShapeMessage))
    else if forall d :: 0 <= d < DaysPerWeek ==> DayAccepted(availability.items[d]) && availability.items[d].JStr?
    then Ok(())
    else Err(ValidationError(DayMessage))
  }

  /** On availabilities whose days are all strings the documented check and
      the written one agree. */
  lemma CleanStrictAgrees(availability: Json)
    requires DayStrings(availability).Some?
    ensures CleanStrict(availability) == Clean(availability)
  {
    if availability.JList? && |availability.items| == DaysPerWeek {
      StringDaysRaiseValidation(availability);
    }
  }
}
