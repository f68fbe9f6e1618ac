/** When a stored completion counts as "done", and what a grid cell shows. */
module Validity {
  import opened Optional
  import opened Calendar
  import opened Records

  /** The record stored for day `d`, if any (`completions[dateStr]`). */
  function Lookup(m: CompletionMap, d: Day): (r: Option<Completion>)
    ensures r.Some? <==> d in m
    ensures r.Some? ==> r.value == m[d]
  {
    if d in m then Some(m[d]) else None
  }

  /** `isCompletionValid`: an absent record never counts; a yes/no record
      counts only when its value is exactly `true`; a numeric record only when
      its value is a number above zero; no record of any other type counts. */
  function IsCompletionValid(c: Option<Completion>, t: HabitType): (ok: bool)
    ensures ok ==> c.Some?
    ensures t == YesNo ==> (ok <==> c.Some? && c.value.value == Bool(true))
    ensures t == Numeric ==> (ok <==> c.Some? && c.value.value.Num? && c.value.value.x > 0.0)
    ensures t.Unrecognised? ==> !ok
  {
    if c.None? then false
    else if t == YesNo then c.value.value == Bool(true)
    else if t == Numeric then (match c.value.value case Num(x) => x > 0.0 case _ => false)
    else false
  }

  /** Day `d` has a valid completion in `m`. */
  predicate Valid(m: CompletionMap, t: HabitType, d: Day) {
    IsCompletionValid(Lookup(m, d), t)
  }

  /** The days whose completion is valid: the keys `calculateLongestStreak`
      keeps after its filter. */
  function ValidDays(m: CompletionMap, t: HabitType): (s: set<Day>)
    ensures s <= m.Keys
    ensures forall d :: d in s <==> Valid(m, t, d)
  {
    set d | d in m && Valid(m, t, d)
  }

  /** A numeric record holding zero is present in the map but not valid:
      "recorded zero" differs from "completed". */
  lemma ZeroIsRecordedButInvalid(m: CompletionMap, d: Day)
    requires d in m && m[d].value == Num(0.0)
    ensures d in m.Keys && !Valid(m, Numeric, d) && d !in ValidDays(m, Numeric)
  {
  }

  /** What `getCompletionStatus` returns: `null`, the string 'completed',
      or the raw stored value. */
  datatype CellStatus = NoStatus | Completed | Raw(v: Value)

  /** `getCompletionStatus`: `null` without a record; for a yes/no habit
      'completed' when the value is `true` and `null` otherwise; for a numeric
      habit the raw value; `null` for any other or a missing type. */
  function CompletionStatus(m: CompletionMap, d: Day, t: Option<HabitType>): (s: CellStatus)
    ensures d !in m ==> s == NoStatus
    ensures t == Some(YesNo) ==> (s == Completed <==> Valid(m, YesNo, d)) && (s == Completed || s == NoStatus)
    ensures t == Some(Numeric) && d in m ==> s == Raw(m[d].value)
    ensures t.None? || t.value.Unrecognised? ==> s == NoStatus
  {
    match Lookup(m, d)
    case None => NoStatus
    case Some(c) =>
      if t == Some(YesNo) then (if c.value == Bool(true) then Completed else NoStatus)
      else if t == Some(Numeric) then Raw(c.value)
      else NoStatus
  }

  /** For a numeric habit the cell shows a positive number exactly when the
      day counts as done. */
  lemma NumericStatusMatchesValidity(m: CompletionMap, d: Day)
    ensures Valid(m, Numeric, d) <==>
              (CompletionStatus(m, d, Some(Numeric)).Raw?
               && CompletionStatus(m, d, Some(Numeric)).v.Num?
               && CompletionStatus(m, d, Some(Numeric)).v.x > 0.0)
  {
  }
}
