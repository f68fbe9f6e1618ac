/** The records the engine and the store exchange: habits, completion
    records and the per-habit completion map. */
module Records {
  import opened Optional
  import opened Calendar

  /** The dynamically typed `value` of a completion record: `true` for a
      yes/no habit, a number for a numeric one; `Other` stands for any other
      JavaScript value (`false`, a string, `null`, ...). */
  datatype Value = Bool(b: bool) | Num(x: real) | Other

  /** A `type` string other than the two the engine recognises. */
  type OtherTypeName = s: string | s != "yesno" && s != "numeric" witness ""

  /** A habit's `type` string: 'yesno', 'numeric', or anything else. */
  datatype HabitType = YesNo | Numeric | Unrecognised(name: OtherTypeName)

  /** One stored completion: the habit, the day and the recorded value. */
  datatype Completion = Completion(habitId: string, date: Day, value: Value)

  /** The per-habit map from date key (here its day number) to record. */
  type CompletionMap = map<Day, Completion>

  /** A habit. `htype` is `None` when the record has no `type` field;
      `createdAt` is the creation instant in epoch milliseconds. */
  datatype Habit = Habit(
    id: string,
    name: string,
    description: string,
    htype: Option<HabitType>,
    color: string,
    createdAt: int,
    order: int)

  /** The type the statistics functions see: their `habitType = 'yesno'`
      default parameter replaces a missing type. */
  function EffectiveType(t: Option<HabitType>): HabitType {
    if t.Some? then t.value else YesNo
  }

  /** The string stored in a habit's `type` field. */
  function TypeName(t: HabitType): string {
    match t
    case YesNo => "yesno"
    case Numeric => "numeric"
    case Unrecognised(name) => name
  }

  /** The type a stored `type` string denotes. */
  function ParseType(s: string): (t: HabitType)
    ensures t == YesNo <==> s == "yesno"
    ensures t == Numeric <==> s == "numeric"
  {
    if s == "yesno" then YesNo
    else if s == "numeric" then Numeric
    else Unrecognised(s)
  }

  /** Types and their strings correspond one to one, so two types the
      source cannot tell apart are the same type. */
  lemma TypeNameRoundTrip(t: HabitType, s: string)
    ensures ParseType(TypeName(t)) == t
    ensures TypeName(ParseType(s)) == s
  {
  }
}
