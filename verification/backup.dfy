/** Structural validation of a parsed backup file, and the shape of the
    export that produces such files. */
module Backup {
  import opened Optional
  import opened Records
  import opened DateKeys

  /** A value produced by `JSON.parse`. */
  datatype Json =
    | JNull
    | JBool(b: bool)
    | JNum(x: real)
    | JStr(s: string)
    | JArr(items: seq<Json>)
    | JObj(fields: map<string, Json>)

  /** Property access `v[key]` on a non-null value: an object's own field,
      `undefined` (`None`) for a missing field and for every other kind of
      value (arrays, strings, numbers and booleans have no `id`, `name`,
      `type`, `habits` or `completions` property). */
  function Get(v: Json, key: string): (r: Option<Json>)
    ensures r.Some? <==> v.JObj? && key in v.fields
    ensures r.Some? ==> r.value == v.fields[key]
  {
    if v.JObj? && key in v.fields then Some(v.fields[key]) else None
  }

  /** JavaScript truthiness; `None` is `undefined`. */
  function Truthy(v: Option<Json>): (ok: bool)
    ensures v.None? || v == Some(JNull) ==> !ok
    ensures v.Some? && (v.value.JArr? || v.value.JObj?) ==> ok
    ensures v.Some? && v.value.JStr? ==> (ok <==> v.value.s != "")
    ensures v.Some? && v.value.JBool? ==> (ok <==> v.value.b)
    ensures v.Some? && v.value.JNum? ==> (ok <==> v.value.x != 0.0)
  {
    match v
    case None => false
    case Some(j) =>
      match j
      case JNull => false
      case JBool(b) => b
      case JNum(x) => x != 0.0
      case JStr(s) => |s| > 0
      case JArr(_) => true
      case JObj(_) => true
  }

  /** `typeof v === 'object'` (true of `null` and of arrays as well). */
  predicate TypeofObject(v: Json) {
    v.JNull? || v.JArr? || v.JObj?
  }

  const InvalidFormat: string := "Invalid data format"
  const InvalidHabits: string := "Missing or invalid habits array"
  const InvalidHabit: string := "Invalid habit structure"
  const InvalidCompletions: string := "Invalid completions array"

  /** The outcome of `validateBackupData`: `{valid: true}`, `{valid: false,
      error}`, or a `TypeError` escaping from reading a field of `null`. */
  datatype Validation = Valid | Invalid(error: string) | Thrown

  /** A habit entry with truthy `id`, `name` and `type`. */
  predicate HasHabitFields(h: Json) {
    Truthy(Get(h, "id")) && Truthy(Get(h, "name")) && Truthy(Get(h, "type"))
  }

  /** The entries before position `i` are non-null and have their fields. */
  predicate HabitsOkBefore(hs: seq<Json>, i: nat)
    requires i <= |hs|
  {
    forall j :: 0 <= j < i ==> hs[j] != JNull && HasHabitFields(hs[j])
  }

  /** Entry `i` is the first bad one. */
  predicate FirstBadAt(hs: seq<Json>, i: nat)
    requires i < |hs|
  {
    HabitsOkBefore(hs, i) && !(hs[i] != JNull && HasHabitFields(hs[i]))
  }

  lemma FirstBadShift(hs: seq<Json>)
    requires |hs| > 0 && hs[0] != JNull && HasHabitFields(hs[0])
    ensures HabitsOkBefore(hs, |hs|) <==> HabitsOkBefore(hs[1..], |hs| - 1)
    ensures forall i :: 0 < i < |hs| ==> (FirstBadAt(hs, i) <==> FirstBadAt(hs[1..], i - 1))
    ensures !FirstBadAt(hs, 0)
  {
    forall i | 0 < i <= |hs|
      ensures HabitsOkBefore(hs, i) <==> HabitsOkBefore(hs[1..], i - 1)
    {
      if HabitsOkBefore(hs[1..], i - 1) {
        forall j | 0 <= j < i
          ensures hs[j] != JNull && HasHabitFields(hs[j])
        {
          if j > 0 {
            assert hs[j] == hs[1..][j - 1];
          }
        }
      }
      if HabitsOkBefore(hs, i) {
        forall j | 0 <= j < i - 1
          ensures hs[1..][j] != JNull && HasHabitFields(hs[1..][j])
        {
          assert hs[1..][j] == hs[j + 1];
        }
      }
    }
  }

  /** The `for (const habit of data.habits)` loop: entries are checked in
      order; reading a field of a `null` entry throws, an entry without a
      truthy `id`, `name` or `type` is rejected, and the first such entry
      decides. */
  function CheckHabits(hs: seq<Json>): (r: Validation)
    ensures r == Valid <==> HabitsOkBefore(hs, |hs|)
    ensures r == Thrown <==> exists i :: 0 <= i < |hs| && FirstBadAt(hs, i) && hs[i] == JNull
    ensures r.Invalid? <==> exists i :: 0 <= i < |hs| && FirstBadAt(hs, i) && hs[i] != JNull
    ensures r.Invalid? ==> r.error == InvalidHabit
    decreases |hs|
  {
    if |hs| == 0 then Valid
    else if hs[0] == JNull then
      assert FirstBadAt(hs, 0);
      Thrown
    else if !HasHabitFields(hs[0]) then
      assert FirstBadAt(hs, 0);
      Invalid(InvalidHabit)
    else
      FirstBadShift(hs);
      var r := CheckHabits(hs[1..]);
      assert forall i :: 0 < i < |hs| ==> hs[i] == hs[1..][i - 1];
      assert r == Thrown ==> exists i :: 0 <= i < |hs| && FirstBadAt(hs, i) && hs[i] == JNull by {
        if r == Thrown {
          var k :| 0 <= k < |hs| - 1 && FirstBadAt(hs[1..], k) && hs[1..][k] == JNull;
          assert FirstBadAt(hs, k + 1);
        }
      }
      assert r.Invalid? ==> exists i :: 0 <= i < |hs| && FirstBadAt(hs, i) && hs[i] != JNull by {
        if r.Invalid? {
          var k :| 0 <= k < |hs| - 1 && FirstBadAt(hs[1..], k) && hs[1..][k] != JNull;
          assert FirstBadAt(hs, k + 1);
        }
      }
      r
  }

  /** `data.habits` is present and an array. */
  predicate HasHabitsArray(data: Json) {
    data.JObj? && "habits" in data.fields && data.fields["habits"].JArr?
  }

  /** `data.completions` is absent, falsy or an array. */
  predicate CompletionsAcceptable(data: Json) {
    !Truthy(Get(data, "completions")) || data.fields["completions"].JArr?
  }

  /** `validateBackupData` as written: four checks in a fixed order, the
      first failure deciding the error. */
  function ValidateBackupData(data: Json): (r: Validation)
    ensures r == Invalid(InvalidFormat) <==> !(data.JArr? || data.JObj?)
    ensures r == Invalid(InvalidHabits) <==> (data.JArr? || data.JObj?) && !HasHabitsArray(data)
    ensures r == Invalid(InvalidHabit) <==>
              HasHabitsArray(data) && CheckHabits(data.fields["habits"].items).Invalid?
    ensures r == Thrown <==> HasHabitsArray(data) && CheckHabits(data.fields["habits"].items) == Thrown
    ensures r == Invalid(InvalidCompletions) <==>
              && HasHabitsArray(data) && HabitsOkBefore(data.fields["habits"].items, |data.fields["habits"].items|)
              && !CompletionsAcceptable(data)
    ensures r == Valid <==>
              && HasHabitsArray(data) && HabitsOkBefore(data.fields["habits"].items, |data.fields["habits"].items|)
              && CompletionsAcceptable(data)
  {
    if !Truthy(Some(data)) || !TypeofObject(data) then Invalid(InvalidFormat)
    else
      var habits := Get(data, "habits");
      if !Truthy(habits) || !habits.value.JArr? then Invalid(InvalidHabits)
      else
        var checked := CheckHabits(habits.value.items);
        if checked != Valid then checked
        else
          var completions := Get(data, "completions");
          if Truthy(completions) && !completions.value.JArr? then Invalid(InvalidCompletions)
          else Valid
  }

  /** A `null` entry in `habits` makes the validator throw instead of
      reporting an invalid habit. */
  lemma NullHabitThrows()
    ensures ValidateBackupData(JObj(map["habits" := JArr([JNull])])) == Thrown
  {
    var hs := [JNull];
    assert FirstBadAt(hs, 0);
  }

  /** The habit loop with the missing guard added (`!habit || !habit.id || ...`):
      a `null` entry is an invalid habit like any other. */
  function CheckHabitsGuarded(hs: seq<Json>): (r: Validation)
    ensures r == Valid <==> HabitsOkBefore(hs, |hs|)
    ensures r != Valid ==> r == Invalid(InvalidHabit)
    decreases |hs|
  {
    if |hs| == 0 then Valid
    else if hs[0] == JNull || !HasHabitFields(hs[0]) then Invalid(InvalidHabit)
    else
      FirstBadShift(hs);
      CheckHabitsGuarded(hs[1..])
  }

  /** `validateBackupData` with the guard: it never throws, and it agrees
      with `ValidateBackupData` on every input that it does not throw on. */
  function ValidateBackupDataGuarded(data: Json): (r: Validation)
    ensures r != Thrown
    ensures ValidateBackupData(data) != Thrown ==> r == ValidateBackupData(data)
    ensures ValidateBackupData(data) == Thrown ==> r == Invalid(InvalidHabit)
  {
    if !Truthy(Some(data)) || !TypeofObject(data) then Invalid(InvalidFormat)
    else
      var habits := Get(data, "habits");
      if !Truthy(habits) || !habits.value.JArr? then Invalid(InvalidHabits)
      else
        var checked := CheckHabitsGuarded(habits.value.items);
        if checked != Valid then checked
        else
          var completions := Get(data, "completions");
          if Truthy(completions) && !completions.value.JArr? then Invalid(InvalidCompletions)
          else Valid
  }

  // ---------------------------------------------------------------------
  // Export

  function TypeJson(t: Option<HabitType>): map<string, Json> {
    if t.Some? then map["type" := JStr(TypeName(t.value))] else map[]
  }

  /** A habit as the export writes it; a habit without a type has no
      `type` field. */
  function HabitJson(h: Habit): Json {
    JObj(map[
      "id" := JStr(h.id),
      "name" := JStr(h.name),
      "description" := JStr(h.description),
      "color" := JStr(h.color),
      "createdAt" := JNum(h.createdAt as real),
      "order" := JNum(h.order as real)] + TypeJson(h.htype))
  }

  function ValueJson(v: Value): Json {
    match v
    case Bool(b) => JBool(b)
    case Num(x) => JNum(x)
    case Other => JNull
  }

  /** A completion as stored and exported: keyed by `habitId_date`. */
  function CompletionJson(c: Completion): Json {
    JObj(map[
      "id" := JStr(c.habitId + "_" + DateKey(c.date)),
      "habitId" := JStr(c.habitId),
      "date" := JStr(DateKey(c.date)),
      "value" := ValueJson(c.value)])
  }

  /** The document `exportData` returns. */
  function ExportData(habits: seq<Habit>, completions: seq<Completion>, exportDate: string): Json {
    JObj(map[
      "version" := JNum(1.0),
      "exportDate" := JStr(exportDate),
      "habits" := JArr(seq(|habits|, i requires 0 <= i < |habits| => HabitJson(habits[i]))),
      "completions" := JArr(seq(|completions|, i requires 0 <= i < |completions| => CompletionJson(completions[i])))])
  }

  /** A habit whose export passes the structure check. */
  predicate Exportable(h: Habit) {
    h.id != "" && h.name != "" && h.htype.Some? && TypeName(h.htype.value) != ""
  }

  lemma HabitJsonFields(h: Habit)
    ensures HabitJson(h) != JNull
    ensures HasHabitFields(HabitJson(h)) <==> Exportable(h)
  {
    var j := HabitJson(h);
    assert Get(j, "id") == Some(JStr(h.id));
    assert Get(j, "name") == Some(JStr(h.name));
    if h.htype.Some? {
      assert Get(j, "type") == Some(JStr(TypeName(h.htype.value)));
    } else {
      assert "type" !in j.fields;
    }
  }

  /** An export passes validation exactly when every habit in it has a
      non-empty id, name and type. */
  lemma ExportValidates(habits: seq<Habit>, completions: seq<Completion>, exportDate: string)
    ensures ValidateBackupData(ExportData(habits, completions, exportDate)) == Valid
            <==> forall i :: 0 <= i < |habits| ==> Exportable(habits[i])
  {
    var data := ExportData(habits, completions, exportDate);
    var hs := data.fields["habits"].items;
    assert HasHabitsArray(data);
    assert CompletionsAcceptable(data);
    forall i | 0 <= i < |habits|
      ensures hs[i] != JNull && (HasHabitFields(hs[i]) <==> Exportable(habits[i]))
    {
      HabitJsonFields(habits[i]);
    }
  }
}
