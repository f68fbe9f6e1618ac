/** The application store: the habit list, the per-habit completion maps
    the views read, and the persisted completion records behind them.

    The persisted completion records are indexed by habit id, then by day:
    a record's id is `habitId + "_" + dateKey`, and a put under an existing
    id replaces the record (`CompletionIdInjective` shows the pair and the
    id determine each other). Awaiting the database is not
    modelled: every operation is one step from store to store. */
module HabitStore {
  import opened Optional
  import opened Calendar
  import opened Records
  import opened Validity
  import opened DateKeys

  /** Persisted completion records, by habit id and then by day. A habit
      absent from the outer map and one mapped to an empty map both have no
      records. */
  type Db = map<string, CompletionMap>

  /** `habits` is the in-memory list, `habitDb` the persisted habit records
      keyed by id, `completions` the per-habit maps the views read, `db`
      the persisted completion records. */
  datatype Store = Store(
    habits: seq<Habit>,
    habitDb: map<string, Habit>,
    completions: map<string, CompletionMap>,
    db: Db)

  /** Every record is stored under its own habit id and day. */
  predicate WellKeyed(db: Db) {
    forall h :: h in db ==> forall d :: d in db[h] ==> db[h][d].habitId == h && db[h][d].date == d
  }

  predicate IdsDistinct(hs: seq<Habit>) {
    forall i, j :: 0 <= i < j < |hs| ==> hs[i].id != hs[j].id
  }

  /** The in-memory list holds exactly the persisted habits, once each. */
  predicate Mirrors(hs: seq<Habit>, habitDb: map<string, Habit>) {
    && IdsDistinct(hs)
    && (forall i :: 0 <= i < |hs| ==> hs[i].id in habitDb && habitDb[hs[i].id] == hs[i])
    && (forall id :: id in habitDb ==> exists i :: 0 <= i < |hs| && hs[i].id == id)
  }

  predicate Consistent(s: Store) {
    Mirrors(s.habits, s.habitDb) && WellKeyed(s.db)
  }

  /** The record id `${habitId}_${date}`. */
  function CompletionId(habitId: string, d: Day): string {
    habitId + "_" + DateKey(d)
  }

  /** For four-digit years the record id determines the habit and the day,
      so keying records by the pair is keying them by id. */
  lemma CompletionIdInjective(h1: string, d1: Day, h2: string, d2: Day)
    requires InFourDigitYear(d1) && InFourDigitYear(d2)
    requires CompletionId(h1, d1) == CompletionId(h2, d2)
    ensures h1 == h2 && d1 == d2
  {
    DateKeyLength(d1);
    DateKeyLength(d2);
    SeparatedSplit(h1, DateKey(d1), h2, DateKey(d2));
    DateKeyInjective(d1, d2);
  }

  lemma DateKeyLength(d: Day)
    requires InFourDigitYear(d)
    ensures |DateKey(d)| == 10
  {
    FourDigitYearDays(d);
    var c := CivilFromDay(d);
    assert |FormatDate(c)| == 10;
  }

  /** Splitting `a_x` where the part after the separator has a known length. */
  lemma SeparatedSplit(a: string, x: string, b: string, y: string)
    requires a + "_" + x == b + "_" + y && |x| == |y|
    ensures a == b && x == y
  {
    var s := a + "_" + x;
    assert |a| == |b|;
    assert a == s[..|a|] == b;
    assert x == s[|a| + 1..] == y;
  }

  // ---------------------------------------------------------------------
  // Completion maps

  /** The records of one habit, keyed by day: what the per-habit query
      returns, folded into a map. */
  function HabitView(db: Db, habitId: string): (m: CompletionMap)
    ensures habitId !in db ==> m == map[]
  {
    if habitId in db then db[habitId] else map[]
  }

  /** Store `c` as the record of `habitId` on day `d`. */
  function Put(db: Db, habitId: string, d: Day, c: Completion): (r: Db)
    ensures d in HabitView(r, habitId) && HabitView(r, habitId)[d] == c
    ensures forall e :: e != d ==> (e in HabitView(r, habitId) <==> e in HabitView(db, habitId))
    ensures forall e :: e != d && e in HabitView(db, habitId) ==> HabitView(r, habitId)[e] == HabitView(db, habitId)[e]
    ensures forall h :: h != habitId ==> HabitView(r, h) == HabitView(db, h)
  {
    db[habitId := HabitView(db, habitId)[d := c]]
  }

  /** Delete the record of `habitId` on day `d`, if any. */
  function Remove(db: Db, habitId: string, d: Day): (r: Db)
    ensures d !in HabitView(r, habitId)
    ensures forall e :: e != d ==> (e in HabitView(r, habitId) <==> e in HabitView(db, habitId))
    ensures forall e :: e != d && e in HabitView(db, habitId) ==> HabitView(r, habitId)[e] == HabitView(db, habitId)[e]
    ensures forall h :: h != habitId ==> HabitView(r, h) == HabitView(db, h)
  {
    db[habitId := HabitView(db, habitId) - {d}]
  }

  /** No later record in `cs` has the date of record `i`. */
  predicate LastForDate(cs: seq<Completion>, i: nat)
    requires i < |cs|
  {
    forall j :: i < j < |cs| ==> cs[j].date != cs[i].date
  }

  /** `completions.forEach(c => { completionMap[c.date] = c })`: one entry
      per date that occurs, holding the last record with that date. */
  function BuildCompletionMap(cs: seq<Completion>): (m: CompletionMap)
    ensures forall d :: d in m <==> exists i :: 0 <= i < |cs| && cs[i].date == d
    ensures forall d :: d in m ==> exists i :: 0 <= i < |cs| && cs[i].date == d && m[d] == cs[i]
    ensures forall i :: 0 <= i < |cs| && LastForDate(cs, i) ==> m[cs[i].date] == cs[i]
  {
    if |cs| == 0 then map[]
    else
      var init, c := cs[..|cs| - 1], cs[|cs| - 1];
      var prev := BuildCompletionMap(init);
      assert cs == init + [c];
      BuildStepKeys(init, c, prev);
      BuildStepSources(init, c, prev);
      BuildStepLast(init, c, prev);
      prev[c.date := c]
  }

  /** Adding a record keeps the keys exactly the dates listed. */
  lemma BuildStepKeys(init: seq<Completion>, c: Completion, prev: CompletionMap)
    requires forall d :: d in prev <==> exists i :: 0 <= i < |init| && init[i].date == d
    ensures var cs, m := init + [c], prev[c.date := c];
      forall d :: d in m <==> exists i :: 0 <= i < |cs| && cs[i].date == d
  {
    var cs, m := init + [c], prev[c.date := c];
    forall d | d in m
      ensures exists i :: 0 <= i < |cs| && cs[i].date == d
    {
      if d == c.date {
        assert cs[|init|].date == d;
      } else {
        var i :| 0 <= i < |init| && init[i].date == d;
        assert cs[i] == init[i];
      }
    }
    forall d, i | 0 <= i < |cs| && cs[i].date == d
      ensures d in m
    {
      if i < |init| {
        assert init[i] == cs[i];
      }
    }
  }

  /** Adding a record keeps every stored value one of the records. */
  lemma BuildStepSources(init: seq<Completion>, c: Completion, prev: CompletionMap)
    requires forall d :: d in prev ==> exists i :: 0 <= i < |init| && init[i].date == d && prev[d] == init[i]
    ensures var cs, m := init + [c], prev[c.date := c];
      forall d :: d in m ==> exists i :: 0 <= i < |cs| && cs[i].date == d && m[d] == cs[i]
  {
    var cs, m := init + [c], prev[c.date := c];
    forall d | d in m
      ensures exists i :: 0 <= i < |cs| && cs[i].date == d && m[d] == cs[i]
    {
      if d == c.date {
        assert cs[|init|].date == d && m[d] == cs[|init|];
      } else {
        var i :| 0 <= i < |init| && init[i].date == d && prev[d] == init[i];
        assert cs[i] == init[i];
      }
    }
  }

  /** Adding a record keeps the last record of each date stored. */
  lemma BuildStepLast(init: seq<Completion>, c: Completion, prev: CompletionMap)
    requires forall i :: 0 <= i < |init| ==> init[i].date in prev
    requires forall i :: 0 <= i < |init| && LastForDate(init, i) ==> prev[init[i].date] == init[i]
    ensures var cs, m := init + [c], prev[c.date := c];
      forall i :: 0 <= i < |cs| && LastForDate(cs, i) ==> cs[i].date in m && m[cs[i].date] == cs[i]
  {
    var cs, m := init + [c], prev[c.date := c];
    forall i | 0 <= i < |init| && LastForDate(cs, i)
      ensures m[cs[i].date] == cs[i]
    {
      assert cs[|init|].date != cs[i].date;
      assert init[i] == cs[i];
      assert LastForDate(init, i) by {
        forall j | i < j < |init|
          ensures init[j].date != init[i].date
        {
          assert init[j] == cs[j];
        }
      }
    }
  }

  /** `cs` lists the records of habit `habitId` in `db`: each is stored
      under its own date, and every stored day of the habit occurs. */
  predicate Enumerates(cs: seq<Completion>, db: Db, habitId: string) {
    && (forall i :: 0 <= i < |cs| ==> cs[i].date in HabitView(db, habitId) && HabitView(db, habitId)[cs[i].date] == cs[i])
    && (forall d :: d in HabitView(db, habitId) ==> exists i :: 0 <= i < |cs| && cs[i].date == d)
  }

  /** Folding any listing of a habit's records gives the habit's view of
      the database, whatever order the listing comes in. */
  lemma RebuildIsView(cs: seq<Completion>, db: Db, habitId: string)
    requires Enumerates(cs, db, habitId)
    ensures BuildCompletionMap(cs) == HabitView(db, habitId)
  {
    var m, v := BuildCompletionMap(cs), HabitView(db, habitId);
    forall d | d in m
      ensures d in v && m[d] == v[d]
    {
      var i :| 0 <= i < |cs| && cs[i].date == d && m[d] == cs[i];
    }
    assert m.Keys == v.Keys;
  }

  /** Re-read one habit's records into its completion map. */
  function Refresh(s: Store, habitId: string): (r: Store)
    ensures r.habits == s.habits && r.habitDb == s.habitDb && r.db == s.db
    ensures habitId in r.completions && r.completions[habitId] == HabitView(s.db, habitId)
    ensures forall h :: h in s.completions && h != habitId ==> h in r.completions && r.completions[h] == s.completions[h]
    ensures r.completions.Keys == s.completions.Keys + {habitId}
  {
    s.(completions := s.completions[habitId := HabitView(s.db, habitId)])
  }

  /** `loadCompletions`: the habit's map becomes exactly its stored records. */
  function LoadCompletions(s: Store, habitId: string): (r: Store)
    ensures r.habits == s.habits && r.habitDb == s.habitDb && r.db == s.db
    ensures habitId in r.completions && r.completions[habitId] == HabitView(s.db, habitId)
    ensures forall h :: h in s.completions && h != habitId ==> h in r.completions && r.completions[h] == s.completions[h]
    ensures r.completions.Keys == s.completions.Keys + {habitId}
  {
    Refresh(s, habitId)
  }

  lemma LoadCompletionsIdempotent(s: Store, habitId: string)
    ensures LoadCompletions(LoadCompletions(s, habitId), habitId) == LoadCompletions(s, habitId)
  {
  }

  /** `toggleCompletion`: a stored record for the day is deleted, whatever
      its value; otherwise a record with value `true` is stored. The habit's
      map is then re-read; no other record or map changes. */
  function ToggleCompletion(s: Store, habitId: string, d: Day): (r: Store)
    ensures r.habits == s.habits && r.habitDb == s.habitDb
    ensures d in HabitView(r.db, habitId) <==> d !in HabitView(s.db, habitId)
    ensures d in HabitView(r.db, habitId) ==> HabitView(r.db, habitId)[d] == Completion(habitId, d, Bool(true))
    ensures forall e :: e != d ==> (e in HabitView(r.db, habitId) <==> e in HabitView(s.db, habitId))
    ensures forall e :: e != d && e in HabitView(s.db, habitId) ==> HabitView(r.db, habitId)[e] == HabitView(s.db, habitId)[e]
    ensures forall h :: h != habitId ==> HabitView(r.db, h) == HabitView(s.db, h)
    ensures habitId in r.completions && r.completions[habitId] == HabitView(r.db, habitId)
    ensures forall h :: h in s.completions && h != habitId ==> h in r.completions && r.completions[h] == s.completions[h]
    ensures Valid(r.completions[habitId], YesNo, d) <==> d !in HabitView(s.db, habitId)
    ensures Consistent(s) ==> Consistent(r)
    ensures r.completions.Keys == s.completions.Keys + {habitId}
  {
    var db := if d in HabitView(s.db, habitId) then Remove(s.db, habitId, d)
              else Put(s.db, habitId, d, Completion(habitId, d, Bool(true)));
    Refresh(s.(db := db), habitId)
  }

  /** Toggling twice restores the habit, day and value of every stored
      record when the day was empty or held `true`. */
  lemma ToggleTwiceRestores(s: Store, habitId: string, d: Day)
    requires WellKeyed(s.db)
    requires d in HabitView(s.db, habitId) ==> HabitView(s.db, habitId)[d].value == Bool(true)
    ensures forall h :: HabitView(ToggleCompletion(ToggleCompletion(s, habitId, d), habitId, d).db, h) == HabitView(s.db, h)
    ensures ToggleCompletion(ToggleCompletion(s, habitId, d), habitId, d).completions[habitId] == HabitView(s.db, habitId)
  {
    var r := ToggleCompletion(ToggleCompletion(s, habitId, d), habitId, d);
    var v, w := HabitView(r.db, habitId), HabitView(s.db, habitId);
    assert v.Keys == w.Keys;
    assert d in w ==> w[d] == Completion(habitId, d, Bool(true));
  }

  /** Toggling a day that holds any other value twice leaves `true` there:
      the recorded value is lost. */
  lemma ToggleTwiceOverwrites(s: Store, habitId: string, d: Day)
    requires d in HabitView(s.db, habitId)
    ensures var r := ToggleCompletion(ToggleCompletion(s, habitId, d), habitId, d);
            d in r.completions[habitId] && r.completions[habitId][d].value == Bool(true)
  {
  }

  /** `setNumericValue`: the day's record is stored with the given value,
      replacing any earlier one, and the habit's map is re-read. */
  function SetNumericValue(s: Store, habitId: string, d: Day, v: Value): (r: Store)
    ensures r.habits == s.habits && r.habitDb == s.habitDb
    ensures d in HabitView(r.db, habitId) && HabitView(r.db, habitId)[d] == Completion(habitId, d, v)
    ensures forall e :: e != d ==> (e in HabitView(r.db, habitId) <==> e in HabitView(s.db, habitId))
    ensures forall e :: e != d && e in HabitView(s.db, habitId) ==> HabitView(r.db, habitId)[e] == HabitView(s.db, habitId)[e]
    ensures forall h :: h != habitId ==> HabitView(r.db, h) == HabitView(s.db, h)
    ensures habitId in r.completions && r.completions[habitId] == HabitView(r.db, habitId)
    ensures forall h :: h in s.completions && h != habitId ==> h in r.completions && r.completions[h] == s.completions[h]
    ensures d in r.completions[habitId] && r.completions[habitId][d].value == v
    ensures Valid(r.completions[habitId], Numeric, d) <==> v.Num? && v.x > 0.0
    ensures Consistent(s) ==> Consistent(r)
    ensures r.completions.Keys == s.completions.Keys + {habitId}
  {
    Refresh(s.(db := Put(s.db, habitId, d, Completion(habitId, d, v))), habitId)
  }

  /** The last value set wins. */
  lemma SetNumericValueLastWins(s: Store, habitId: string, d: Day, v1: Value, v2: Value)
    ensures SetNumericValue(SetNumericValue(s, habitId, d, v1), habitId, d, v2) == SetNumericValue(s, habitId, d, v2)
  {
    var c1, c2 := Completion(habitId, d, v1), Completion(habitId, d, v2);
    var w := HabitView(s.db, habitId);
    var db1 := Put(s.db, habitId, d, c1);
    assert HabitView(db1, habitId) == w[d := c1];
    assert w[d := c1][d := c2] == w[d := c2];
    var db2 := Put(db1, habitId, d, c2);
    assert db2 == s.db[habitId := w[d := c2]];
    assert db2 == Put(s.db, habitId, d, c2);
    var c := s.completions[habitId := HabitView(db1, habitId)];
    assert c[habitId := HabitView(db2, habitId)] == s.completions[habitId := HabitView(db2, habitId)];
  }

  // ---------------------------------------------------------------------
  // Habits

  /** The fields a caller supplies for a new habit; `id` is present only
      when the caller passes one, which then replaces the generated id. */
  datatype HabitData = HabitData(
    id: Option<string>,
    name: string,
    description: string,
    htype: Option<HabitType>,
    color: string)

  /** The outcome of `addHabit`: the new store and habit, or the database
      refusing a second habit under an existing id. */
  datatype Added = Added(store: Store, habit: Habit) | DuplicateId

  function NewId(generatedId: string, data: HabitData): string {
    if data.id.Some? then data.id.value else generatedId
  }

  /** `addHabit` as written: the new habit is appended with
      `order = habits.length` and creation time `now`. */
  function AddHabit(s: Store, generatedId: string, data: HabitData, now: int): (r: Added)
    ensures r.DuplicateId? <==> NewId(generatedId, data) in s.habitDb
    ensures r.Added? ==> && r.store.habits == s.habits + [r.habit]
                         && r.store.habitDb == s.habitDb[r.habit.id := r.habit]
                         && r.store.completions == s.completions && r.store.db == s.db
    ensures r.Added? ==> && r.habit.id == NewId(generatedId, data)
                         && r.habit.name == data.name && r.habit.description == data.description
                         && r.habit.htype == data.htype && r.habit.color == data.color
                         && r.habit.createdAt == now && r.habit.order == |s.habits|
    ensures r.Added? && Consistent(s) ==> Consistent(r.store)
  {
    AddWithOrder(s, generatedId, data, now, |s.habits|)
  }

  /** Append a habit with the given order unless its id is taken. */
  function AddWithOrder(s: Store, generatedId: string, data: HabitData, now: int, order: int): (r: Added)
    ensures r.DuplicateId? <==> NewId(generatedId, data) in s.habitDb
    ensures r.Added? ==> && r.store.habits == s.habits + [r.habit]
                         && r.store.habitDb == s.habitDb[r.habit.id := r.habit]
                         && r.store.completions == s.completions && r.store.db == s.db
    ensures r.Added? ==> && r.habit.id == NewId(generatedId, data)
                         && r.habit.name == data.name && r.habit.description == data.description
                         && r.habit.htype == data.htype && r.habit.color == data.color
                         && r.habit.createdAt == now && r.habit.order == order
    ensures r.Added? && Consistent(s) ==> Consistent(r.store)
  {
    var id := NewId(generatedId, data);
    if id in s.habitDb then DuplicateId
    else
      var h := Habit(id, data.name, data.description, data.htype, data.color, now, order);
      var r := Store(s.habits + [h], s.habitDb[id := h], s.completions, s.db);
      assert Consistent(s) ==> Mirrors(r.habits, r.habitDb) by {
        if Consistent(s) {
          forall i | 0 <= i < |s.habits|
            ensures s.habits[i].id != id
          {
            assert s.habits[i].id in s.habitDb;
          }
          assert r.habits[|s.habits|] == h;
          forall k | k in r.habitDb
            ensures exists j :: 0 <= j < |r.habits| && r.habits[j].id == k
          {
            if k == id {
              assert r.habits[|s.habits|].id == k;
            } else {
              var j :| 0 <= j < |s.habits| && s.habits[j].id == k;
              assert r.habits[j] == s.habits[j];
            }
          }
        }
      }
      Added(r, h)
  }

  /** `habits.findIndex(h => h.id === id)`. */
  function FindIndex(hs: seq<Habit>, id: string): (i: int)
    ensures -1 <= i < |hs|
    ensures i >= 0 ==> hs[i].id == id && forall j :: 0 <= j < i ==> hs[j].id != id
    ensures i == -1 ==> forall j :: 0 <= j < |hs| ==> hs[j].id != id
  {
    if |hs| == 0 then -1
    else if hs[0].id == id then 0
    else
      var i := FindIndex(hs[1..], id);
      if i == -1 then -1 else i + 1
  }

  /** The fields an edit may change; `None` leaves a field as it is. */
  datatype HabitPatch = HabitPatch(
    name: Option<string>,
    description: Option<string>,
    htype: Option<HabitType>,
    color: Option<string>,
    order: Option<int>)

  /** `{ ...habit, ...updates }`. */
  function ApplyPatch(h: Habit, p: HabitPatch): (u: Habit)
    ensures u.id == h.id && u.createdAt == h.createdAt
    ensures u.name == (if p.name.Some? then p.name.value else h.name)
    ensures u.description == (if p.description.Some? then p.description.value else h.description)
    ensures u.htype == (if p.htype.Some? then p.htype else h.htype)
    ensures u.color == (if p.color.Some? then p.color.value else h.color)
    ensures u.order == (if p.order.Some? then p.order.value else h.order)
  {
    h.(name := if p.name.Some? then p.name.value else h.name,
       description := if p.description.Some? then p.description.value else h.description,
       htype := if p.htype.Some? then p.htype else h.htype,
       color := if p.color.Some? then p.color.value else h.color,
       order := if p.order.Some? then p.order.value else h.order)
  }

  /** `updateHabit`: the first habit with the id is replaced by its patched
      copy, in the list and in the database; an unknown id changes nothing. */
  function UpdateHabit(s: Store, id: string, p: HabitPatch): (r: Store)
    ensures (forall j :: 0 <= j < |s.habits| ==> s.habits[j].id != id) ==> r == s
    ensures |r.habits| == |s.habits| && r.completions == s.completions && r.db == s.db
    ensures forall j :: 0 <= j < |s.habits| ==>
              r.habits[j] == (if s.habits[j].id == id && FindIndex(s.habits, id) == j
                              then ApplyPatch(s.habits[j], p) else s.habits[j])
    ensures Consistent(s) ==> Consistent(r)
  {
    var i := FindIndex(s.habits, id);
    if i == -1 then s
    else
      var u := ApplyPatch(s.habits[i], p);
      var r := s.(habits := s.habits[i := u], habitDb := s.habitDb[id := u]);
      assert Consistent(s) ==> Mirrors(r.habits, r.habitDb) by {
        if Consistent(s) {
          forall j | 0 <= j < |r.habits|
            ensures r.habits[j].id in r.habitDb && r.habitDb[r.habits[j].id] == r.habits[j]
          {
            if j != i {
              assert s.habits[j].id != id;
            }
          }
          forall k | k in r.habitDb
            ensures exists j :: 0 <= j < |r.habits| && r.habits[j].id == k
          {
            var j :| 0 <= j < |s.habits| && s.habits[j].id == k;
            assert r.habits[j].id == k;
          }
        }
      }
      r
  }

  /** Applying the same edit twice is applying it once. */
  lemma UpdateHabitIdempotent(s: Store, id: string, p: HabitPatch)
    ensures UpdateHabit(UpdateHabit(s, id, p), id, p) == UpdateHabit(s, id, p)
  {
    var i := FindIndex(s.habits, id);
    if i != -1 {
      var u := ApplyPatch(s.habits[i], p);
      var r := s.(habits := s.habits[i := u], habitDb := s.habitDb[id := u]);
      assert r == UpdateHabit(s, id, p);
      var k := FindIndex(r.habits, id);
      assert r.habits[i] == u && u.id == id;
      assert k != -1 && k <= i;
      assert k == i;
      var u' := ApplyPatch(u, p);
      assert u' == u;
      assert r.habits[i := u'] == r.habits;
      assert r.habitDb[id := u'] == r.habitDb;
    }
  }

  /** `habits.filter(h => h.id !== id)`. */
  function FilterOut(hs: seq<Habit>, id: string): (r: seq<Habit>)
    ensures |r| <= |hs|
    ensures (forall j :: 0 <= j < |hs| ==> hs[j].id != id) ==> r == hs
  {
    if |hs| == 0 then []
    else if hs[0].id == id then FilterOut(hs[1..], id)
    else [hs[0]] + FilterOut(hs[1..], id)
  }

  /** The filter keeps exactly the habits with another id. */
  lemma {:induction false} FilterOutMembers(hs: seq<Habit>, id: string)
    ensures forall h :: h in FilterOut(hs, id) <==> h in hs && h.id != id
  {
    if |hs| > 0 {
      FilterOutMembers(hs[1..], id);
      assert hs == [hs[0]] + hs[1..];
    }
  }

  /** Filtering works piecewise, so the kept habits stay in their relative
      order whatever the ids. */
  lemma {:induction false} FilterOutAppend(a: seq<Habit>, b: seq<Habit>, id: string)
    ensures FilterOut(a + b, id) == FilterOut(a, id) + FilterOut(b, id)
  {
    if |a| == 0 {
      assert a + b == b;
    } else {
      assert (a + b)[0] == a[0];
      assert (a + b)[1..] == a[1..] + b;
      FilterOutAppend(a[1..], b, id);
    }
  }

  /** With distinct ids, filtering removes exactly the one matching habit
      and keeps the others in their order. */
  lemma {:induction false} FilterOutRemovesOne(hs: seq<Habit>, id: string, i: nat)
    requires IdsDistinct(hs) && i < |hs| && hs[i].id == id
    ensures FilterOut(hs, id) == hs[..i] + hs[i + 1..]
  {
    var tail := hs[1..];
    if i == 0 {
      FilterOutHeadMatch(hs, id);
    } else {
      IdsDistinctTail(hs);
      assert tail[i - 1] == hs[i];
      FilterOutRemovesOne(tail, id, i - 1);
      assert hs[0].id != id;
      FilterOutKeepHead(hs, id, i);
    }
  }

  /** A distinct-id list whose head has the id loses just its head. */
  lemma FilterOutHeadMatch(hs: seq<Habit>, id: string)
    requires |hs| > 0 && IdsDistinct(hs) && hs[0].id == id
    ensures FilterOut(hs, id) == hs[..0] + hs[1..]
  {
    var tail := hs[1..];
    forall j | 0 <= j < |tail|
      ensures tail[j].id != id
    {
      assert tail[j] == hs[j + 1];
    }
    assert hs[..0] + tail == tail;
  }

  /** The step of `FilterOutRemovesOne` past a head that is kept. */
  lemma FilterOutKeepHead(hs: seq<Habit>, id: string, i: nat)
    requires 0 < i < |hs| && hs[0].id != id
    requires FilterOut(hs[1..], id) == hs[1..][..i - 1] + hs[1..][i..]
    ensures FilterOut(hs, id) == hs[..i] + hs[i + 1..]
  {
    var tail := hs[1..];
    assert FilterOut(hs, id) == [hs[0]] + FilterOut(tail, id);
    SliceAfterHead(hs, i);
    assert [hs[0]] + (tail[..i - 1] + tail[i..]) == ([hs[0]] + tail[..i - 1]) + tail[i..];
  }

  lemma SliceAfterHead<T>(hs: seq<T>, i: nat)
    requires 0 < i < |hs|
    ensures hs[..i] == [hs[0]] + hs[1..][..i - 1]
    ensures hs[i + 1..] == hs[1..][i..]
  {
  }

  lemma IdsDistinctTail(hs: seq<Habit>)
    requires |hs| > 0 && IdsDistinct(hs)
    ensures IdsDistinct(hs[1..])
  {
    forall a, b | 0 <= a < b < |hs[1..]|
      ensures hs[1..][a].id != hs[1..][b].id
    {
      assert hs[1..][a] == hs[a + 1] && hs[1..][b] == hs[b + 1];
    }
  }

  /** Every habit of the tail has an id other than the head's. */
  lemma HeadIdUnique(hs: seq<Habit>, x: Habit)
    requires |hs| > 0 && IdsDistinct(hs) && x in hs[1..]
    ensures x.id != hs[0].id
  {
    var k :| 0 <= k < |hs[1..]| && hs[1..][k] == x;
    assert hs[k + 1] == x;
  }

  lemma {:induction false} FilterOutDistinct(hs: seq<Habit>, id: string)
    requires IdsDistinct(hs)
    ensures IdsDistinct(FilterOut(hs, id))
  {
    if |hs| > 0 {
      var tail := hs[1..];
      IdsDistinctTail(hs);
      FilterOutDistinct(tail, id);
      var rest := FilterOut(tail, id);
      FilterOutMembers(tail, id);
      if hs[0].id != id {
        var r := [hs[0]] + rest;
        assert FilterOut(hs, id) == r;
        forall a, b | 0 <= a < b < |r|
          ensures r[a].id != r[b].id
        {
          assert r[b] == rest[b - 1];
          if a == 0 {
            assert rest[b - 1] in tail;
            HeadIdUnique(hs, rest[b - 1]);
          } else {
            assert r[a] == rest[a - 1];
          }
        }
      } else {
        assert FilterOut(hs, id) == rest;
      }
    }
  }

  /** The completion records that do not belong to the habit. */
  function WithoutHabit(db: Db, id: string): (r: Db)
    ensures HabitView(r, id) == map[]
    ensures forall h :: h != id ==> HabitView(r, h) == HabitView(db, h)
  {
    db - {id}
  }

  /** `deleteHabit`: the habit leaves the list and the database, and all of
      its completion records are deleted with it; other habits' records
      stay. The cached completion map in memory is not cleared. */
  function DeleteHabit(s: Store, id: string): (r: Store)
    ensures r.habits == FilterOut(s.habits, id)
    ensures forall h :: h in r.habits <==> h in s.habits && h.id != id
    ensures id !in r.habitDb && forall k :: k != id ==> (k in r.habitDb <==> k in s.habitDb)
    ensures HabitView(r.db, id) == map[]
    ensures forall h :: h != id ==> HabitView(r.db, h) == HabitView(s.db, h)
    ensures r.completions == s.completions
    ensures Consistent(s) && id in s.habitDb ==> |r.habits| == |s.habits| - 1
    ensures Consistent(s) ==> Consistent(r)
  {
    var r := Store(FilterOut(s.habits, id), s.habitDb - {id}, s.completions, WithoutHabit(s.db, id));
    FilterOutMembers(s.habits, id);
    if Consistent(s) then
      DeleteKeepsMirror(s.habits, s.habitDb, id);
      r
    else r
  }

  /** Filtering the list and deleting the record keep the two in step,
      and remove exactly one habit when the id is present. */
  lemma DeleteKeepsMirror(hs: seq<Habit>, habitDb: map<string, Habit>, id: string)
    requires Mirrors(hs, habitDb)
    ensures Mirrors(FilterOut(hs, id), habitDb - {id})
    ensures id in habitDb ==> |FilterOut(hs, id)| == |hs| - 1
  {
    var rs, rdb := FilterOut(hs, id), habitDb - {id};
    FilterOutMembers(hs, id);
    FilterOutDistinct(hs, id);
    forall k | k in rdb
      ensures exists j :: 0 <= j < |rs| && rs[j].id == k
    {
      var j :| 0 <= j < |hs| && hs[j].id == k;
      assert hs[j] in rs;
      var j' :| 0 <= j' < |rs| && rs[j'] == hs[j];
    }
    forall j | 0 <= j < |rs|
      ensures rs[j].id in rdb && rdb[rs[j].id] == rs[j]
    {
      assert rs[j] in hs;
    }
    if id in habitDb {
      var i :| 0 <= i < |hs| && hs[i].id == id;
      FilterOutRemovesOne(hs, id, i);
    }
  }

  // ---------------------------------------------------------------------
  // Ordering

  predicate SortedByOrder(hs: seq<Habit>) {
    forall i, j :: 0 <= i < j < |hs| ==> hs[i].order <= hs[j].order
  }

  /** The habits with order `k`, in their order of appearance. */
  function OrderClass(hs: seq<Habit>, k: int): seq<Habit> {
    if |hs| == 0 then []
    else (if hs[0].order == k then [hs[0]] else []) + OrderClass(hs[1..], k)
  }

  /** Insert `h` into a sorted list ahead of every habit with an equal or
      larger order. */
  function InsertFront(h: Habit, s: seq<Habit>): (r: seq<Habit>)
    ensures multiset(r) == multiset(s) + multiset{h}
    ensures |r| == |s| + 1
    ensures SortedByOrder(s) ==> SortedByOrder(r)
  {
    if |s| == 0 || h.order <= s[0].order then
      assert SortedByOrder(s) ==> SortedByOrder([h] + s) by {
        if SortedByOrder(s) && |s| > 0 {
          SortedSplit(s);
          SortedCons(h, s);
        }
      }
      [h] + s
    else
      var rest := InsertFront(h, s[1..]);
      assert s == [s[0]] + s[1..];
      assert SortedByOrder(s) ==> SortedByOrder([s[0]] + rest) by {
        if SortedByOrder(s) {
          SortedSplit(s);
          forall x | x in rest
            ensures s[0].order <= x.order
          {
            assert x in multiset(rest);
          }
          SortedCons(s[0], rest);
        }
      }
      [s[0]] + rest
  }

  /** A sorted list is its least element followed by a sorted rest. */
  lemma SortedSplit(s: seq<Habit>)
    requires |s| > 0 && SortedByOrder(s)
    ensures SortedByOrder(s[1..])
    ensures forall x :: x in s ==> s[0].order <= x.order
  {
    forall i, j | 0 <= i < j < |s[1..]|
      ensures s[1..][i].order <= s[1..][j].order
    {
      assert s[1..][i] == s[i + 1] && s[1..][j] == s[j + 1];
    }
  }

  /** Prepending a habit ordered no later than every other keeps a list sorted. */
  lemma SortedCons(h: Habit, s: seq<Habit>)
    requires SortedByOrder(s)
    requires forall x :: x in s ==> h.order <= x.order
    ensures SortedByOrder([h] + s)
  {
    forall i, j | 0 <= i < j < |[h] + s|
      ensures ([h] + s)[i].order <= ([h] + s)[j].order
    {
      assert ([h] + s)[j] == s[j - 1];
      if i > 0 {
        assert ([h] + s)[i] == s[i - 1];
      }
    }
  }

  /** Insertion keeps every class of equal orders in its order, with the
      inserted habit at the front of its class. */
  lemma {:induction false} InsertFrontClass(h: Habit, s: seq<Habit>, k: int)
    ensures OrderClass(InsertFront(h, s), k) == (if h.order == k then [h] else []) + OrderClass(s, k)
  {
    if |s| == 0 || h.order <= s[0].order {
      assert ([h] + s)[1..] == s;
    } else {
      var rest := InsertFront(h, s[1..]);
      assert ([s[0]] + rest)[1..] == rest;
      InsertFrontClass(h, s[1..], k);
    }
  }

  /** `filtered.sort((a, b) => a.order - b.order)`: a stable sort by order
      (`Array.prototype.sort` is stable). The result is ordered, is a
      permutation of the input, and keeps habits of equal order in their
      original relative order. */
  function SortByOrder(hs: seq<Habit>): (r: seq<Habit>)
    ensures SortedByOrder(r)
    ensures multiset(r) == multiset(hs)
    ensures forall k :: OrderClass(r, k) == OrderClass(hs, k)
  {
    if |hs| == 0 then []
    else
      var rest := SortByOrder(hs[1..]);
      assert hs == [hs[0]] + hs[1..];
      assert forall k :: OrderClass(InsertFront(hs[0], rest), k) == OrderClass(hs, k) by {
        forall k
          ensures OrderClass(InsertFront(hs[0], rest), k) == OrderClass(hs, k)
        {
          InsertFrontClass(hs[0], rest, k);
        }
      }
      InsertFront(hs[0], rest)
  }

  /** How `getFilteredHabits` orders the list: by `order`, or left as is
      for a sort key other than 'name' and 'order'. */
  datatype SortMode = ByOrder | Unsorted

  /** `getFilteredHabits`: a copy of the habit list (no filter is applied),
      sorted as the mode says. */
  function GetFilteredHabits(s: Store, mode: SortMode): (r: seq<Habit>)
    ensures multiset(r) == multiset(s.habits)
    ensures mode == ByOrder ==> SortedByOrder(r) && forall k :: OrderClass(r, k) == OrderClass(s.habits, k)
    ensures mode == Unsorted ==> r == s.habits
  {
    if mode == ByOrder then SortByOrder(s.habits) else s.habits
  }

  /** Inserting a habit whose order is at least `h`'s in front of a
      trailing element commutes with the append. */
  lemma {:induction false} InsertFrontAppend(h: Habit, s: seq<Habit>, last: Habit)
    requires h.order <= last.order
    ensures InsertFront(h, s + [last]) == InsertFront(h, s) + [last]
  {
    if |s| == 0 {
      assert s + [last] == [last];
    } else if h.order <= s[0].order {
    } else {
      assert (s + [last])[1..] == s[1..] + [last];
      InsertFrontAppend(h, s[1..], last);
    }
  }

  /** A habit whose order is at least every other order sorts last. */
  lemma {:induction false} AppendedSortsLast(hs: seq<Habit>, h: Habit)
    requires forall j :: 0 <= j < |hs| ==> hs[j].order <= h.order
    ensures SortByOrder(hs + [h]) == SortByOrder(hs) + [h]
  {
    if |hs| == 0 {
      assert hs + [h] == [h];
    } else {
      assert (hs + [h])[1..] == hs[1..] + [h];
      assert (hs + [h])[0] == hs[0];
      AppendedSortsLast(hs[1..], h);
      InsertFrontAppend(hs[0], SortByOrder(hs[1..]), h);
    }
  }

  /** After deletions an order can exceed the list's length; a habit added
      then gets a smaller order than an existing one, and once the list is
      sorted by order (as `getAllHabits` does on the next load) it is
      listed before that habit, not at the end. */
  lemma AddedHabitCanSortFirst()
    ensures var prior := Habit("a", "Read", "", Some(YesNo), "#000", 0, 2);
            var s := Store([prior], map["a" := prior], map[], map[]);
            var r := AddHabit(s, "b", HabitData(None, "Run", "", Some(YesNo), "#000"), 1);
            && Consistent(s) && r.Added?
            && SortByOrder(r.store.habits) == [r.habit, prior]
  {
    var prior := Habit("a", "Read", "", Some(YesNo), "#000", 0, 2);
    var s := Store([prior], map["a" := prior], map[], map[]);
    var data := HabitData(None, "Run", "", Some(YesNo), "#000");
    SingletonConsistent(prior);
    assert "b" !in s.habitDb;
    var r := AddHabit(s, "b", data, 1);
    var nh := Habit("b", "Run", "", Some(YesNo), "#000", 1, 1);
    assert r.Added? && r.habit == nh;
    assert r.store.habits == [prior, nh];
    SortTwo(prior, nh);
  }

  lemma SingletonConsistent(h: Habit)
    ensures Consistent(Store([h], map[h.id := h], map[], map[]))
  {
    var s := Store([h], map[h.id := h], map[], map[]);
    forall id | id in s.habitDb
      ensures exists i :: 0 <= i < |s.habits| && s.habits[i].id == id
    {
      assert s.habits[0].id == id;
    }
  }

  lemma SortTwo(a: Habit, b: Habit)
    requires b.order < a.order
    ensures SortByOrder([a, b]) == [b, a]
  {
    assert [a, b][1..] == [b];
    assert [b][1..] == [];
    assert SortByOrder([b]) == InsertFront(b, []) == [b];
    assert InsertFront(a, [b]) == [b] + InsertFront(a, []);
  }

  /** One more than the largest order in the list, 0 for an empty list. */
  function NextOrder(hs: seq<Habit>): (n: int)
    ensures forall j :: 0 <= j < |hs| ==> hs[j].order < n
  {
    if |hs| == 0 then 0
    else
      var m := NextOrder(hs[1..]);
      assert forall j :: 1 <= j < |hs| ==> hs[j] == hs[1..][j - 1];
      if hs[0].order + 1 > m then hs[0].order + 1 else m
  }

  /** `addHabit` with the new habit ordered after every existing one. */
  function AddHabitLast(s: Store, generatedId: string, data: HabitData, now: int): (r: Added)
    ensures r.DuplicateId? <==> NewId(generatedId, data) in s.habitDb
    ensures r.Added? ==> && r.store.habits == s.habits + [r.habit]
                         && r.habit.id == NewId(generatedId, data)
                         && forall j :: 0 <= j < |s.habits| ==> s.habits[j].order < r.habit.order
    ensures r.Added? ==> SortByOrder(r.store.habits) == SortByOrder(s.habits) + [r.habit]
    ensures r.Added? && Consistent(s) ==> Consistent(r.store)
  {
    var r := AddWithOrder(s, generatedId, data, now, NextOrder(s.habits));
    if r.Added? then
      AppendedSortsLast(s.habits, r.habit);
      r
    else r
  }
}
