/** The records `MemStorage` keeps: period logs and cycles, the shapes used to create
    them, and the partial updates applied by `{ ...existing, ...patch }`.
    Dates are whole calendar days, numbered consecutively. */
module Records {
  import opened JsMap

  type Day = int

  /** A daily log entry. `flow` is a free string in storage; the client offers
      "light", "medium", "heavy" and "none". The annotations play no part in cycles. */
  datatype PeriodLog = PeriodLog(
    id: nat,
    userId: int,
    date: Day,
    flow: Option<string>,
    symptoms: Option<seq<string>>,
    mood: Option<string>,
    notes: Option<string>)

  /** What `createPeriodLog` receives: a log without its id. */
  datatype NewPeriodLog = NewPeriodLog(
    userId: int,
    date: Day,
    flow: Option<string>,
    symptoms: Option<seq<string>>,
    mood: Option<string>,
    notes: Option<string>)

  /** A `Partial<PeriodLog>`: `None` leaves a field alone; `Some(None)` sets an optional
      field to `undefined`. */
  datatype LogPatch = LogPatch(
    id: Option<nat>,
    userId: Option<int>,
    date: Option<Day>,
    flow: Option<Option<string>>,
    symptoms: Option<Option<seq<string>>>,
    mood: Option<Option<string>>,
    notes: Option<Option<string>>)

  datatype Cycle = Cycle(
    id: nat,
    userId: int,
    startDate: Day,
    endDate: Day,
    periodLength: int,
    cycleLength: Option<int>)

  /** What `createCycle` receives: a cycle without its id. */
  datatype NewCycle = NewCycle(
    userId: int,
    startDate: Day,
    endDate: Day,
    periodLength: int,
    cycleLength: Option<int>)

  /** A `Partial<Cycle>` without the `id` field. */
  datatype CyclePatch = CyclePatch(
    userId: Option<int>,
    startDate: Option<Day>,
    endDate: Option<Day>,
    periodLength: Option<int>,
    cycleLength: Option<Option<int>>)

  function Or<T>(patched: Option<T>, kept: T): T {
    if patched.Some? then patched.value else kept
  }

  function WithLogId(l: NewPeriodLog, id: nat): (r: PeriodLog)
    ensures r.id == id && WithoutLogId(r) == l
  {
    PeriodLog(id, l.userId, l.date, l.flow, l.symptoms, l.mood, l.notes)
  }

  function WithoutLogId(l: PeriodLog): NewPeriodLog {
    NewPeriodLog(l.userId, l.date, l.flow, l.symptoms, l.mood, l.notes)
  }

  function WithCycleId(c: NewCycle, id: nat): (r: Cycle)
    ensures r.id == id && WithoutCycleId(r) == c
  {
    Cycle(id, c.userId, c.startDate, c.endDate, c.periodLength, c.cycleLength)
  }

  function WithoutCycleId(c: Cycle): NewCycle {
    NewCycle(c.userId, c.startDate, c.endDate, c.periodLength, c.cycleLength)
  }

  /** `{ ...l, ...p }`: every field present in the patch wins, every other field is kept. */
  function MergeLog(l: PeriodLog, p: LogPatch): (r: PeriodLog)
    ensures p == LogPatch(None, None, None, None, None, None, None) ==> r == l
    ensures r.id == (if p.id.Some? then p.id.value else l.id)
    ensures r.userId == (if p.userId.Some? then p.userId.value else l.userId)
    ensures r.date == (if p.date.Some? then p.date.value else l.date)
    ensures r.flow == (if p.flow.Some? then p.flow.value else l.flow)
    ensures r.symptoms == (if p.symptoms.Some? then p.symptoms.value else l.symptoms)
    ensures r.mood == (if p.mood.Some? then p.mood.value else l.mood)
    ensures r.notes == (if p.notes.Some? then p.notes.value else l.notes)
  {
    PeriodLog(Or(p.id, l.id), Or(p.userId, l.userId), Or(p.date, l.date), Or(p.flow, l.flow),
              Or(p.symptoms, l.symptoms), Or(p.mood, l.mood), Or(p.notes, l.notes))
  }

  /** `{ ...c, ...p }` for a cycle; the id is never patched. */
  function MergeCycle(c: Cycle, p: CyclePatch): (r: Cycle)
    ensures r.id == c.id
    ensures p == CyclePatch(None, None, None, None, None) ==> r == c
    ensures r.userId == (if p.userId.Some? then p.userId.value else c.userId)
    ensures r.startDate == (if p.startDate.Some? then p.startDate.value else c.startDate)
    ensures r.endDate == (if p.endDate.Some? then p.endDate.value else c.endDate)
    ensures r.periodLength == (if p.periodLength.Some? then p.periodLength.value else c.periodLength)
    ensures r.cycleLength == (if p.cycleLength.Some? then p.cycleLength.value else c.cycleLength)
  {
    Cycle(c.id, Or(p.userId, c.userId), Or(p.startDate, c.startDate), Or(p.endDate, c.endDate),
          Or(p.periodLength, c.periodLength), Or(p.cycleLength, c.cycleLength))
  }
}
