/** Date-indexed selection: the task of the day, the tip of the day, and the tip catalog
    that is seeded into an empty `tips` table at startup. */
module Daily {
  import opened Schema

  /** A day of the month as `Date.getDate()` reports it. */
  type DayOfMonth = d: int | 1 <= d <= 31 witness 1

  /** The fixed, ordered list of tasks of `GET /api/task`. */
  const Tasks: seq<string> := [
    "Plant a seed or small plant \U{1F331}",
    "Refill a reusable bottle instead of buying plastic",
    "Collect and compost kitchen scraps for 15 minutes",
    "Pick up 5 pieces of litter in your neighborhood",
    "Avoid single-use plastics for the whole day",
    "Use public transport or walk for one trip today"
  ]

  /** The answer of `GET /api/tip` when the table is empty or cannot be read. */
  const FallbackTip: string := "Reduce, reuse, recycle."

  /** The catalog inserted, in this order, into an empty `tips` table. */
  const SeedTips: seq<string> := [
    "Turn off lights when leaving a room.",
    "Use a reusable bottle instead of single-use plastic.",
    "Take shorter showers to save water.",
    "Carry a cloth bag for shopping.",
    "Compost kitchen scraps if you can.",
    "Plant a native flower to help pollinators.",
    "Air dry clothes when possible to save energy."
  ]

  /** The index a day of the month selects in a list of `n` entries: the remainder of the
      day by `n`. The day is 1-based and the list 0-based, so day `n` selects entry 0. */
  function DayIndex(day: DayOfMonth, n: int): (k: int)
    requires n > 0
    ensures 0 <= k < n
    ensures day == (day / n) * n + k
  {
    day % n
  }

  function TaskOfDay(day: DayOfMonth): (task: string)
    ensures task in Tasks
    ensures task == Tasks[DayIndex(day, |Tasks|)]
  {
    Tasks[day % |Tasks|]
  }

  /** The selection repeats with the period of the list. */
  lemma TaskPeriodic(day: DayOfMonth)
    requires day + |Tasks| <= 31
    ensures TaskOfDay(day + |Tasks|) == TaskOfDay(day)
  {
  }

  /** Every task of the list is the task of some day of every month. */
  lemma EveryTaskIsScheduled(k: int)
    requires 0 <= k < |Tasks|
    ensures exists day: DayOfMonth :: TaskOfDay(day) == Tasks[k]
  {
    var day: DayOfMonth := if k == 0 then |Tasks| else k;
    assert TaskOfDay(day) == Tasks[k];
  }

  /** Tip of the day over the rows of `SELECT * FROM tips ORDER BY id`. */
  function TipOfDay(day: DayOfMonth, rows: seq<TipRow>, readFails: bool): (tip: string)
    ensures readFails || rows == [] ==> tip == FallbackTip
    ensures !readFails && rows != [] ==> tip == rows[DayIndex(day, |rows|)].tip
  {
    if readFails || rows == [] then FallbackTip else rows[day % |rows|].tip
  }

  /** The rows of a seeded table: the catalog in order, with ids 1, 2, ... */
  function SeedRows(): (rows: seq<TipRow>)
    ensures |rows| == |SeedTips|
    ensures TipIds(rows)
    ensures forall k :: 0 <= k < |rows| ==> rows[k].tip == SeedTips[k]
  {
    seq(|SeedTips|, k requires 0 <= k < |SeedTips| => TipRow(k + 1, SeedTips[k]))
  }

  /** The `tips` table after the startup seeding: the catalog is inserted iff the count
      query succeeds and reports an empty table. */
  function Seeded(tips: seq<TipRow>, countFails: bool): (r: seq<TipRow>)
    ensures r != tips <==> tips == [] && !countFails
    ensures tips == [] && !countFails ==> r == SeedRows()
  {
    if tips == [] && !countFails then SeedRows() else tips
  }

  /** Seeding twice is seeding once, whenever the first run could read the count. */
  lemma SeedingIdempotent(tips: seq<TipRow>, countFails: bool)
    ensures Seeded(Seeded(tips, false), countFails) == Seeded(tips, false)
  {
  }

  /** On a freshly seeded table the tip of the day is never the fallback. */
  lemma {:induction false} SeededTipOfDay(day: DayOfMonth)
    ensures TipOfDay(day, Seeded([], false), false) == SeedTips[day % |SeedTips|]
    ensures TipOfDay(day, Seeded([], false), false) != FallbackTip
  {
    var k := day % |SeedTips|;
    assert SeedRows()[k].tip == SeedTips[k];
    assert FallbackTip !in SeedTips;
  }
}
