/** The streak view: a window of the last N days ending today, oldest first, each day
    flagged 1 when the user has a completion row for it. Dates are day numbers. */
module Streak {
  import opened Schema

  /** `parseInt(req.query.days || '14', 10)` after parsing: an absent parameter means 14
      days, and a parsed number is used as it is. The query string itself is not modelled:
      an empty `?days=` also means 14 there, and `parseInt` reads a leading number
      (`"7x"` gives 7). */
  function DaysParam(query: Option<int>): (days: int)
    ensures query.None? ==> days == 14
    ensures query.Some? ==> days == query.value
  {
    if query.None? then 14 else query.value
  }

  /** The countdown `for (i = DAYS - 1; i >= 0; i--)` runs max(DAYS, 0) times. */
  function WindowLength(days: int): (n: nat)
    ensures days >= 0 ==> n == days
    ensures days < 0 ==> n == 0
  {
    if days > 0 then days else 0
  }

  /** The last `n` days ending at `today`, oldest first. */
  function Window(today: int, n: nat): (labels: seq<int>)
    ensures |labels| == n
    ensures n > 0 ==> labels[n - 1] == today
    ensures forall k :: 0 < k < n ==> labels[k] == labels[k - 1] + 1
    ensures forall i, j :: 0 <= i < j < n ==> labels[i] < labels[j]
  {
    seq(n, k requires 0 <= k < n => today - n + 1 + k)
  }

  /** `days.map(d => doneDates.has(d) ? 1 : 0)`. */
  function Flags(labels: seq<int>, done: set<int>): (values: seq<int>)
    ensures |values| == |labels|
    ensures forall k :: 0 <= k < |labels| ==> (values[k] == 1 <==> labels[k] in done)
    ensures forall k :: 0 <= k < |labels| ==> (values[k] == 0 <==> labels[k] !in done)
  {
    seq(|labels|, k requires 0 <= k < |labels| => if labels[k] in done then 1 else 0)
  }

  /** The query keeps only dates from the first day of the window on; since the window
      ascends, this loses no day of the window, so each flag is 1 exactly when the user has
      a completion row for that day. */
  lemma {:induction false} FlagsMeanCompletion(tasks: seq<TaskRow>, userId: int, labels: seq<int>)
    requires labels != []
    requires forall i, j :: 0 <= i < j < |labels| ==> labels[i] < labels[j]
    ensures forall k :: 0 <= k < |labels| ==>
      (Flags(labels, DoneDatesFrom(tasks, userId, labels[0]))[k] == 1 <==> Completed(tasks, userId, labels[k]))
  {
    var done := DoneDatesFrom(tasks, userId, labels[0]);
    forall k | 0 <= k < |labels|
      ensures Flags(labels, done)[k] == 1 <==> Completed(tasks, userId, labels[k])
    {
      assert labels[k] >= labels[0] by {
        if k > 0 { assert labels[0] < labels[k]; }
      }
    }
  }
}
