/**
 * The deadline countdown shown beside each chapter (main.py:85-102), with
 * dates as day numbers and today's date passed in.
 */
module Countdown {
  import opened Records

  /**
   * The five labels, and the one for a deadline that does not parse:
   * "N/A", "k days OVERDUE", "DUE TODAY", "1 day left", "k days left",
   * "Invalid Date".
   */
  datatype Label =
    | NotApplicable
    | Overdue(days: nat)
    | DueToday
    | OneDayLeft
    | DaysLeft(days: nat)
    | InvalidDate

  /** The label for a deadline `deadline` seen on day `today`. */
  function CountdownLabel(deadline: Deadline, today: int): (r: Label)
    ensures r == NotApplicable <==> !HasDeadlineText(deadline)
    ensures r == InvalidDate <==> HasDeadlineText(deadline) && !deadline.Iso?
    ensures deadline.Iso? ==> (r.Overdue? <==> deadline.day < today)
    ensures deadline.Iso? ==> (r == DueToday <==> deadline.day == today)
    ensures deadline.Iso? ==> (r == OneDayLeft <==> deadline.day == today + 1)
    ensures deadline.Iso? ==> (r.DaysLeft? <==> deadline.day >= today + 2)
    ensures r.Overdue? ==> r.days >= 1 && r.days == today - deadline.day
    ensures r.DaysLeft? ==> r.days >= 2 && r.days == deadline.day - today
  {
    if !HasDeadlineText(deadline) then NotApplicable
    else match deadline
      case Iso(day) =>
        var delta := day - today;
        if delta < 0 then Overdue(-delta)
        else if delta == 0 then DueToday
        else if delta == 1 then OneDayLeft
        else DaysLeft(delta)
      case _ => InvalidDate
  }

  /** The number of days a label says are left (negative when overdue). */
  function DaysRemaining(l: Label): int
    requires !(l.NotApplicable? || l.InvalidDate?)
  {
    match l
    case Overdue(k) => -(k as int)
    case DueToday => 0
    case OneDayLeft => 1
    case DaysLeft(k) => k
  }

  /**
   * The label of a parseable deadline determines the day difference
   * exactly, so that two days with the same label are the same day.
   */
  lemma LabelDeterminesDelta(day: int, today: int, other: int)
    ensures DaysRemaining(CountdownLabel(Iso(day), today)) == day - today
    ensures CountdownLabel(Iso(day), today) == CountdownLabel(Iso(other), today) ==> day == other
  {
  }

  /** One day later every label of a dated deadline counts one day down. */
  lemma NextDayCountsDown(day: int, today: int)
    ensures DaysRemaining(CountdownLabel(Iso(day), today + 1))
         == DaysRemaining(CountdownLabel(Iso(day), today)) - 1
  {
  }
}
