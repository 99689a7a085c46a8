/**
 * The expiry test as the browser evaluates it. A deadline is a date-only string, which
 * `new Date` reads as midnight UTC, while "today" is built from local date parts and so
 * is local midnight. The two agree on days east of UTC; west of UTC an item is dropped
 * on its own deadline day. `Items.Live` compares calendar days, as intended.
 */
module LocalTime {
  import opened Wrappers
  import opened Items

  const MsPerDay: int := 86_400_000

  /** `new Date(deadline)` in milliseconds since the epoch: midnight UTC of the deadline day. */
  function DeadlineInstant(day: Day): int {
    day * MsPerDay
  }

  /** `new Date(y, m, d)` for local day `today` in a zone `offsetMs` milliseconds east of UTC. */
  function LocalMidnight(today: Day, offsetMs: int): int {
    today * MsPerDay - offsetMs
  }

  /** The sweep's keep test as written: `deadlineDate >= today` on instants. */
  predicate KeptAsWritten(item: Item, today: Day, offsetMs: int)
    ensures item.isPermanent ==> KeptAsWritten(item, today, offsetMs)
    ensures !item.isPermanent ==> (KeptAsWritten(item, today, offsetMs) <==> (DeadlineDay(item) - today) * MsPerDay + offsetMs >= 0)
  {
    item.isPermanent || DeadlineInstant(DeadlineDay(item)) >= LocalMidnight(today, offsetMs)
  }

  /** At UTC and east of it (by less than a day) the written test is the day comparison. */
  lemma AsWrittenAgreesEastOfUtc(item: Item, today: Day, offsetMs: int)
    requires 0 <= offsetMs < MsPerDay
    ensures KeptAsWritten(item, today, offsetMs) <==> Live(item, today)
  {
    var d := DeadlineDay(item);
    if d >= today {
      assert (d - today) * MsPerDay >= 0;
    } else {
      assert (today - d) * MsPerDay >= MsPerDay;
    }
  }

  /** West of UTC (by less than a day) the written test drops an item on its deadline day. */
  lemma AsWrittenDropsDeadlineDayWestOfUtc(item: Item, today: Day, offsetMs: int)
    requires -MsPerDay < offsetMs < 0
    requires !item.isPermanent && DeadlineDay(item) == today
    ensures Live(item, today)
    ensures !KeptAsWritten(item, today, offsetMs)
  {
  }

  /** A concrete case: UTC-5, an item due on day 20000, swept on day 20000. */
  lemma NewYorkDeadlineDay()
    ensures var item := Item(1.0, "x", Some(20000), false);
            Live(item, 20000) && !KeptAsWritten(item, 20000, -5 * 3_600_000)
  {
  }
}
