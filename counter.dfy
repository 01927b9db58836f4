/** The daily thread counter: `loadThreadCount`, `saveThreadCount` and the
    thread gate at the top of `run` (index.js). The counter file holds
    `{count, date}`; a file that is missing, unreadable or not valid JSON is
    represented by `None`. */
module Counter {
  import opened Wrappers

  /** At most this many threads are started per calendar day. */
  const MaxThreadsPerDay: int := 2

  /** The persisted record: a thread count and the ISO date (YYYY-MM-DD) it
      belongs to. */
  datatype DailyCounter = DailyCounter(count: int, date: string)

  /** `loadThreadCount`: the stored record when it belongs to `today`,
      otherwise a fresh record for `today` with count 0. */
  function LoadThreadCount(stored: Option<DailyCounter>, today: string): (r: DailyCounter)
    ensures r.date == today
    ensures stored.Some? && stored.value.date == today ==> r == stored.value
    ensures stored.None? || stored.value.date != today ==> r.count == 0
  {
    match stored
    case None => DailyCounter(0, today)
    case Some(c) => if c.date != today then DailyCounter(0, today) else c
  }

  /** The gate `dailyThreadCount < 2 && Math.random() < 0.3333`, with the
      random comparison given as `draw`: a thread needs a count below the
      daily cap, and a count at the cap never gives one. */
  predicate IsThread(dailyThreadCount: int, draw: bool)
    ensures IsThread(dailyThreadCount, draw) ==> dailyThreadCount < MaxThreadsPerDay && draw
    ensures dailyThreadCount >= MaxThreadsPerDay ==> !IsThread(dailyThreadCount, draw)
  {
    dailyThreadCount < MaxThreadsPerDay && draw
  }

  /** The counter part of one run: load, decide, and save the incremented
      count only on a thread run. Returns the decision and what the counter
      file holds afterwards. */
  function GateStep(stored: Option<DailyCounter>, today: string, draw: bool): (r: (bool, Option<DailyCounter>))
    ensures r.0 <==> LoadThreadCount(stored, today).count < MaxThreadsPerDay && draw
    ensures r.0 ==> r.1 == Some(DailyCounter(LoadThreadCount(stored, today).count + 1, today))
    ensures !r.0 ==> r.1 == stored
  {
    var c := LoadThreadCount(stored, today);
    var isThread := IsThread(c.count, draw);
    (isThread, if isThread then Some(DailyCounter(c.count + 1, c.date)) else stored)
  }

  /** Number of thread runs among consecutive runs on the same day `today`,
      one per random draw in `draws`, starting from the file contents `stored`. */
  function ThreadsOnDay(stored: Option<DailyCounter>, today: string, draws: seq<bool>): nat
    decreases |draws|
  {
    if draws == [] then 0
    else
      var step := GateStep(stored, today, draws[0]);
      (if step.0 then 1 else 0) + ThreadsOnDay(step.1, today, draws[1..])
  }

  /** The daily cap: whatever the draws, runs on one day start at most
      `2 - count` threads, where `count` is the non-negative number already
      recorded for that day (0 when the file is missing or from another day). */
  lemma {:induction false} ThreadsOnDayBounded(stored: Option<DailyCounter>, today: string, draws: seq<bool>)
    requires stored.Some? && stored.value.date == today ==> stored.value.count >= 0
    ensures var c := LoadThreadCount(stored, today);
            ThreadsOnDay(stored, today, draws) <= if c.count < MaxThreadsPerDay then MaxThreadsPerDay - c.count else 0
    decreases |draws|
  {
    if draws != [] {
      var step := GateStep(stored, today, draws[0]);
      ThreadsOnDayBounded(step.1, today, draws[1..]);
    }
  }

  /** Corollary: a day that starts with no valid record for it sees at most two threads. */
  lemma AtMostTwoThreadsPerDay(stored: Option<DailyCounter>, today: string, draws: seq<bool>)
    requires stored.None? || stored.value.date != today
    ensures ThreadsOnDay(stored, today, draws) <= MaxThreadsPerDay
  {
    ThreadsOnDayBounded(stored, today, draws);
  }

  /** The counter file `thread-count.json`, overwritten in place by
      `saveThreadCount`. */
  class CounterFile {
    var stored: Option<DailyCounter>

    constructor (initial: Option<DailyCounter>)
      ensures stored == initial
    {
      stored := initial;
    }

    /** `loadThreadCount` on the current file contents: always dated today,
        and the stored record itself when it is dated today. */
    function Load(today: string): (r: DailyCounter)
      reads this
      ensures r.date == today
      ensures stored.Some? && stored.value.date == today ==> r == stored.value
      ensures stored.None? || stored.value.date != today ==> r.count == 0
    {
      LoadThreadCount(stored, today)
    }

    /** The start of `run`: load the counter, apply the gate, and on a thread
        run save the incremented count for the loaded date. */
    method StartRun(today: string, draw: bool) returns (isThread: bool, counter: DailyCounter)
      modifies this
      ensures counter == LoadThreadCount(old(stored), today)
      ensures (isThread, stored) == GateStep(old(stored), today, draw)
    {
      counter := Load(today);
      isThread := IsThread(counter.count, draw);
      if isThread {
        Save(counter.count + 1, counter.date);
      }
    }

    /** `saveThreadCount`: replaces the whole record, with no merge. */
    method Save(count: int, date: string)
      modifies this
      ensures stored == Some(DailyCounter(count, date))
    {
      stored := Some(DailyCounter(count, date));
    }
  }
}
