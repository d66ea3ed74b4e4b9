/**
 * The streak rule applied when a goal is completed: given the stored streak
 * and the last active calendar date, compute the new streak and today's date.
 *
 * The clock is not read here. "Today" and "yesterday" as calendar-date strings
 * in the user's zone are supplied by a `Clock`, so the rule is a pure function.
 */
module Streak {
  import opened Wrappers

  /** What `computeStreak` returns. */
  datatype StreakUpdate = StreakUpdate(newStreak: int, todayStr: string)

  /** A reading of the clock: the calendar date today and yesterday, per IANA zone. */
  datatype Clock = Clock(todayIn: string -> string, yesterdayIn: string -> string)

  /** `!lastActiveDate`: true for a missing date and for the empty string alike. */
  predicate NeverActive(lastActiveDate: Option<string>) {
    lastActiveDate == None || lastActiveDate == Some("")
  }

  /** The four-way case split of the streak rule, with today and yesterday given. */
  function ComputeStreakOn(currentStreak: int, lastActiveDate: Option<string>, today: string, yesterday: string): (r: StreakUpdate)
    ensures r.todayStr == today
    ensures r.newStreak == 1 || r.newStreak == currentStreak || r.newStreak == currentStreak + 1
  {
    if NeverActive(lastActiveDate) then StreakUpdate(1, today)
    else if lastActiveDate.value == today then StreakUpdate(currentStreak, today)
    else if lastActiveDate.value == yesterday then StreakUpdate(currentStreak + 1, today)
    else StreakUpdate(1, today)
  }

  /** `getToday(timezone)`. */
  function GetToday(timezone: string, clock: Clock): string {
    clock.todayIn(timezone)
  }

  /** `computeStreak(currentStreak, lastActiveDate, timezone)` at the instant `clock` was read. */
  function ComputeStreak(currentStreak: int, lastActiveDate: Option<string>, timezone: string, clock: Clock): (r: StreakUpdate)
    ensures r.todayStr == GetToday(timezone, clock)
  {
    ComputeStreakOn(currentStreak, lastActiveDate, clock.todayIn(timezone), clock.yesterdayIn(timezone))
  }

  // The four branches, one lemma each.

  lemma FirstActivityStartsAtOne(currentStreak: int, lastActiveDate: Option<string>, today: string, yesterday: string)
    requires NeverActive(lastActiveDate)
    ensures ComputeStreakOn(currentStreak, lastActiveDate, today, yesterday) == StreakUpdate(1, today)
  {}

  lemma SameDayKeepsStreak(currentStreak: int, today: string, yesterday: string)
    requires today != ""
    ensures ComputeStreakOn(currentStreak, Some(today), today, yesterday) == StreakUpdate(currentStreak, today)
  {}

  lemma ConsecutiveDayIncrements(currentStreak: int, today: string, yesterday: string)
    requires yesterday != "" && yesterday != today
    ensures ComputeStreakOn(currentStreak, Some(yesterday), today, yesterday) == StreakUpdate(currentStreak + 1, today)
  {}

  lemma GapResetsToOne(currentStreak: int, last: string, today: string, yesterday: string)
    requires last != "" && last != today && last != yesterday
    ensures ComputeStreakOn(currentStreak, Some(last), today, yesterday) == StreakUpdate(1, today)
  {}

  /** Feeding the result back on the same day changes nothing: the rule is idempotent per day. */
  lemma SameDayIdempotent(currentStreak: int, lastActiveDate: Option<string>, today: string, yesterday: string)
    requires today != ""
    ensures var r := ComputeStreakOn(currentStreak, lastActiveDate, today, yesterday);
      ComputeStreakOn(r.newStreak, Some(r.todayStr), today, yesterday) == r
  {}

  /** For a non-negative streak the new value grows by at most one, and is positive unless already counted today. */
  lemma StreakBounds(currentStreak: int, lastActiveDate: Option<string>, today: string, yesterday: string)
    requires currentStreak >= 0
    ensures var r := ComputeStreakOn(currentStreak, lastActiveDate, today, yesterday);
      && r.newStreak <= currentStreak + 1
      && r.newStreak >= 0
      && (lastActiveDate != Some(today) ==> r.newStreak >= 1)
  {}

  // Streaks over a calendar of day numbers.

  /** A date format for day numbers: every day gets a non-empty string, distinct days distinct strings. */
  ghost predicate IsCalendar(fmt: int -> string) {
    && (forall d :: fmt(d) != "")
    && (forall d, e :: d != e ==> fmt(d) != fmt(e))
  }

  /** Registers activity on each of `days` in turn, storing the result back as the next call's input. */
  function Replay(streak: int, lastActiveDate: Option<string>, days: seq<int>, fmt: int -> string): (int, Option<string>)
    decreases |days|
  {
    if days == [] then (streak, lastActiveDate)
    else
      var r := ComputeStreakOn(streak, lastActiveDate, fmt(days[0]), fmt(days[0] - 1));
      Replay(r.newStreak, Some(r.todayStr), days[1..], fmt)
  }

  /** The days `from`, `from + 1`, ..., `from + n - 1`. */
  function Days(from: int, n: nat): (ds: seq<int>)
    ensures |ds| == n && forall i :: 0 <= i < n ==> ds[i] == from + i
  {
    seq(n, i => from + i)
  }

  /** Activity on `n` consecutive days, starting the day after the last active day, adds `n` to the streak. */
  lemma {:induction false} ConsecutiveRunAdds(streak: int, from: int, n: nat, fmt: int -> string)
    requires IsCalendar(fmt)
    ensures Replay(streak, Some(fmt(from - 1)), Days(from, n), fmt) == (streak + n, Some(fmt(from + n - 1)))
    decreases n
  {
    if n > 0 {
      var ds := Days(from, n);
      assert fmt(from - 1) != fmt(from);
      assert ds[1..] == Days(from + 1, n - 1);
      ConsecutiveRunAdds(streak + 1, from + 1, n - 1, fmt);
    }
  }

  /** A first-ever activity followed by `n - 1` consecutive days gives a streak of exactly `n`. */
  lemma FreshRunCounts(from: int, n: nat, streak: int, fmt: int -> string)
    requires IsCalendar(fmt) && n >= 1
    ensures Replay(streak, None, Days(from, n), fmt) == (n, Some(fmt(from + n - 1)))
  {
    var ds := Days(from, n);
    assert ds[1..] == Days(from + 1, n - 1);
    ConsecutiveRunAdds(1, from + 1, n - 1, fmt);
  }

  /** Skipping at least one day resets the streak to 1, whatever it was. */
  lemma SkippedDayResets(streak: int, last: int, today: int, fmt: int -> string)
    requires IsCalendar(fmt) && last < today - 1
    ensures Replay(streak, Some(fmt(last)), [today], fmt) == (1, Some(fmt(today)))
  {
    assert fmt(last) != fmt(today) && fmt(last) != fmt(today - 1);
  }

  /** Registering the same day again, any number of times, keeps the streak. */
  lemma {:induction false} RepeatedDayKeeps(streak: int, day: int, k: nat, fmt: int -> string)
    requires IsCalendar(fmt)
    ensures Replay(streak, Some(fmt(day)), seq(k, _ => day), fmt) == (streak, Some(fmt(day)))
  {
    if k > 0 {
      assert seq(k, _ => day)[1..] == seq(k - 1, _ => day);
      RepeatedDayKeeps(streak, day, k - 1, fmt);
    }
  }
}
