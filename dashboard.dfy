/** The two figures the dashboard derives from the synced handles
    (client/src/pages/Dashboard.tsx, inside `fetchStats`): the total number
    of solved problems and the current daily streak. Days are whole numbers
    (the day before `d` is `d - 1`) and "today" is a parameter. */
module Dashboard {
  import opened Common

  datatype DailyStat = DailyStat(date: int, solved: int)

  datatype LeetCodeCounts = LeetCodeCounts(easy: Option<int>, medium: Option<int>, hard: Option<int>)

  datatype CfProblem = CfProblem(contestId: int, index: string)
  datatype Submission = Submission(verdict: string, problem: Option<CfProblem>)

  // ---------------------------------------------------------------------
  // Current streak

  /** The first entry whose date is `d`, as `find` returns it. */
  function FindByDate(stats: seq<DailyStat>, d: int): (r: Option<DailyStat>)
    ensures r.Some? ==> r.value in stats && r.value.date == d
    ensures r.None? <==> forall i :: 0 <= i < |stats| ==> stats[i].date != d
  {
    if stats == [] then None
    else if stats[0].date == d then Some(stats[0])
    else FindByDate(stats[1..], d)
  }

  /** The entry found is the first one with the date: every entry before it
      has another date. */
  lemma {:induction false} FindByDateIsFirst(stats: seq<DailyStat>, d: int)
    requires FindByDate(stats, d).Some?
    ensures exists i :: 0 <= i < |stats| && stats[i] == FindByDate(stats, d).value &&
                        forall j :: 0 <= j < i ==> stats[j].date != d
  {
    if stats[0].date == d {
      assert stats[0] == FindByDate(stats, d).value;
    } else {
      var rest := stats[1..];
      FindByDateIsFirst(rest, d);
      var i :| 0 <= i < |rest| && rest[i] == FindByDate(rest, d).value &&
               forall j :: 0 <= j < i ==> rest[j].date != d;
      assert stats[i + 1] == rest[i];
      forall j | 0 <= j < i + 1 ensures stats[j].date != d {
        if j > 0 { assert stats[j] == rest[j - 1]; }
      }
    }
  }

  /** Day `d` counts for the streak: its first entry solved something. */
  predicate Active(stats: seq<DailyStat>, d: int)
  {
    FindByDate(stats, d).Some? && FindByDate(stats, d).value.solved > 0
  }

  /** Only the first entry for a day is consulted: entries appended after
      it, whatever their date and count, change nothing about that day. */
  lemma {:induction false} FirstEntryDecides(stats: seq<DailyStat>, more: seq<DailyStat>, d: int)
    requires FindByDate(stats, d).Some?
    ensures FindByDate(stats + more, d) == FindByDate(stats, d)
    ensures Active(stats + more, d) == Active(stats, d)
  {
    if stats[0].date != d {
      assert (stats + more)[1..] == stats[1..] + more;
      FirstEntryDecides(stats[1..], more, d);
    }
  }

  /** The dates on which some entry solved something. */
  ghost function ActiveDates(stats: seq<DailyStat>): (r: set<int>)
    ensures |r| <= |stats|
    ensures forall d :: Active(stats, d) ==> d in r
  {
    if stats == [] then {}
    else
      var rest := ActiveDates(stats[1..]);
      var r := (if stats[0].solved > 0 then {stats[0].date} else {}) + rest;
      assert |r| <= |rest| + 1;
      assert forall d :: Active(stats, d) && d != stats[0].date ==> Active(stats[1..], d);
      r
  }

  /** The `k` days ending with `top`. */
  ghost function DaysBack(top: int, k: nat): (r: set<int>)
    ensures |r| == k
    ensures forall d :: d in r <==> top - k < d <= top
  {
    if k == 0 then {} else DaysBack(top, k - 1) + {top - (k - 1)}
  }

  /** The `streak` days ending with `today` are all active, and all of them
      are among the active dates. */
  ghost predicate ActiveRun(stats: seq<DailyStat>, today: int, streak: nat)
  {
    && (forall d :: today - streak < d <= today ==> Active(stats, d))
    && DaysBack(today, streak) <= ActiveDates(stats)
    && streak <= |ActiveDates(stats)|
  }

  /** One more active day before the run extends it, still within the
      active dates, so the run can never outgrow them. */
  lemma StreakStep(stats: seq<DailyStat>, today: int, streak: nat)
    requires ActiveRun(stats, today, streak)
    requires Active(stats, today - streak)
    ensures ActiveRun(stats, today, streak + 1)
  {
    assert DaysBack(today, streak + 1) == DaysBack(today, streak) + {today - streak};
    SubsetCard(DaysBack(today, streak + 1), ActiveDates(stats));
  }

  /** The streak ending today: today and each day before it is active, up to
      the first day that is not (a missing day or one whose first entry
      solved nothing). Absent or empty stats leave the streak at 0. The walk
      never counts more days than there are active dates, so never more than
      there are entries. */
  method CurrentStreak(dailyStats: Option<seq<DailyStat>>, today: int) returns (streak: nat)
    ensures var stats := if dailyStats.Some? then dailyStats.value else [];
      && (forall d :: today - streak < d <= today ==> Active(stats, d))
      && !Active(stats, today - streak)
      && streak <= |ActiveDates(stats)| <= |stats|
  {
    streak := 0;
    if dailyStats.Some? && |dailyStats.value| > 0 {
      var stats := dailyStats.value;
      var todayEntry := FindByDate(stats, today);
      if todayEntry.Some? && todayEntry.value.solved > 0 {
        streak := CountBack(stats, today);
      }
    }
  }

  /** The walk back from an active `today`: one day at a time while the day
      before is active. */
  method CountBack(stats: seq<DailyStat>, today: int) returns (streak: nat)
    requires Active(stats, today)
    ensures forall d :: today - streak < d <= today ==> Active(stats, d)
    ensures !Active(stats, today - streak)
    ensures 1 <= streak <= |ActiveDates(stats)|
  {
    StreakStep(stats, today, 0);
    streak := 1;
    var prevDate := today;
    while true
      invariant 1 <= streak && prevDate == today - streak + 1
      invariant ActiveRun(stats, today, streak)
      decreases |ActiveDates(stats)| - streak
    {
      prevDate := prevDate - 1;
      var prevEntry := FindByDate(stats, prevDate);
      if prevEntry.Some? && prevEntry.value.solved > 0 {
        StreakStep(stats, today, streak);
        streak := streak + 1;
      } else {
        return;
      }
    }
  }

  // ---------------------------------------------------------------------
  // Total solved

  /** `x || 0` on an optional count: a missing value (or 0) reads as 0. */
  function OrZero(x: Option<int>): int
  {
    if x.Some? then x.value else 0
  }

  /** An accepted submission that names its problem. */
  predicate Accepted(s: Submission)
  {
    s.verdict == "OK" && s.problem.Some?
  }

  /** The distinct (contest, problem index) pairs with an accepted
      submission. The source keys them by the string `contestId-index`,
      which tells pairs apart for the numeric contest ids Codeforces uses. */
  ghost function SolvedKeys(subs: seq<Submission>): set<CfProblem>
  {
    set s | s in subs && Accepted(s) :: s.problem.value
  }

  /** The number of accepted submissions. */
  function AcceptedCount(subs: seq<Submission>): (n: nat)
    ensures n <= |subs|
  {
    if subs == [] then 0
    else AcceptedCount(subs[..|subs| - 1]) + (if Accepted(subs[|subs| - 1]) then 1 else 0)
  }

  /** Solving a problem again does not count again: there are never more
      distinct solved problems than accepted submissions. */
  lemma {:induction false} SolvedKeysBound(subs: seq<Submission>)
    ensures |SolvedKeys(subs)| <= AcceptedCount(subs)
  {
    if subs != [] {
      var init := subs[..|subs| - 1];
      var last := subs[|subs| - 1];
      SolvedKeysBound(init);
      assert subs == init + [last];
      if Accepted(last) {
        assert SolvedKeys(subs) == SolvedKeys(init) + {last.problem.value};
      } else {
        assert SolvedKeys(subs) == SolvedKeys(init);
      }
    }
  }

  /** The `solvedSet` loop: collects the key of every accepted submission. */
  method CodeforcesSolved(submissions: Option<seq<Submission>>) returns (count: nat)
    ensures var subs := if submissions.Some? then submissions.value else [];
      count == |SolvedKeys(subs)| && count <= AcceptedCount(subs)
  {
    var subs := if submissions.Some? then submissions.value else [];
    var solvedSet: set<CfProblem> := {};
    for i := 0 to |subs|
      invariant solvedSet == SolvedKeys(subs[..i])
    {
      var sub := subs[i];
      assert subs[..i + 1] == subs[..i] + [sub];
      if sub.verdict == "OK" && sub.problem.Some? {
        solvedSet := solvedSet + {sub.problem.value};
      }
    }
    assert subs[..|subs|] == subs;
    SolvedKeysBound(subs);
    count := |solvedSet|;
  }

  /** `leetTotal + solvedSet.size`: the LeetCode easy, medium and hard
      counts (each missing one read as 0) plus the distinct Codeforces
      problems solved. */
  method TotalSolved(leetcode: Option<LeetCodeCounts>, submissions: Option<seq<Submission>>)
    returns (total: int)
    ensures var subs := if submissions.Some? then submissions.value else [];
      var lc := if leetcode.Some? then leetcode.value else LeetCodeCounts(None, None, None);
      total == OrZero(lc.easy) + OrZero(lc.medium) + OrZero(lc.hard) + |SolvedKeys(subs)|
  {
    var leetTotal := 0;
    if leetcode.Some? {
      leetTotal := OrZero(leetcode.value.easy) + OrZero(leetcode.value.medium) + OrZero(leetcode.value.hard);
    }
    var cf := CodeforcesSolved(submissions);
    total := leetTotal + cf;
  }
}
