/** The three counters of the dashboard's problem summary
    (client/src/components/dashboard/ProblemStats.tsx). */
module ProblemStats {
  import opened Common

  /** The component only reads a problem's status. */
  datatype ProblemRow = ProblemRow(status: string)

  datatype Counts = Counts(total: nat, solved: nat, bookmarked: nat)

  /** The length of the filter keeping the problems with exactly this status. */
  function CountStatus(ps: seq<ProblemRow>, status: string): (n: nat)
    ensures n <= |ps|
  {
    if ps == [] then 0
    else CountStatus(ps[..|ps| - 1], status) + (if ps[|ps| - 1].status == status then 1 else 0)
  }

  /** The positions of `ps` holding `status`: an independent description of
      what the filter keeps. */
  ghost function PositionsWith(ps: seq<ProblemRow>, status: string): set<int>
  {
    set i | 0 <= i < |ps| && ps[i].status == status
  }

  /** The counter is the number of positions whose status is exactly `status`. */
  lemma {:induction false} CountStatusIsPositions(ps: seq<ProblemRow>, status: string)
    ensures CountStatus(ps, status) == |PositionsWith(ps, status)|
  {
    if ps != [] {
      var init := ps[..|ps| - 1];
      CountStatusIsPositions(init, status);
      var last := |ps| - 1;
      assert forall i :: 0 <= i < |init| ==> init[i] == ps[i];
      if ps[last].status == status {
        assert PositionsWith(ps, status) == PositionsWith(init, status) + {last};
      } else {
        assert PositionsWith(ps, status) == PositionsWith(init, status);
      }
    }
  }

  /** Rows counted under two different statuses are different rows, so the
      two counters together never exceed the number of rows. */
  lemma {:induction false} DisjointStatusCounts(ps: seq<ProblemRow>, a: string, b: string)
    requires a != b
    ensures CountStatus(ps, a) + CountStatus(ps, b) <= |ps|
  {
    if ps != [] {
      DisjointStatusCounts(ps[..|ps| - 1], a, b);
    }
  }

  /** The summary shown for `problems`; input that is not an array (here:
      absent) is read as the empty list. */
  function Summarize(problems: Option<seq<ProblemRow>>): (c: Counts)
    ensures problems.None? ==> c == Counts(0, 0, 0)
    ensures problems.Some? ==> c.total == |problems.value|
    ensures problems.Some? ==> c.solved == |PositionsWith(problems.value, "solved")|
    ensures problems.Some? ==> c.bookmarked == |PositionsWith(problems.value, "bookmark")|
    ensures c.solved + c.bookmarked <= c.total
  {
    var safe := if problems.Some? then problems.value else [];
    CountStatusIsPositions(safe, "solved");
    CountStatusIsPositions(safe, "bookmark");
    DisjointStatusCounts(safe, "solved", "bookmark");
    Counts(|safe|, CountStatus(safe, "solved"), CountStatus(safe, "bookmark"))
  }
}
