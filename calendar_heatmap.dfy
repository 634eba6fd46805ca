/** The activity calendar (client/src/components/CalendarHeatmap.tsx): the
    daily stats become heat-map values, and each value is bucketed into one
    of five colour classes. */
module CalendarHeatmap {
  import opened Common

  datatype HeatmapData = HeatmapData(date: string, solved: int)
  datatype HeatValue = HeatValue(date: string, count: int)

  /** The `values` mapping: one heat value per entry, its count taken from
      `solved`. */
  function Values(data: seq<HeatmapData>): (vs: seq<HeatValue>)
    ensures |vs| == |data|
    ensures forall i :: 0 <= i < |data| ==> vs[i] == HeatValue(data[i].date, data[i].solved)
  {
    if data == [] then []
    else [HeatValue(data[0].date, data[0].solved)] + Values(data[1..])
  }

  const Empty := "color-empty"

  /** The class of a non-empty cell at intensity `level` (1 to 4). */
  function GithubClass(level: int): string
    requires 1 <= level <= 4
  {
    "color-github-" + [('0' as int + level) as char]
  }

  /** `classForValue`: no value or a zero count is empty; otherwise four
      or more, three and two get their own classes and every other count
      (one or a negative count) the lightest. */
  function ClassForValue(value: Option<HeatValue>): (r: string)
    ensures r == Empty <==> value.None? || value.value.count == 0
  {
    if value.None? || value.value.count == 0 then Empty
    else if value.value.count >= 4 then GithubClass(4)
    else if value.value.count == 3 then GithubClass(3)
    else if value.value.count == 2 then GithubClass(2)
    else GithubClass(1)
  }

  function Min(a: int, b: int): int { if a <= b then a else b }

  /** For a positive count the intensity is the count, capped at four. */
  lemma PositiveCountLevel(v: HeatValue)
    requires v.count >= 1
    ensures ClassForValue(Some(v)) == GithubClass(Min(v.count, 4))
  {
  }

  /** A missing value or a zero count is empty; a negative count falls
      through to the lightest class. */
  lemma NonPositiveCountClass(value: Option<HeatValue>)
    requires value.Some? ==> value.value.count <= 0
    ensures value.None? || value.value.count == 0 ==> ClassForValue(value) == Empty
    ensures value.Some? && value.value.count < 0 ==> ClassForValue(value) == GithubClass(1)
  {
  }

  /** Every value of the calendar, in input order, is coloured by its entry's
      solved count. */
  lemma {:induction false} CellClassesFollowSolved(data: seq<HeatmapData>, i: int)
    requires 0 <= i < |data|
    requires data[i].solved >= 1
    ensures ClassForValue(Some(Values(data)[i])) == GithubClass(Min(data[i].solved, 4))
  {
    PositiveCountLevel(Values(data)[i]);
  }
}
