/**
 * The coverage footer under the schedule table: for every day and each of
 * the three working shifts, how many nurses the last returned schedule puts
 * on that shift, and whether that falls short of the current target.
 */
module Coverage {
  import opened Wrappers
  import Roster
  import opened Shifts

  /** One cell of a returned schedule: a shift code plus its display attributes. */
  datatype Shift = Shift(shiftId: int, caption: string, bgColor: string, textColor: string)

  /** One nurse's row of a returned schedule, one entry per day. */
  datatype Row = Row(nurse: Roster.Nurse, schedule: seq<Shift>)

  /** The last schedule the service returned, or `None` (`null`) when there is none. */
  type Snapshot = Option<seq<Row>>

  /** Every row has an entry at day index `dayIdx`. */
  predicate CoversDay(rows: seq<Row>, dayIdx: int) {
    0 <= dayIdx && forall i :: 0 <= i < |rows| ==> dayIdx < |rows[i].schedule|
  }

  /** Every row has at least `daysCount` entries. */
  predicate CoversDays(rows: seq<Row>, daysCount: nat) {
    forall i :: 0 <= i < |rows| ==> daysCount <= |rows[i].schedule|
  }

  /** The shift codes of all rows at day index `dayIdx`, top to bottom. */
  function Column(rows: seq<Row>, dayIdx: int): (c: seq<int>)
    requires CoversDay(rows, dayIdx)
    ensures |c| == |rows|
    ensures forall i :: 0 <= i < |rows| ==> c[i] == rows[i].schedule[dayIdx].shiftId
  {
    seq(|rows|, i requires 0 <= i < |rows| => rows[i].schedule[dayIdx].shiftId)
  }

  /**
   * `filter(row => row.schedule[dayIdx].shift_id === sid).length`: the
   * number of occurrences of `sid` in the day's column, at most one per row.
   */
  function CountRows(rows: seq<Row>, dayIdx: int, sid: int): (n: nat)
    requires CoversDay(rows, dayIdx)
    ensures n <= |rows|
    ensures n == multiset(Column(rows, dayIdx))[sid]
  {
    if |rows| == 0 then 0
    else
      var rest := CountRows(rows[1..], dayIdx, sid);
      assert Column(rows, dayIdx) == [rows[0].schedule[dayIdx].shiftId] + Column(rows[1..], dayIdx);
      (if rows[0].schedule[dayIdx].shiftId == sid then 1 else 0) + rest
  }

  /**
   * `countShift(dayIdx, sid)`: zero when there is no schedule, otherwise the
   * number of rows on shift `sid` at day index `dayIdx`.
   */
  function CountShift(snapshot: Snapshot, dayIdx: int, sid: int): (n: nat)
    requires snapshot.Some? ==> CoversDay(snapshot.value, dayIdx)
    ensures snapshot.None? ==> n == 0
    ensures snapshot.Some? ==> n <= |snapshot.value|
                               && n == multiset(Column(snapshot.value, dayIdx))[sid]
  {
    match snapshot
    case None => 0
    case Some(rows) => CountRows(rows, dayIdx, sid)
  }

  /** The count reaches the number of rows exactly when every row is on that shift. */
  lemma {:induction false} CountFullIffAllOnShift(rows: seq<Row>, dayIdx: int, sid: int)
    requires CoversDay(rows, dayIdx)
    ensures CountRows(rows, dayIdx, sid) == |rows|
            <==> forall i :: 0 <= i < |rows| ==> rows[i].schedule[dayIdx].shiftId == sid
  {
    if |rows| > 0 {
      CountFullIffAllOnShift(rows[1..], dayIdx, sid);
      assert forall i :: 1 <= i < |rows| ==> rows[i] == rows[1..][i - 1];
    }
  }

  /** The count is zero exactly when no row is on that shift. */
  lemma {:induction false} CountZeroIffNoneOnShift(rows: seq<Row>, dayIdx: int, sid: int)
    requires CoversDay(rows, dayIdx)
    ensures CountRows(rows, dayIdx, sid) == 0
            <==> forall i :: 0 <= i < |rows| ==> rows[i].schedule[dayIdx].shiftId != sid
  {
    if |rows| > 0 {
      CountZeroIffNoneOnShift(rows[1..], dayIdx, sid);
      assert forall i :: 1 <= i < |rows| ==> rows[i] == rows[1..][i - 1];
    }
  }

  /** The footer colours a cell red exactly when its count is below the shift's target. */
  predicate IsDeficit(snapshot: Snapshot, targets: Targets, dayIdx: int, sid: int)
    requires snapshot.Some? ==> CoversDay(snapshot.value, dayIdx)
  {
    CountShift(snapshot, dayIdx, sid) < GetTarget(targets, sid)
  }

  /** One footer cell: the shown count, the target it is judged against, and the red flag. */
  datatype Cell = Cell(count: nat, target: int, deficit: bool)

  /** The count the footer must show for shift `sid` on day index `dayIdx`. */
  function Expected(snapshot: Snapshot, dayIdx: int, sid: int): int
    requires snapshot.Some? ==> CoversDay(snapshot.value, dayIdx)
  {
    if snapshot.None? then 0 else multiset(Column(snapshot.value, dayIdx))[sid]
  }

  /** One footer line: the cells of shift `sid` for day indices 0 .. daysCount-1. */
  method FooterLine(snapshot: Snapshot, targets: Targets, daysCount: nat, sid: int) returns (line: seq<Cell>)
    requires snapshot.Some? ==> CoversDays(snapshot.value, daysCount)
    ensures |line| == daysCount
    ensures forall i :: 0 <= i < daysCount ==>
              && line[i].count == Expected(snapshot, i, sid)
              && line[i].target == GetTarget(targets, sid)
              && (line[i].deficit <==> line[i].count < line[i].target)
  {
    line := [];
    var i := 0;
    while i < daysCount
      invariant 0 <= i <= daysCount
      invariant |line| == i
      invariant forall j :: 0 <= j < i ==>
                  && line[j].count == Expected(snapshot, j, sid)
                  && line[j].target == GetTarget(targets, sid)
                  && (line[j].deficit <==> line[j].count < line[j].target)
    {
      var count := CountShift(snapshot, i, sid);
      var target := GetTarget(targets, sid);
      line := line + [Cell(count, target, count < target)];
      i := i + 1;
    }
  }

  /**
   * The whole footer: one line per working shift (codes 1, 2, 3 in that
   * order), each with one cell per day, judged against the targets current
   * at evaluation time.
   */
  method Footer(snapshot: Snapshot, targets: Targets, daysCount: nat) returns (lines: seq<seq<Cell>>)
    requires snapshot.Some? ==> CoversDays(snapshot.value, daysCount)
    ensures |lines| == 3
    ensures forall s :: 0 <= s < 3 ==> |lines[s]| == daysCount
    ensures forall s, i :: 0 <= s < 3 && 0 <= i < daysCount ==>
              && lines[s][i].count == Expected(snapshot, i, s + 1)
              && lines[s][i].target == TargetOf(targets, [Morning, Afternoon, Night][s])
              && (lines[s][i].deficit <==> lines[s][i].count < lines[s][i].target)
  {
    var morning := FooterLine(snapshot, targets, daysCount, 1);
    var afternoon := FooterLine(snapshot, targets, daysCount, 2);
    var night := FooterLine(snapshot, targets, daysCount, 3);
    lines := [morning, afternoon, night];
  }

  /** Unfolds the count of the five-row snapshot one row at a time. */
  lemma CountFromEnd(rows: seq<Row>, dayIdx: int, sid: int)
    requires |rows| == 5 && CoversDay(rows, dayIdx)
    ensures CountRows(rows, dayIdx, sid)
            == (if rows[0].schedule[dayIdx].shiftId == sid then 1 else 0)
             + (if rows[1].schedule[dayIdx].shiftId == sid then 1 else 0)
             + (if rows[2].schedule[dayIdx].shiftId == sid then 1 else 0)
             + (if rows[3].schedule[dayIdx].shiftId == sid then 1 else 0)
             + (if rows[4].schedule[dayIdx].shiftId == sid then 1 else 0)
  {
    var r1, r2, r3, r4 := rows[1..], rows[2..], rows[3..], rows[4..];
    assert r1[1..] == r2 && r2[1..] == r3 && r3[1..] == r4 && r4[1..] == [];
    assert CountRows(r4, dayIdx, sid) == (if rows[4].schedule[dayIdx].shiftId == sid then 1 else 0);
    assert CountRows(r3, dayIdx, sid) == (if rows[3].schedule[dayIdx].shiftId == sid then 1 else 0) + CountRows(r4, dayIdx, sid);
    assert CountRows(r2, dayIdx, sid) == (if rows[2].schedule[dayIdx].shiftId == sid then 1 else 0) + CountRows(r3, dayIdx, sid);
    assert CountRows(r1, dayIdx, sid) == (if rows[1].schedule[dayIdx].shiftId == sid then 1 else 0) + CountRows(r2, dayIdx, sid);
  }

  /** Five nurses: four on the morning shift on both days, one off on day 0 and on the morning shift on day 1. */
  function TwoDaySnapshot(): seq<Row> {
    var p := Shift(1, "P", "", "");
    var l := Shift(0, "L", "", "");
    var n := Roster.Nurse(1, "N", Roster.RegularRole);
    [Row(n, [p, p]), Row(n, [p, p]), Row(n, [p, p]), Row(n, [p, p]), Row(n, [l, p])]
  }

  /** With a morning target of 5, the four morning nurses of day 0 are a deficit. */
  lemma TwoDayDeficitOnDayZero()
    ensures CoversDays(TwoDaySnapshot(), 2)
    ensures CountShift(Some(TwoDaySnapshot()), 0, 1) == 4
    ensures IsDeficit(Some(TwoDaySnapshot()), Targets(5, 0, 0), 0, 1)
  {
    CountFromEnd(TwoDaySnapshot(), 0, 1);
  }

  /** With a morning target of 5, the five morning nurses of day 1 are not a deficit. */
  lemma TwoDayNoDeficitOnDayOne()
    ensures CountShift(Some(TwoDaySnapshot()), 1, 1) == 5
    ensures !IsDeficit(Some(TwoDaySnapshot()), Targets(5, 0, 0), 1, 1)
  {
    CountFromEnd(TwoDaySnapshot(), 1, 1);
  }

  /**
   * One nurse on the morning shift of a one-day month against a morning
   * target of 1: the morning count is 1 and the cell is not a deficit.
   */
  lemma OneNurseOneDay()
    ensures CountShift(Some([Row(Roster.Nurse(1, "A", Roster.RegularRole), [Shift(1, "P", "", "")])]), 0, 1) == 1
    ensures !IsDeficit(Some([Row(Roster.Nurse(1, "A", Roster.RegularRole), [Shift(1, "P", "", "")])]), Targets(1, 0, 0), 0, 1)
  {
    var rows := [Row(Roster.Nurse(1, "A", Roster.RegularRole), [Shift(1, "P", "", "")])];
    assert Column(rows, 0) == [1];
  }
}
