/**
 * Shift codes exchanged with the scheduling service and the three
 * per-shift coverage targets the supervisor edits.
 */
module Shifts {
  import opened Wrappers

  /** The duty a nurse has on one day. */
  datatype ShiftKind = OffDuty | Morning | Afternoon | Night | Leave {

    /** Only the three working shifts have a coverage target. */
    predicate Tracked() {
      Morning? || Afternoon? || Night?
    }
  }

  /** The wire code of each kind: 0 off-duty, 1 morning, 2 afternoon, 3 night, 4 leave. */
  function Code(k: ShiftKind): (c: int)
    ensures 0 <= c <= 4
  {
    match k
    case OffDuty => 0
    case Morning => 1
    case Afternoon => 2
    case Night => 3
    case Leave => 4
  }

  /** Decodes a wire code; codes outside 0..4 name no kind. */
  function KindOf(code: int): (k: Option<ShiftKind>)
    ensures k.Some? <==> 0 <= code <= 4
    ensures k.Some? ==> Code(k.value) == code
  {
    if code == 0 then Some(OffDuty)
    else if code == 1 then Some(Morning)
    else if code == 2 then Some(Afternoon)
    else if code == 3 then Some(Night)
    else if code == 4 then Some(Leave)
    else None
  }

  /** Encoding then decoding returns the kind: the two tables agree. */
  lemma KindOfCode(k: ShiftKind)
    ensures KindOf(Code(k)) == Some(k)
  {
  }

  /** Minimum head-count wanted on each working shift of every day. */
  datatype Targets = Targets(morning: int, afternoon: int, night: int)

  /** The target of a tracked kind, by kind rather than by code. */
  function TargetOf(t: Targets, k: ShiftKind): int
    requires k.Tracked()
  {
    match k
    case Morning => t.morning
    case Afternoon => t.afternoon
    case Night => t.night
  }

  /**
   * The footer's `getTarget`: code 1 selects the morning target, code 2
   * the afternoon target and every other code the night target.
   */
  function GetTarget(t: Targets, sid: int): (r: int)
    ensures r == t.morning || r == t.afternoon || r == t.night
  {
    if sid == 1 then t.morning else if sid == 2 then t.afternoon else t.night
  }

  /**
   * For the codes the footer actually asks about (1, 2, 3), `GetTarget`
   * returns the target of the decoded kind; for any other code it falls
   * through to the night target.
   */
  lemma GetTargetMatchesKind(t: Targets, sid: int)
    ensures 1 <= sid <= 3 ==> KindOf(sid).Some? && KindOf(sid).value.Tracked()
                              && GetTarget(t, sid) == TargetOf(t, KindOf(sid).value)
    ensures !(1 <= sid <= 3) ==> GetTarget(t, sid) == t.night
  {
  }
}
