/**
 * The editor's state as one value and each event handler as a pure step
 * from state to state: adding a nurse, upserting and removing requests,
 * editing the form fields, and one round of schedule generation whose
 * network reply is a parameter.
 */
module App {
  import opened Wrappers
  import Text
  import Roster
  import Ledger
  import opened Shifts
  import Coverage

  /** The body posted to the scheduling service. */
  datatype Payload = Payload(
    month: int,
    year: int,
    nurses: seq<Roster.Nurse>,
    requests: seq<Ledger.Request>,
    targets: Targets)

  /** Everything the editor keeps between events. */
  datatype State = State(
    month: int,
    year: int,
    targets: Targets,
    nurses: seq<Roster.Nurse>,
    newNurseName: string,
    requests: seq<Ledger.Request>,
    reqNurseId: int,
    reqDate: int,
    reqShift: int,
    snapshot: Coverage.Snapshot,
    daysCount: int,
    loading: bool)

  /** What the scheduling service's exchange produced. */
  datatype Reply =
    | Accepted(data: seq<Coverage.Row>, daysCount: int)  // status "SUCCESS"
    | Rejected(message: string)                         // any other status
    | TransportFailure                                  // fetch or JSON decoding threw

  /** A handler's outcome: the next state and the alert it raised, if any. */
  datatype Step = Step(state: State, alert: Option<string>)

  const BlankNameAlert: string := "Nama tidak boleh kosong!"
  const BackendAlert: string := "Backend error (Pastikan uvicorn jalan)"

  /** The fourteen-nurse roster the editor starts with. */
  function InitialNurses(): seq<Roster.Nurse> {
    [ Roster.Nurse(1, "Wiwiek W.", "karu"),
      Roster.Nurse(2, "Siti Indah", "wakaru"),
      Roster.Nurse(3, "Grenada", "regular"),
      Roster.Nurse(4, "Yunita", "regular"),
      Roster.Nurse(5, "Siti Rahayu", "regular"),
      Roster.Nurse(6, "Dian Ekawati", "regular"),
      Roster.Nurse(7, "Lulu Nur", "regular"),
      Roster.Nurse(8, "Rizka Maulia", "regular"),
      Roster.Nurse(9, "Gayo Herlambang", "regular"),
      Roster.Nurse(10, "Dimas Agil", "regular"),
      Roster.Nurse(11, "A'an Tri", "regular"),
      Roster.Nurse(12, "Ima Putri", "regular"),
      Roster.Nurse(13, "Auliya M", "regular"),
      Roster.Nurse(14, "Ubaid Hanif", "regular") ]
  }

  /** October 2024, targets 5-3-3, the initial roster, no requests and no schedule. */
  function Initial(): State {
    State(10, 2024, Targets(5, 3, 3), InitialNurses(), "", [], 3, 1, 4, None, 30, false)
  }

  /** The invariant every handler keeps: nurse ids and request keys are unique. */
  predicate Consistent(s: State) {
    Roster.UniqueIds(s.nurses) && Ledger.UniqueKeys(s.requests)
  }

  lemma InitialConsistent()
    ensures Consistent(Initial())
    ensures |Initial().nurses| == 14 && Roster.NextId(Initial().nurses) == 15
  {
    var ns := InitialNurses();
    assert forall i :: 0 <= i < |ns| ==> ns[i].id == i + 1;
    NumberedFromOne(ns);
  }

  /** A roster numbered 1, 2, 3, ... in order has unique ids, and the next id is one past its length. */
  lemma NumberedFromOne(ns: seq<Roster.Nurse>)
    requires forall i :: 0 <= i < |ns| ==> ns[i].id == i + 1
    ensures Roster.UniqueIds(ns)
    ensures Roster.NextId(ns) == |ns| + 1
  {
    if |ns| > 0 {
      var m := Roster.MaxId(ns);
      assert ns[|ns| - 1].id == |ns|;
      var i :| 0 <= i < |ns| && ns[i].id == m;
    }
  }

  /**
   * "Simpan": a blank draft name leaves the state exactly as it was and
   * raises the blank-name alert; any other name appends a regular nurse with
   * a fresh id and clears the draft, touching nothing else.
   */
  function AddNurse(s: State): (r: Step)
    ensures Text.AllWhiteSpace(s.newNurseName) ==> r == Step(s, Some(BlankNameAlert))
    ensures !Text.AllWhiteSpace(s.newNurseName) ==>
              && r.alert.None?
              && |r.state.nurses| == |s.nurses| + 1
              && r.state.nurses[..|s.nurses|] == s.nurses
              && r.state.nurses[|s.nurses|] == Roster.Nurse(Roster.NextId(s.nurses), s.newNurseName, Roster.RegularRole)
              && r.state == s.(nurses := r.state.nurses, newNurseName := "")
  {
    match Roster.Add(s.nurses, s.newNurseName)
    case Failure(_) => Step(s, Some(BlankNameAlert))
    case Success(nurses) => Step(s.(nurses := nurses, newNurseName := ""), None)
  }

  /** The request the form currently describes. */
  function FormRequest(s: State): Ledger.Request {
    Ledger.Request(s.reqNurseId, s.reqDate, s.reqShift)
  }

  /**
   * "+": records the form's request, overriding any earlier request for the
   * same nurse and day; only the ledger changes.
   */
  function AddRequest(s: State): (r: State)
    ensures Ledger.ToMap(r.requests)
            == Ledger.ToMap(s.requests)[Ledger.Key(s.reqNurseId, s.reqDate) := s.reqShift]
    ensures r == s.(requests := r.requests)
  {
    Ledger.UpsertUpdatesMap(s.requests, FormRequest(s));
    s.(requests := Ledger.Upsert(s.requests, FormRequest(s)))
  }

  /** The "x" on the request at position `idx`: deletes that request and nothing else. */
  function RemoveRequest(s: State, idx: int): (r: State)
    ensures 0 <= idx < |s.requests| ==> r.requests == s.requests[..idx] + s.requests[idx + 1..]
    ensures !(0 <= idx < |s.requests|) ==> r == s
    ensures r == s.(requests := r.requests)
  {
    s.(requests := Ledger.RemoveAt(s.requests, idx))
  }

  /** The body `handleGenerate` posts: the current period, roster, ledger and targets. */
  function BuildPayload(s: State): (p: Payload)
    ensures p.nurses == s.nurses && p.requests == s.requests
    ensures p.month == s.month && p.year == s.year && p.targets == s.targets
  {
    Payload(s.month, s.year, s.nurses, s.requests, s.targets)
  }

  /** A payload built from a consistent state carries unique nurse ids and unique request keys. */
  lemma PayloadConsistent(s: State)
    requires Consistent(s)
    ensures Roster.UniqueIds(BuildPayload(s).nurses)
    ensures Ledger.UniqueKeys(BuildPayload(s).requests)
    ensures Ledger.ToMap(BuildPayload(s).requests) == Ledger.ToMap(s.requests)
  {
  }

  /** What one press of the generate button produced: the step and the body sent, if any. */
  datatype Generation = Generation(step: Step, sent: Option<Payload>)

  /**
   * "GENERATE JADWAL". While a generation is in flight the button is
   * disabled and a press does nothing. Otherwise the snapshot is cleared
   * before the request is sent, the reply then installs a new schedule or
   * raises an alert, and the busy flag is reset.
   */
  function Generate(s: State, reply: Reply): (g: Generation)
    ensures s.loading ==> g == Generation(Step(s, None), None)
    ensures !s.loading ==> g.sent == Some(BuildPayload(s)) && !g.step.state.loading
    ensures !s.loading && reply.Accepted? ==>
              g.step.state.snapshot == Some(reply.data) && g.step.state.daysCount == reply.daysCount
              && g.step.alert.None?
    ensures !s.loading && reply.Rejected? ==>
              g.step.state.snapshot.None? && g.step.alert == Some(reply.message)
    ensures !s.loading && reply.TransportFailure? ==>
              g.step.state.snapshot.None? && g.step.alert == Some(BackendAlert)
  {
    if s.loading then Generation(Step(s, None), None)
    else
      var busy := s.(loading := true, snapshot := None);
      var payload := BuildPayload(s);
      var step :=
        match reply
        case Accepted(data, days) => Step(busy.(snapshot := Some(data), daysCount := days), None)
        case Rejected(message) => Step(busy, Some(message))
        case TransportFailure => Step(busy, Some(BackendAlert));
      Generation(step.(state := step.state.(loading := false)), Some(payload))
  }

  /**
   * Failure isolation: whatever the reply, generation leaves the roster,
   * the ledger, the targets and the form fields as they were; on a failed
   * exchange the only other change is that the snapshot is gone.
   */
  lemma GenerateIsolatesFailure(s: State, reply: Reply)
    requires !s.loading
    ensures var t := Generate(s, reply).step.state;
            t.nurses == s.nurses && t.requests == s.requests && t.targets == s.targets
            && t.month == s.month && t.year == s.year && t.newNurseName == s.newNurseName
    ensures !reply.Accepted? ==> Generate(s, reply).step.state == s.(snapshot := None)
  {
  }

  /** The user's actions, each handled by one event handler of the editor. */
  datatype Event =
    | EditName(name: string)
    | EditRequestForm(nurseId: int, day: int, shiftId: int)
    | EditPeriod(month: int, year: int)
    | EditTargets(targets: Targets)
    | PressAddNurse
    | PressAddRequest
    | PressRemove(idx: int)
    | PressGenerate(reply: Reply)

  /** The state after one event. */
  function Apply(s: State, e: Event): State {
    match e
    case EditName(name) => s.(newNurseName := name)
    case EditRequestForm(n, d, sh) => s.(reqNurseId := n, reqDate := d, reqShift := sh)
    case EditPeriod(m, y) => s.(month := m, year := y)
    case EditTargets(t) => s.(targets := t)
    case PressAddNurse => AddNurse(s).state
    case PressAddRequest => AddRequest(s)
    case PressRemove(idx) => RemoveRequest(s, idx)
    case PressGenerate(reply) => Generate(s, reply).step.state
  }

  /** The state after a series of events, in order. */
  function Run(s: State, events: seq<Event>): State
    decreases |events|
  {
    if |events| == 0 then s else Run(Apply(s, events[0]), events[1..])
  }

  /** Every event handler keeps nurse ids and request keys unique. */
  lemma ApplyKeepsConsistent(s: State, e: Event)
    requires Consistent(s)
    ensures Consistent(Apply(s, e))
  {
    match e
    case PressAddNurse =>
      Roster.AddKeepsIdsUnique(s.nurses, s.newNurseName);
    case PressAddRequest =>
      Ledger.UpsertKeepsKeysUnique(s.requests, FormRequest(s));
    case PressRemove(idx) =>
      Ledger.RemoveKeepsKeysUnique(s.requests, idx);
    case _ =>
  }

  /** From the initial state, no series of events ever produces a duplicate nurse id or request key. */
  lemma {:induction false} RunKeepsConsistent(s: State, events: seq<Event>)
    requires Consistent(s)
    ensures Consistent(Run(s, events))
    decreases |events|
  {
    if |events| > 0 {
      ApplyKeepsConsistent(s, events[0]);
      RunKeepsConsistent(Apply(s, events[0]), events[1..]);
    }
  }

  lemma ReachableConsistent(events: seq<Event>)
    ensures Consistent(Run(Initial(), events))
  {
    InitialConsistent();
    RunKeepsConsistent(Initial(), events);
  }
}
