/**
 * The nurse roster: an ordered sequence of members, grown only by the
 * "add nurse" form, whose ids are allocated as one more than the largest
 * id in use.
 */
module Roster {
  import opened Wrappers
  import Text

  /** The role given to every nurse added through the form. */
  const RegularRole: string := "regular"

  /** One roster member. The role is free text ("karu", "wakaru", "regular"). */
  datatype Nurse = Nurse(id: int, name: string, role: string)

  /** Why an add was refused. */
  datatype AddError = BlankName

  /** The set of ids in use. */
  function Ids(roster: seq<Nurse>): set<int> {
    set i | 0 <= i < |roster| :: roster[i].id
  }

  /** No two members share an id. */
  predicate UniqueIds(roster: seq<Nurse>) {
    forall i, j :: 0 <= i < j < |roster| ==> roster[i].id != roster[j].id
  }

  /** `Math.max` over the ids of a non-empty roster: an id in use that no other id exceeds. */
  function MaxId(roster: seq<Nurse>): (m: int)
    requires |roster| > 0
    ensures forall i :: 0 <= i < |roster| ==> roster[i].id <= m
    ensures exists i :: 0 <= i < |roster| && roster[i].id == m
  {
    if |roster| == 1 then roster[0].id
    else
      var rest := MaxId(roster[1..]);
      assert forall i :: 1 <= i < |roster| ==> roster[i] == roster[1..][i - 1];
      if roster[0].id > rest then roster[0].id else rest
  }

  /**
   * The id the next added nurse receives: one more than the largest id,
   * or 1 for an empty roster. It exceeds, and so differs from, every id in use.
   */
  function NextId(roster: seq<Nurse>): (id: int)
    ensures |roster| == 0 ==> id == 1
    ensures |roster| > 0 ==> exists i :: 0 <= i < |roster| && roster[i].id + 1 == id
    ensures forall i :: 0 <= i < |roster| ==> roster[i].id < id
    ensures id !in Ids(roster)
  {
    if |roster| > 0 then MaxId(roster) + 1 else 1
  }

  /**
   * Adds a nurse named `name`. A name that is blank after trimming is
   * refused; otherwise the roster gains one member at the end, with a fresh
   * id, the regular role and the name exactly as typed (untrimmed), and
   * every earlier member is kept as it was.
   */
  function Add(roster: seq<Nurse>, name: string): (r: Result<seq<Nurse>, AddError>)
    ensures r.Failure? <==> Text.AllWhiteSpace(name)
    ensures r.Success? ==>
              && |r.value| == |roster| + 1
              && r.value[..|roster|] == roster
              && r.value[|roster|].name == name
              && r.value[|roster|].role == RegularRole
              && r.value[|roster|].id !in Ids(roster)
              && (|roster| == 0 ==> r.value[|roster|].id == 1)
              && (|roster| > 0 ==> r.value[|roster|].id == MaxId(roster) + 1)
  {
    if Text.IsBlank(name) then Failure(BlankName)
    else Success(roster + [Nurse(NextId(roster), name, RegularRole)])
  }

  /** A successful add extends the id set by exactly the new id. */
  lemma AddExtendsIds(roster: seq<Nurse>, name: string)
    requires !Text.AllWhiteSpace(name)
    ensures Ids(Add(roster, name).value) == Ids(roster) + {NextId(roster)}
    ensures NextId(roster) !in Ids(roster)
  {
    var r := Add(roster, name).value;
    var n := |roster|;
    assert r == roster + [r[n]];
    forall x | x in Ids(r) ensures x in Ids(roster) + {NextId(roster)} {
      var i :| 0 <= i < |r| && r[i].id == x;
      if i < n { assert r[i] == roster[i]; }
    }
    forall x | x in Ids(roster) ensures x in Ids(r) {
      var i :| 0 <= i < n && roster[i].id == x;
      assert r[i] == roster[i];
    }
    assert r[n].id in Ids(r);
  }

  /** Fresh ids: a roster with unique ids keeps unique ids after any add. */
  lemma AddKeepsIdsUnique(roster: seq<Nurse>, name: string)
    requires UniqueIds(roster)
    ensures Add(roster, name).Success? ==> UniqueIds(Add(roster, name).value)
  {
    if Add(roster, name).Success? {
      var r := Add(roster, name).value;
      forall i, j | 0 <= i < j < |r| ensures r[i].id != r[j].id {
        if j == |roster| {
          assert r[i] == roster[i];
        } else {
          assert r[i] == roster[i] && r[j] == roster[j];
        }
      }
    }
  }
}
