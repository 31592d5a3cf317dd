/** The occupancy tracker of the property management dashboard: the table of
    property records held by PropertyOccupationComponent and the one rule that
    updates it, handleActionClick, which flips a property between vacant and
    occupied, relabels its action button and sets a new due date.

    Statuses and actions are strings in the component; the model keeps them as
    strings and states which values are the meaningful ones. */
module PropertyOccupation {

  const VACANT: string := "Vacant"
  const OCCUPIED: string := "Occupied"
  const OCCUPY: string := "Occupy"
  const VACATE: string := "Vacate"

  /** One row of the property table. */
  datatype PropertyRecord = PropertyRecord(
    id: int,
    name: string,
    status: string,
    nextAction: string,
    dueDate: string)

  predicate IsOccupancyStatus(s: string) {
    s == VACANT || s == OCCUPIED
  }

  /** The status a click moves a record to: Vacant becomes Occupied, and every
      other string, Occupied included, becomes Vacant. */
  function Opposite(s: string): (r: string)
    ensures IsOccupancyStatus(r)
    ensures r != s
  {
    if s == VACANT then OCCUPIED else VACANT
  }

  /** The label of the button offered for a record in status s: the action that
      takes it to the other status. */
  function ActionFor(s: string): (a: string)
    ensures a == OCCUPY || a == VACATE
    ensures a == OCCUPY <==> s == VACANT
  {
    if s == VACANT then OCCUPY else VACATE
  }

  /** A record whose status is one of the two occupancy statuses and whose
      button offers the move to the other one. */
  predicate RecordConsistent(p: PropertyRecord) {
    IsOccupancyStatus(p.status) && p.nextAction == ActionFor(p.status)
  }

  predicate Consistent(props: seq<PropertyRecord>) {
    forall i :: 0 <= i < |props| ==> RecordConsistent(props[i])
  }

  predicate HasId(props: seq<PropertyRecord>, id: int) {
    exists i :: 0 <= i < |props| && props[i].id == id
  }

  predicate UniqueIds(props: seq<PropertyRecord>) {
    forall i, j :: 0 <= i < |props| && 0 <= j < |props| && props[i].id == props[j].id ==> i == j
  }

  /** A date written YYYY-MM-DD, the shape the component's due dates have. */
  predicate IsIsoDate(s: string) {
    |s| == 10 && s[4] == '-' && s[7] == '-' &&
    forall k :: 0 <= k < 10 && k != 4 && k != 7 ==> '0' <= s[k] <= '9'
  }

  predicate DueDatesWellFormed(props: seq<PropertyRecord>) {
    forall i :: 0 <= i < |props| ==> IsIsoDate(props[i].dueDate)
  }

  /** The copy of a matched record that a click produces; `today3m` is the
      date three months after the click, as a YYYY-MM-DD string. */
  function ToggleRecord(p: PropertyRecord, today3m: string): (q: PropertyRecord)
    ensures q.id == p.id && q.name == p.name
    ensures q.status != p.status && IsOccupancyStatus(q.status)
    ensures RecordConsistent(q)
    ensures q.dueDate == today3m
  {
    var newStatus := Opposite(p.status);
    p.(status := newStatus, nextAction := ActionFor(newStatus), dueDate := today3m)
  }

  /** The list handleActionClick hands to the state setter: every record with
      the clicked id toggled, every other record as it was, in the same order. */
  function HandleActionClick(props: seq<PropertyRecord>, id: int, today3m: string): (r: seq<PropertyRecord>)
    ensures |r| == |props|
    ensures forall i :: 0 <= i < |props| && props[i].id != id ==> r[i] == props[i]
    ensures forall i :: 0 <= i < |props| && props[i].id == id ==> r[i] == ToggleRecord(props[i], today3m)
  {
    if props == [] then []
    else
      var head := if props[0].id == id then ToggleRecord(props[0], today3m) else props[0];
      [head] + HandleActionClick(props[1..], id, today3m)
  }

  /** The three records the component starts with. */
  function InitialProperties(): (r: seq<PropertyRecord>)
    ensures |r| == 3
    ensures Consistent(r) && UniqueIds(r) && DueDatesWellFormed(r)
  {
    [ PropertyRecord(1, "Shopping Center A", VACANT, OCCUPY, "2023-09-15"),
      PropertyRecord(2, "Retail Space B", OCCUPIED, VACATE, "2023-10-01"),
      PropertyRecord(3, "Office Building C", VACANT, OCCUPY, "2023-09-30") ]
  }

  /** Flipping twice gives back the status exactly when it was one of the two
      occupancy statuses; any other string comes back as Occupied. */
  lemma OppositeTwice(s: string)
    ensures Opposite(Opposite(s)) == s <==> IsOccupancyStatus(s)
    ensures Opposite(Opposite(s)) == if s == VACANT then VACANT else OCCUPIED
  {
  }

  /** A click flips the status of every matched record and of no other. */
  lemma ToggleFlipsStatus(props: seq<PropertyRecord>, id: int, today3m: string, i: int)
    requires 0 <= i < |props|
    ensures (HandleActionClick(props, id, today3m)[i].status != props[i].status) <==> props[i].id == id
    ensures IsOccupancyStatus(props[i].status) && props[i].id == id ==>
      (HandleActionClick(props, id, today3m)[i].status == OCCUPIED <==> props[i].status == VACANT)
  {
  }

  /** The status/action invariant of the table survives a click. */
  lemma ToggleKeepsConsistent(props: seq<PropertyRecord>, id: int, today3m: string)
    requires Consistent(props)
    ensures Consistent(HandleActionClick(props, id, today3m))
  {
    var r := HandleActionClick(props, id, today3m);
    forall i | 0 <= i < |r|
      ensures RecordConsistent(r[i])
    {
      if props[i].id != id {
        assert r[i] == props[i];
      }
    }
  }

  /** A click keeps every id at its place, so ids stay unique. */
  lemma ToggleKeepsIds(props: seq<PropertyRecord>, id: int, today3m: string)
    ensures forall i :: 0 <= i < |props| ==>
      HandleActionClick(props, id, today3m)[i].id == props[i].id &&
      HandleActionClick(props, id, today3m)[i].name == props[i].name
    ensures UniqueIds(props) ==> UniqueIds(HandleActionClick(props, id, today3m))
  {
  }

  /** Every due date stays a YYYY-MM-DD date when the supplied one is. */
  lemma ToggleKeepsDueDatesWellFormed(props: seq<PropertyRecord>, id: int, today3m: string)
    requires DueDatesWellFormed(props) && IsIsoDate(today3m)
    ensures DueDatesWellFormed(HandleActionClick(props, id, today3m))
  {
  }

  /** A click leaves the list as it was exactly when no record has that id. */
  lemma ToggleUnknownIdIsNoOp(props: seq<PropertyRecord>, id: int, today3m: string)
    ensures HandleActionClick(props, id, today3m) == props <==> !HasId(props, id)
  {
    var r := HandleActionClick(props, id, today3m);
    if HasId(props, id) {
      var i :| 0 <= i < |props| && props[i].id == id;
      assert r[i].status != props[i].status;
    } else {
      assert forall i :: 0 <= i < |props| ==> r[i] == props[i];
    }
  }

  /** Clicking the same id twice restores every status, whatever the actions said,
      as long as each status is one of the two occupancy statuses. */
  lemma ToggleTwiceRestoresStatus(props: seq<PropertyRecord>, id: int, d1: string, d2: string)
    requires forall i :: 0 <= i < |props| ==> IsOccupancyStatus(props[i].status)
    ensures var r := HandleActionClick(HandleActionClick(props, id, d1), id, d2);
      |r| == |props| && forall i :: 0 <= i < |props| ==> r[i].status == props[i].status
  {
    var r1 := HandleActionClick(props, id, d1);
    var r2 := HandleActionClick(r1, id, d2);
    forall i | 0 <= i < |props|
      ensures r2[i].status == props[i].status
    {
      if props[i].id == id {
        OppositeTwice(props[i].status);
      }
    }
  }

  /** On a consistent table, clicking the same id twice gives back every record
      except that the matched ones carry the second click's due date. */
  lemma ToggleTwiceRestores(props: seq<PropertyRecord>, id: int, d1: string, d2: string)
    requires Consistent(props)
    ensures var r := HandleActionClick(HandleActionClick(props, id, d1), id, d2);
      |r| == |props| &&
      forall i :: 0 <= i < |props| ==>
        r[i] == if props[i].id == id then props[i].(dueDate := d2) else props[i]
  {
    var r1 := HandleActionClick(props, id, d1);
    var r2 := HandleActionClick(r1, id, d2);
    forall i | 0 <= i < |props|
      ensures r2[i] == if props[i].id == id then props[i].(dueDate := d2) else props[i]
    {
      if props[i].id == id {
        OppositeTwice(props[i].status);
        assert r1[i] == ToggleRecord(props[i], d1);
        assert r2[i] == ToggleRecord(r1[i], d2);
      }
    }
  }

  /** Without the invariant the action is not restored: a record that offers
      Vacate while vacant comes back offering Occupy. */
  lemma ToggleTwiceNeedsConsistency()
    ensures var p := [PropertyRecord(7, "Unit", VACANT, VACATE, "2023-01-01")];
      HandleActionClick(HandleActionClick(p, 7, "2024-01-01"), 7, "2024-01-01")[0].nextAction != p[0].nextAction
  {
    var p := [PropertyRecord(7, "Unit", VACANT, VACATE, "2023-01-01")];
    var r1 := HandleActionClick(p, 7, "2024-01-01");
    assert r1[0] == ToggleRecord(p[0], "2024-01-01");
  }

  /** Clicks on two different ids can be made in either order. */
  lemma ToggleCommutes(props: seq<PropertyRecord>, id1: int, id2: int, d1: string, d2: string)
    requires id1 != id2
    ensures HandleActionClick(HandleActionClick(props, id1, d1), id2, d2) ==
            HandleActionClick(HandleActionClick(props, id2, d2), id1, d1)
  {
    var a := HandleActionClick(HandleActionClick(props, id1, d1), id2, d2);
    var b := HandleActionClick(HandleActionClick(props, id2, d2), id1, d1);
    assert |a| == |b|;
    forall i | 0 <= i < |a|
      ensures a[i] == b[i]
    {
    }
  }

  /** Clicking property 1 of the initial table occupies it, clicking it again
      vacates it; the other two rows are untouched. */
  lemma InitialToggleScenario(today3m: string, later: string)
    ensures var r1 := HandleActionClick(InitialProperties(), 1, today3m);
      r1[0] == PropertyRecord(1, "Shopping Center A", OCCUPIED, VACATE, today3m) &&
      r1[1..] == InitialProperties()[1..]
    ensures var r2 := HandleActionClick(HandleActionClick(InitialProperties(), 1, today3m), 1, later);
      r2[0] == PropertyRecord(1, "Shopping Center A", VACANT, OCCUPY, later) &&
      r2[1..] == InitialProperties()[1..]
  {
    var s := InitialProperties();
    var r1 := HandleActionClick(s, 1, today3m);
    var r2 := HandleActionClick(r1, 1, later);
    assert r1[0] == ToggleRecord(s[0], today3m);
    assert r2[0] == ToggleRecord(r1[0], later);
    assert r1[1..] == s[1..] by {
      assert r1[1] == s[1] && r1[2] == s[2];
    }
    assert r2[1..] == s[1..] by {
      assert r2[1] == r1[1] && r2[2] == r1[2];
    }
  }

  /** Clicking an id no initial record has leaves the table as it was. */
  lemma InitialUnknownIdScenario(today3m: string)
    ensures HandleActionClick(InitialProperties(), 999, today3m) == InitialProperties()
  {
    ToggleUnknownIdIsNoOp(InitialProperties(), 999, today3m);
  }
}
