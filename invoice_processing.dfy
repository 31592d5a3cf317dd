/** The invoice tracker of the property management dashboard: the table of
    invoices held by InvoiceProcessingComponent and the one rule that updates
    it, handleStatusChange, which stores the value chosen in a row's status
    selector.

    The handler takes the new status as a string and stores it unchecked; the
    selector only ever offers the three values of STATUS_OPTIONS. */
module InvoiceProcessing {

  const PENDING: string := "Pending"
  const PAID: string := "Paid"
  const OVERDUE: string := "Overdue"

  /** The values of the selector's options, in the order shown. */
  const STATUS_OPTIONS: seq<string> := [PENDING, PAID, OVERDUE]

  /** One row of the invoice table. */
  datatype InvoiceRecord = InvoiceRecord(
    id: int,
    property: string,
    amount: int,
    status: string,
    dueDate: string)

  predicate IsInvoiceStatus(s: string) {
    s in STATUS_OPTIONS
  }

  predicate StatusesValid(invs: seq<InvoiceRecord>) {
    forall i :: 0 <= i < |invs| ==> IsInvoiceStatus(invs[i].status)
  }

  predicate HasId(invs: seq<InvoiceRecord>, id: int) {
    exists i :: 0 <= i < |invs| && invs[i].id == id
  }

  predicate UniqueIds(invs: seq<InvoiceRecord>) {
    forall i, j :: 0 <= i < |invs| && 0 <= j < |invs| && invs[i].id == invs[j].id ==> i == j
  }

  /** The list handleStatusChange hands to the state setter: every invoice with
      the given id now has status `newStatus`, and nothing else differs. */
  function HandleStatusChange(invs: seq<InvoiceRecord>, id: int, newStatus: string): (r: seq<InvoiceRecord>)
    ensures |r| == |invs|
    ensures forall i :: 0 <= i < |invs| ==>
      r[i].id == invs[i].id && r[i].property == invs[i].property &&
      r[i].amount == invs[i].amount && r[i].dueDate == invs[i].dueDate
    ensures forall i :: 0 <= i < |invs| ==>
      r[i].status == if invs[i].id == id then newStatus else invs[i].status
    ensures forall i :: 0 <= i < |invs| && invs[i].id != id ==> r[i] == invs[i]
  {
    if invs == [] then []
    else
      var head := if invs[0].id == id then invs[0].(status := newStatus) else invs[0];
      [head] + HandleStatusChange(invs[1..], id, newStatus)
  }

  /** The three invoices the component starts with. */
  function InitialInvoices(): (r: seq<InvoiceRecord>)
    ensures |r| == 3
    ensures StatusesValid(r) && UniqueIds(r)
  {
    [ InvoiceRecord(1, "Property A", 5000, PENDING, "2023-09-30"),
      InvoiceRecord(2, "Property B", 7500, PAID, "2023-09-15"),
      InvoiceRecord(3, "Property C", 6000, OVERDUE, "2023-09-01") ]
  }

  /** A change leaves the list as it was exactly when every invoice with that id
      already had the chosen status; in particular when no invoice has the id. */
  lemma StatusChangeNoOp(invs: seq<InvoiceRecord>, id: int, newStatus: string)
    ensures HandleStatusChange(invs, id, newStatus) == invs <==>
      forall i :: 0 <= i < |invs| && invs[i].id == id ==> invs[i].status == newStatus
    ensures !HasId(invs, id) ==> HandleStatusChange(invs, id, newStatus) == invs
  {
    var r := HandleStatusChange(invs, id, newStatus);
    if forall i :: 0 <= i < |invs| && invs[i].id == id ==> invs[i].status == newStatus {
      assert forall i :: 0 <= i < |invs| ==> r[i] == invs[i];
    }
  }

  /** Choosing one of the selector's values keeps every status among them. */
  lemma StatusChangeKeepsStatusesValid(invs: seq<InvoiceRecord>, id: int, newStatus: string)
    requires StatusesValid(invs) && IsInvoiceStatus(newStatus)
    ensures StatusesValid(HandleStatusChange(invs, id, newStatus))
  {
  }

  /** A string outside the selector's values, once stored, breaks that set. */
  lemma StatusChangeStoresAnyString(invs: seq<InvoiceRecord>, id: int, newStatus: string)
    requires HasId(invs, id) && !IsInvoiceStatus(newStatus)
    ensures !StatusesValid(HandleStatusChange(invs, id, newStatus))
  {
    var i :| 0 <= i < |invs| && invs[i].id == id;
    assert HandleStatusChange(invs, id, newStatus)[i].status == newStatus;
  }

  /** A change keeps every id at its place, so ids stay unique. */
  lemma StatusChangeKeepsIds(invs: seq<InvoiceRecord>, id: int, newStatus: string)
    ensures UniqueIds(invs) ==> UniqueIds(HandleStatusChange(invs, id, newStatus))
  {
  }

  /** Of two changes to the same id, the later one is all that remains; choosing
      the same value twice is the same as choosing it once. */
  lemma StatusChangeLastWins(invs: seq<InvoiceRecord>, id: int, s1: string, s2: string)
    ensures HandleStatusChange(HandleStatusChange(invs, id, s1), id, s2) ==
            HandleStatusChange(invs, id, s2)
  {
    var a := HandleStatusChange(HandleStatusChange(invs, id, s1), id, s2);
    var b := HandleStatusChange(invs, id, s2);
    forall i | 0 <= i < |invs|
      ensures a[i] == b[i]
    {
    }
  }

  /** Changes to two different ids can be made in either order. */
  lemma StatusChangeCommutes(invs: seq<InvoiceRecord>, id1: int, id2: int, s1: string, s2: string)
    requires id1 != id2
    ensures HandleStatusChange(HandleStatusChange(invs, id1, s1), id2, s2) ==
            HandleStatusChange(HandleStatusChange(invs, id2, s2), id1, s1)
  {
    var a := HandleStatusChange(HandleStatusChange(invs, id1, s1), id2, s2);
    var b := HandleStatusChange(HandleStatusChange(invs, id2, s2), id1, s1);
    forall i | 0 <= i < |invs|
      ensures a[i] == b[i]
    {
    }
  }

  /** When ids are unique, choosing an invoice's previous status again undoes
      a change to it. */
  lemma StatusChangeUndo(invs: seq<InvoiceRecord>, k: int, newStatus: string)
    requires UniqueIds(invs) && 0 <= k < |invs|
    ensures HandleStatusChange(HandleStatusChange(invs, invs[k].id, newStatus), invs[k].id, invs[k].status) == invs
  {
    var id := invs[k].id;
    var r := HandleStatusChange(HandleStatusChange(invs, id, newStatus), id, invs[k].status);
    forall i | 0 <= i < |invs|
      ensures r[i] == invs[i]
    {
      if invs[i].id == id {
        assert i == k;
      }
    }
  }

  /** Marking invoice 3 of the initial table as paid changes its status only. */
  lemma InitialPaidScenario()
    ensures var r := HandleStatusChange(InitialInvoices(), 3, PAID);
      r[2] == InvoiceRecord(3, "Property C", 6000, PAID, "2023-09-01") &&
      r[..2] == InitialInvoices()[..2]
  {
    var s := InitialInvoices();
    var r := HandleStatusChange(s, 3, PAID);
    assert r[..2] == s[..2] by {
      assert r[0] == s[0] && r[1] == s[1];
    }
  }
}
