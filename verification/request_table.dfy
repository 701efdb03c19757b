/**
 * The request table controller (src/components/requests/RequestTable.tsx):
 * approve and deny rewrite the status of the matching row, and only rows
 * still Pending offer the Approve and Deny buttons.
 */
module RequestTable {
  import opened Wrappers
  import opened Domain
  import Text
  import DataTable

  datatype State = State(
    requests: seq<InsuranceRequest>,
    selectedRequest: Option<InsuranceRequest>,
    denialReason: string,
    showApproval: bool,
    showDenial: bool)

  /** Sets `status` on every request with the given id; nothing else changes. */
  function SetStatus(requests: seq<InsuranceRequest>, id: int, status: Status): (r: seq<InsuranceRequest>)
    ensures |r| == |requests|
    ensures forall i :: 0 <= i < |r| && requests[i].id == id ==> r[i] == requests[i].(status := status)
    ensures forall i :: 0 <= i < |r| && requests[i].id != id ==> r[i] == requests[i]
  {
    seq(|requests|, i requires 0 <= i < |requests| =>
      if requests[i].id == id then requests[i].(status := status) else requests[i])
  }

  /** `handleApprove`: the rows with the request's id become Approved, and the dialog closes. */
  function HandleApprove(st: State, request: InsuranceRequest): (r: State)
    ensures |r.requests| == |st.requests|
    ensures forall i :: 0 <= i < |st.requests| && st.requests[i].id == request.id ==>
              r.requests[i] == st.requests[i].(status := Approved)
    ensures forall i :: 0 <= i < |st.requests| && st.requests[i].id != request.id ==>
              r.requests[i] == st.requests[i]
    ensures !r.showApproval
    ensures r.selectedRequest == st.selectedRequest && r.denialReason == st.denialReason
            && r.showDenial == st.showDenial
  {
    st.(requests := SetStatus(st.requests, request.id, Approved), showApproval := false)
  }

  /**
   * `handleDeny`: the rows with the request's id become Denied; the typed
   * reason is discarded, not stored on the request.
   */
  function HandleDeny(st: State, request: InsuranceRequest): (r: State)
    ensures |r.requests| == |st.requests|
    ensures forall i :: 0 <= i < |st.requests| && st.requests[i].id == request.id ==>
              r.requests[i] == st.requests[i].(status := Denied)
    ensures forall i :: 0 <= i < |st.requests| && st.requests[i].id != request.id ==>
              r.requests[i] == st.requests[i]
    ensures !r.showDenial && r.denialReason == ""
    ensures r.selectedRequest == st.selectedRequest && r.showApproval == st.showApproval
  {
    st.(requests := SetStatus(st.requests, request.id, Denied), showDenial := false, denialReason := "")
  }

  /** Approving the same request twice leaves the collection as approving it once. */
  lemma ApproveIdempotent(st: State, request: InsuranceRequest)
    ensures HandleApprove(HandleApprove(st, request), request).requests == HandleApprove(st, request).requests
  {
  }

  /** Denying the same request twice leaves the collection as denying it once. */
  lemma DenyIdempotent(st: State, request: InsuranceRequest)
    ensures HandleDeny(HandleDeny(st, request), request).requests == HandleDeny(st, request).requests
  {
  }

  // ---------------------------------------------------------------------
  // The Actions column
  // ---------------------------------------------------------------------

  /** Approve and Deny buttons are rendered only on Pending rows. */
  predicate ActionsVisible(request: InsuranceRequest) {
    request.status == Pending
  }

  /** Both buttons are offered exactly on Pending rows. */
  lemma ActionsOnlyWhilePending(st: State, row: InsuranceRequest)
    ensures ClickApprove(st, row).Some? <==> row.status == Pending
    ensures ClickDeny(st, row).Some? <==> row.status == Pending
  {
  }

  /** Clicking Approve on a row: selects it and opens the dialog; absent unless the row is Pending. */
  function ClickApprove(st: State, row: InsuranceRequest): (r: Option<State>)
    ensures r.Some? <==> ActionsVisible(row)
    ensures r.Some? ==> r.value == st.(selectedRequest := Some(row), showApproval := true)
  {
    if ActionsVisible(row) then Some(st.(selectedRequest := Some(row), showApproval := true)) else None
  }

  /** Clicking Deny on a row: selects it and opens the dialog; absent unless the row is Pending. */
  function ClickDeny(st: State, row: InsuranceRequest): (r: Option<State>)
    ensures r.Some? <==> ActionsVisible(row)
    ensures r.Some? ==> r.value == st.(selectedRequest := Some(row), showDenial := true)
  {
    if ActionsVisible(row) then Some(st.(selectedRequest := Some(row), showDenial := true)) else None
  }

  /** "Approve Request" in the dialog: approves the selected request, if any. */
  function ConfirmApprove(st: State): (r: State)
    ensures st.selectedRequest.None? ==> r == st
    ensures st.selectedRequest.Some? ==> r == HandleApprove(st, st.selectedRequest.value)
  {
    match st.selectedRequest
    case None => st
    case Some(req) => HandleApprove(st, req)
  }

  /** "Deny Request" in the dialog: denies the selected request, if any. */
  function ConfirmDeny(st: State): (r: State)
    ensures st.selectedRequest.None? ==> r == st
    ensures st.selectedRequest.Some? ==> r == HandleDeny(st, st.selectedRequest.value)
  {
    match st.selectedRequest
    case None => st
    case Some(req) => HandleDeny(st, req)
  }

  /** Requests carry distinct ids. */
  ghost predicate UniqueIds(requests: seq<InsuranceRequest>) {
    forall i, j :: 0 <= i < j < |requests| ==> requests[i].id != requests[j].id
  }

  /**
   * Through the buttons, approval moves exactly the clicked Pending row to
   * Approved; afterwards that row offers no more actions.
   */
  lemma ApproveFlowFromPending(st: State, k: int)
    requires UniqueIds(st.requests) && 0 <= k < |st.requests|
    requires ActionsVisible(st.requests[k])
    ensures ClickApprove(st, st.requests[k]).Some?
    ensures var after := ConfirmApprove(ClickApprove(st, st.requests[k]).value).requests;
            && |after| == |st.requests|
            && after[k] == st.requests[k].(status := Approved)
            && !ActionsVisible(after[k])
            && forall i :: 0 <= i < |after| && i != k ==> after[i] == st.requests[i]
  {
  }

  /** Through the buttons, denial moves exactly the clicked Pending row to Denied. */
  lemma DenyFlowFromPending(st: State, k: int)
    requires UniqueIds(st.requests) && 0 <= k < |st.requests|
    requires ActionsVisible(st.requests[k])
    ensures ClickDeny(st, st.requests[k]).Some?
    ensures var after := ConfirmDeny(ClickDeny(st, st.requests[k]).value).requests;
            && |after| == |st.requests|
            && after[k] == st.requests[k].(status := Denied)
            && !ActionsVisible(after[k])
            && forall i :: 0 <= i < |after| && i != k ==> after[i] == st.requests[i]
  {
  }

  /** Approved and Denied rows offer no buttons, so the UI cannot move them again. */
  lemma DecidedRowsAreTerminal(st: State, row: InsuranceRequest)
    requires row.status != Pending
    ensures ClickApprove(st, row).None? && ClickDeny(st, row).None?
  {
  }

  // ---------------------------------------------------------------------
  // As a table
  // ---------------------------------------------------------------------

  function TypeName(t: InsuranceType): string {
    match t
    case Normal => "Normal"
    case Special => "Special"
  }

  function StatusName(s: Status): string {
    match s
    case Pending => "Pending"
    case Approved => "Approved"
    case Denied => "Denied"
  }

  /** A request as a row object; `dateText` is `String(requestDate)`; absent details are an absent key. */
  function RequestRow(r: InsuranceRequest, dateText: string): DataTable.Row {
    var base := map[
      "id" := DataTable.Num(r.id), "siteName" := DataTable.Str(r.siteName),
      "address" := DataTable.Str(r.address), "insuranceType" := DataTable.Str(TypeName(r.insuranceType)),
      "requestDate" := DataTable.DateVal(r.requestDate, dateText), "status" := DataTable.Str(StatusName(r.status))];
    match r.specialDetails
    case None => base
    case Some(d) => base["specialDetails" := DataTable.Str(d)]
  }

  const SearchFields: seq<string> := ["id", "siteName", "address", "insuranceType"]

  /** The type column is searched: "special" finds every Special request, whatever the case. */
  lemma SearchFindsSpecialType(r: InsuranceRequest, dateText: string)
    requires r.insuranceType == Special
    ensures DataTable.RowMatches(RequestRow(r, dateText), SearchFields, "special")
  {
    var row := RequestRow(r, dateText);
    assert DataTable.FieldOf(row, "insuranceType") == DataTable.Str("Special");
    assert Text.Lower("Special") == "special";
    assert Text.Lower("special") == "special";
    assert DataTable.FieldMatches(row, SearchFields[3], "special");
  }
}
