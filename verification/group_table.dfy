/**
 * The insurance-group table controller
 * (src/components/insurance/InsuranceGroupTable.tsx): save (update or
 * create), delete refused while sites link to the group, and the expiry
 * badge of the End Date column.
 */
module GroupTable {
  import opened Wrappers
  import opened Text
  import opened Domain
  import Entities
  import Seqs
  import DataTable

  /** The controller's state: the collection plus the dialog selections. */
  datatype State = State(
    groups: seq<InsuranceGroup>,
    editingGroup: Option<InsuranceGroup>,
    isDeleting: Option<int>,
    showLinkedSites: Option<int>)

  function GroupId(g: InsuranceGroup): int {
    g.id
  }

  /**
   * `handleSave`: while a group is being edited, the groups with the saved
   * group's id are replaced by it; otherwise the group is appended under a
   * fresh id. Either way the edit selection is cleared.
   */
  function HandleSave(st: State, group: InsuranceGroup): (r: State)
    ensures r.editingGroup.None?
    ensures r.isDeleting == st.isDeleting && r.showLinkedSites == st.showLinkedSites
    ensures st.editingGroup.Some? ==>
              && |r.groups| == |st.groups|
              && (forall i :: 0 <= i < |st.groups| && st.groups[i].id == group.id ==> r.groups[i] == group)
              && (forall i :: 0 <= i < |st.groups| && st.groups[i].id != group.id ==> r.groups[i] == st.groups[i])
    ensures st.editingGroup.None? ==>
              && |r.groups| == |st.groups| + 1
              && r.groups[..|st.groups|] == st.groups
              && var added := r.groups[|st.groups|];
                 && added.provider == group.provider && added.endDate == group.endDate
                 && added.id == Entities.NextId(st.groups, GroupId)
                 && forall i :: 0 <= i < |st.groups| ==> st.groups[i].id < added.id
  {
    var groups :=
      if st.editingGroup.Some? then Entities.ReplaceById(st.groups, group, GroupId)
      else st.groups + [group.(id := Entities.NextId(st.groups, GroupId))];
    st.(groups := groups, editingGroup := None)
  }

  /** Created groups never share an id: creation keeps ids pairwise distinct. */
  lemma CreateKeepsIdsDistinct(st: State, group: InsuranceGroup)
    requires st.editingGroup.None?
    requires forall i, j :: 0 <= i < j < |st.groups| ==> st.groups[i].id != st.groups[j].id
    ensures var gs := HandleSave(st, group).groups;
            forall i, j :: 0 <= i < j < |gs| ==> gs[i].id != gs[j].id
  {
    var gs := HandleSave(st, group).groups;
    forall i, j | 0 <= i < j < |gs|
      ensures gs[i].id != gs[j].id
    {
      if j == |st.groups| {
        assert gs[i] == st.groups[i];
      } else {
        assert gs[i] == st.groups[i] && gs[j] == st.groups[j];
      }
    }
  }

  /** Whether the delete went ahead; a refusal carries the alert's text. */
  datatype DeleteOutcome = Deleted | Refused(message: string)

  function RefusalMessage(linked: nat): string {
    "Cannot delete this insurance group because it is linked to " + IntToString(linked) + " sites."
  }

  /** The alert names the count: different linked-site counts give different messages. */
  lemma RefusalMessageNamesCount(a: nat, b: nat)
    requires RefusalMessage(a) == RefusalMessage(b)
    ensures a == b
  {
    var prefix := "Cannot delete this insurance group because it is linked to ";
    var ta, tb := IntToString(a), IntToString(b);
    assert RefusalMessage(a) == prefix + ta + " sites.";
    assert RefusalMessage(b) == prefix + tb + " sites.";
    assert |ta| == |tb|;
    assert ta == RefusalMessage(a)[|prefix|..|prefix| + |ta|];
    assert tb == RefusalMessage(b)[|prefix|..|prefix| + |tb|];
    ParseIntOfIntToString(a);
    ParseIntOfIntToString(b);
  }

  /**
   * `handleDelete`: refused, with the collection untouched, while any site
   * references the group; otherwise the groups with that id are removed.
   * Both paths close the delete dialog. `sites` is the site list the check
   * consults.
   */
  function HandleDelete(st: State, sites: seq<Site>, id: int): (r: (State, DeleteOutcome))
    ensures r.0.isDeleting.None?
    ensures r.0.editingGroup == st.editingGroup && r.0.showLinkedSites == st.showLinkedSites
    ensures (exists i :: 0 <= i < |sites| && sites[i].insuranceGroupId == id) ==>
              && r.0.groups == st.groups
              && r.1 == Refused(RefusalMessage(|GetInsuranceGroupSites(sites, id)|))
    ensures (forall i :: 0 <= i < |sites| ==> sites[i].insuranceGroupId != id) ==>
              && r.1 == Deleted
              && (forall i :: 0 <= i < |r.0.groups| ==> r.0.groups[i].id != id)
              && (forall i :: 0 <= i < |st.groups| && st.groups[i].id != id ==> st.groups[i] in r.0.groups)
              && Seqs.IsSubsequence(r.0.groups, st.groups)
              && (forall g :: multiset(r.0.groups)[g] == if g.id == id then 0 else multiset(st.groups)[g])
  {
    var linked := GetInsuranceGroupSites(sites, id);
    Entities.RemoveByIdMultiset(st.groups, id, GroupId);
    GroupSitesEmptyIff(sites, id);
    if |linked| > 0 then
      (st.(isDeleting := None), Refused(RefusalMessage(|linked|)))
    else
      (st.(groups := Entities.RemoveById(st.groups, id, GroupId), isDeleting := None), Deleted)
  }

  /** A refused delete can be repeated any number of times without effect on the groups. */
  lemma RefusedDeleteIsNoOp(st: State, sites: seq<Site>, id: int)
    requires HandleDelete(st, sites, id).1.Refused?
    ensures HandleDelete(st, sites, id).0 == st.(isDeleting := None)
    ensures HandleDelete(HandleDelete(st, sites, id).0, sites, id) == HandleDelete(st, sites, id)
  {
  }

  /** A group that no site references, once deleted, cannot be found by id. */
  lemma DeletedGroupNotFound(st: State, sites: seq<Site>, id: int)
    requires HandleDelete(st, sites, id).1 == Deleted
    ensures FindGroup(HandleDelete(st, sites, id).0.groups, id).None?
  {
  }

  // ---------------------------------------------------------------------
  // End Date column
  // ---------------------------------------------------------------------

  datatype BadgeVariant = Destructive | Outline

  datatype Badge = Badge(variant: BadgeVariant, caption: string)

  function DaysLeftLabel(days: int): string {
    IntToString(days) + " days left"
  }

  /** The badge of the End Date cell: red while expiring, reading "Expired" once no days are left. */
  function ExpiryBadge(g: InsuranceGroup): (b: Badge)
    ensures b.variant == Destructive <==> IsExpiringSoon(g.endDate)
  {
    var days := DaysUntil(g.endDate);
    if IsExpiringSoon(g.endDate) then
      Badge(Destructive, if days <= 0 then "Expired" else DaysLeftLabel(days))
    else
      Badge(Outline, DaysLeftLabel(days))
  }

  /** The badge reads "Expired" exactly when the end date is today or past; otherwise it counts the days. */
  lemma ExpiredLabelIff(g: InsuranceGroup)
    ensures ExpiryBadge(g).caption == "Expired" <==> DaysUntil(g.endDate) <= 0
    ensures DaysUntil(g.endDate) > 0 ==> ExpiryBadge(g).caption == DaysLeftLabel(DaysUntil(g.endDate))
  {
    var days := DaysUntil(g.endDate);
    if days > 0 {
      assert |DaysLeftLabel(days)| > |"Expired"|;
    }
  }

  // ---------------------------------------------------------------------
  // As a table
  // ---------------------------------------------------------------------

  /** A group as a row object; `dateText` is `String(endDate)`. */
  function GroupRow(g: InsuranceGroup, dateText: string): DataTable.Row {
    map["id" := DataTable.Num(g.id), "provider" := DataTable.Str(g.provider),
        "endDate" := DataTable.DateVal(g.endDate, dateText)]
  }

  const SearchFields: seq<string> := ["id", "provider"]

  const Columns: seq<DataTable.Column> := [
    DataTable.Column("ID", DataTable.Key("id"), true),
    DataTable.Column("Insurance Provider", DataTable.Key("provider"), true),
    DataTable.Column("End Date", DataTable.Computed, false),
    DataTable.Column("Linked Sites", DataTable.Computed, false),
    DataTable.Column("Actions", DataTable.Computed, false)
  ]

  /**
   * The ID column sorts ids as text, as `String` and `localeCompare` do:
   * ascending, the group with id 10 comes before the group with id 2.
   */
  lemma IdsSortAsText(g2: InsuranceGroup, g10: InsuranceGroup, text: string)
    requires g2.id == 2 && g10.id == 10
    ensures var st := DataTable.HandleSort(DataTable.InitialSortState, Columns[0]);
            DataTable.SortRows(st, [GroupRow(g2, text), GroupRow(g10, text)])
              == [GroupRow(g10, text), GroupRow(g2, text)]
  {
    var st := DataTable.HandleSort(DataTable.InitialSortState, Columns[0]);
    assert IntToString(2) == "2";
    assert IntToString(10) == "10";
    assert DataTable.CompareRows(st, GroupRow(g2, text), GroupRow(g10, text)) == 1;
  }
}
