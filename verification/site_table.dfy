/**
 * The site table controller (src/components/site/SiteTable.tsx): save
 * (update or create), unconditional delete, and the provider and end-date
 * cells that tolerate a site without a resolvable group.
 */
module SiteTable {
  import opened Wrappers
  import opened Domain
  import Entities
  import Seqs
  import Text
  import DataTable

  datatype State = State(sites: seq<Site>, editingSite: Option<Site>, isDeleting: Option<int>)

  function SiteId(s: Site): int {
    s.id
  }

  /**
   * `handleSave`: while a site is being edited, the sites with the saved
   * site's id are replaced by it; otherwise it is appended under a fresh id.
   * The edit selection is cleared afterwards.
   */
  function HandleSave(st: State, site: Site): (r: State)
    ensures r.editingSite.None? && r.isDeleting == st.isDeleting
    ensures st.editingSite.Some? ==>
              && |r.sites| == |st.sites|
              && (forall i :: 0 <= i < |st.sites| && st.sites[i].id == site.id ==> r.sites[i] == site)
              && (forall i :: 0 <= i < |st.sites| && st.sites[i].id != site.id ==> r.sites[i] == st.sites[i])
    ensures st.editingSite.None? ==>
              && |r.sites| == |st.sites| + 1
              && r.sites[..|st.sites|] == st.sites
              && var added := r.sites[|st.sites|];
                 && added == site.(id := added.id)
                 && added.id == Entities.NextId(st.sites, SiteId)
                 && forall i :: 0 <= i < |st.sites| ==> st.sites[i].id < added.id
  {
    var sites :=
      if st.editingSite.Some? then Entities.ReplaceById(st.sites, site, SiteId)
      else st.sites + [site.(id := Entities.NextId(st.sites, SiteId))];
    st.(sites := sites, editingSite := None)
  }

  /** `handleDelete`: always removes the sites with that id, keeping the others in order. */
  function HandleDelete(st: State, id: int): (r: State)
    ensures r.isDeleting.None? && r.editingSite == st.editingSite
    ensures Seqs.IsSubsequence(r.sites, st.sites)
    ensures forall i :: 0 <= i < |r.sites| ==> r.sites[i].id != id
    ensures forall i :: 0 <= i < |st.sites| && st.sites[i].id != id ==> st.sites[i] in r.sites
    ensures forall x :: multiset(r.sites)[x] == if x.id == id then 0 else multiset(st.sites)[x]
  {
    Entities.RemoveByIdMultiset(st.sites, id, SiteId);
    st.(sites := Entities.RemoveById(st.sites, id, SiteId), isDeleting := None)
  }

  /** After a delete no site with that id is left to find. */
  lemma DeletedSiteNotFound(st: State, id: int)
    ensures FindSite(HandleDelete(st, id).sites, id).None?
  {
  }

  /** Deleting the same id twice is deleting it once. */
  lemma DeleteIdempotent(st: State, id: int)
    ensures HandleDelete(HandleDelete(st, id), id) == HandleDelete(st, id)
  {
    Entities.RemoveUnknownId(HandleDelete(st, id).sites, id, SiteId);
  }

  // ---------------------------------------------------------------------
  // Linked-group cells
  // ---------------------------------------------------------------------

  const Dash: string := "—"

  /**
   * The Insurance Provider cell: the provider of the site's group, or a dash
   * when the lookup finds no group. `sites` is the list the lookup searches.
   */
  function ProviderCell(sites: seq<Site>, groups: seq<InsuranceGroup>, row: Site): (text: string)
    ensures GetSiteInsuranceGroup(sites, groups, row.id).None? ==> text == Dash
    ensures GetSiteInsuranceGroup(sites, groups, row.id).Some? ==>
              exists g :: g in groups && g.provider == text
    ensures GetSiteInsuranceGroup(sites, groups, row.id).Some? ==>
              text == GetSiteInsuranceGroup(sites, groups, row.id).value.provider
  {
    match GetSiteInsuranceGroup(sites, groups, row.id)
    case None => Dash
    case Some(g) => g.provider
  }

  /** The End Date cell: a dash, or the group's end date with an "Expiring Soon" badge when due. */
  datatype EndDateCell = NoGroup | EndDate(date: Instant, expiringBadge: bool)

  function EndDateCellOf(sites: seq<Site>, groups: seq<InsuranceGroup>, row: Site): (c: EndDateCell)
    ensures c.NoGroup? <==> GetSiteInsuranceGroup(sites, groups, row.id).None?
    ensures c.EndDate? ==> c.expiringBadge == IsExpiringSoon(c.date)
    ensures c.EndDate? ==> c.date == GetSiteInsuranceGroup(sites, groups, row.id).value.endDate
  {
    match GetSiteInsuranceGroup(sites, groups, row.id)
    case None => NoGroup
    case Some(g) => EndDate(g.endDate, IsExpiringSoon(g.endDate))
  }

  /** A site whose group reference dangles shows dashes, not a failure. */
  lemma DanglingReferenceShowsDash(sites: seq<Site>, groups: seq<InsuranceGroup>, row: Site)
    requires row in sites && forall i :: 0 <= i < |sites| ==> sites[i].id == row.id ==> sites[i] == row
    requires forall k :: 0 <= k < |groups| ==> groups[k].id != row.insuranceGroupId
    ensures ProviderCell(sites, groups, row) == Dash
    ensures EndDateCellOf(sites, groups, row) == NoGroup
  {
    var found := FindSite(sites, row.id);
    assert found == Some(row);
  }

  // ---------------------------------------------------------------------
  // As a table
  // ---------------------------------------------------------------------

  function SiteRow(s: Site): DataTable.Row {
    map["id" := DataTable.Num(s.id), "name" := DataTable.Str(s.name),
        "address" := DataTable.Str(s.address), "insuranceGroupId" := DataTable.Num(s.insuranceGroupId)]
  }

  const SearchFields: seq<string> := ["name", "address"]

  const Columns: seq<DataTable.Column> := [
    DataTable.Column("Site Name", DataTable.Key("name"), true),
    DataTable.Column("Address", DataTable.Key("address"), true),
    DataTable.Column("Insurance Provider", DataTable.Computed, true),
    DataTable.Column("End Date", DataTable.Computed, false),
    DataTable.Column("Actions", DataTable.Computed, false)
  ]

  /** The search is case-insensitive: "down" finds the Downtown Warehouse. */
  lemma SearchIgnoresCase(s: Site)
    requires s.name == "Downtown Warehouse"
    ensures DataTable.RowMatches(SiteRow(s), SearchFields, "down")
  {
    var row := SiteRow(s);
    assert Text.Lower("down") == "down";
    assert Text.Lower("Downtown Warehouse")[..4] == "down";
    assert DataTable.FieldMatches(row, SearchFields[0], "down");
  }

  /** The provider header is marked sortable, but its cell is computed, so a click changes nothing. */
  lemma ProviderHeaderDoesNotSort(st: DataTable.SortState)
    ensures DataTable.HandleSort(st, Columns[2]) == st
  {
  }

  /**
   * Name sorting: first click ascending, second click descending.
   */
  lemma NameSortToggles(a: Site, b: Site)
    requires a.name == "B" && b.name == "A"
    ensures var st1 := DataTable.HandleSort(DataTable.InitialSortState, Columns[0]);
            var st2 := DataTable.HandleSort(st1, Columns[0]);
            && DataTable.SortRows(st1, [SiteRow(a), SiteRow(b)]) == [SiteRow(b), SiteRow(a)]
            && DataTable.SortRows(st2, [SiteRow(a), SiteRow(b)]) == [SiteRow(a), SiteRow(b)]
  {
    var st1 := DataTable.HandleSort(DataTable.InitialSortState, Columns[0]);
    var st2 := DataTable.HandleSort(st1, Columns[0]);
    assert DataTable.CompareRows(st1, SiteRow(a), SiteRow(b)) == 1;
    assert DataTable.CompareRows(st2, SiteRow(a), SiteRow(b)) == -1;
  }
}
