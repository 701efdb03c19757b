/**
 * The entities of the insurance tracker and the date and linkage rules
 * shared by every view (src/lib/data.tsx).
 *
 * Dates are instants in integer milliseconds since the Unix epoch, the value
 * `Date.getTime()` returns. Collections are passed explicitly instead of
 * being read from module-level fixtures.
 */
module Domain {
  import opened Wrappers
  import Seqs
  import Entities

  /** Milliseconds since 1970-01-01T00:00:00Z. */
  type Instant = int

  const MsPerDay: int := 1000 * 3600 * 24

  /** The application's fixed "today": 2025-03-11T00:00:00Z. */
  const CurrentDate: Instant := 20158 * MsPerDay

  datatype Site = Site(id: int, name: string, address: string, insuranceGroupId: int)

  datatype InsuranceGroup = InsuranceGroup(id: int, provider: string, endDate: Instant)

  datatype InsuranceType = Normal | Special

  datatype Status = Pending | Approved | Denied

  datatype InsuranceRequest = InsuranceRequest(
    id: int,
    siteName: string,
    address: string,
    insuranceType: InsuranceType,
    specialDetails: Option<string>,
    requestDate: Instant,
    status: Status)

  // ---------------------------------------------------------------------
  // Expiry
  // ---------------------------------------------------------------------

  /**
   * Whole days from CurrentDate to `date`, rounded up (`Math.ceil`): the
   * smallest number of days whose length covers the remaining time. It is
   * negative once the date has passed.
   */
  function DaysUntil(date: Instant): (days: int)
    ensures (days - 1) * MsPerDay < date - CurrentDate <= days * MsPerDay
  {
    var diff := date - CurrentDate;
    -((-diff) / MsPerDay)
  }

  /** For a date at a whole-day offset from CurrentDate, the count is exact. */
  lemma DaysUntilWholeDays(days: int)
    ensures DaysUntil(CurrentDate + days * MsPerDay) == days
  {
    var d := DaysUntil(CurrentDate + days * MsPerDay);
    assert (d - 1) * MsPerDay < days * MsPerDay <= d * MsPerDay;
  }

  /** A later end date never leaves fewer days. */
  lemma DaysUntilMonotone(d1: Instant, d2: Instant)
    requires d1 <= d2
    ensures DaysUntil(d1) <= DaysUntil(d2)
  {
    var a, b := DaysUntil(d1), DaysUntil(d2);
    assert (a - 1) * MsPerDay < b * MsPerDay;
  }

  /**
   * `isExpiringSoon`: 30 days left or fewer, already-past dates included. In
   * plain time, the date lies at most 30 whole days after CurrentDate, with
   * no lower bound.
   */
  predicate IsExpiringSoon(date: Instant)
    ensures IsExpiringSoon(date) <==> date - CurrentDate <= 30 * MsPerDay
  {
    var d := DaysUntil(date);
    assert d > 30 ==> (d - 1) * MsPerDay >= 30 * MsPerDay;
    d <= 30
  }

  /** Moving an expiring date earlier keeps it expiring. */
  lemma ExpiringDownwardClosed(d1: Instant, d2: Instant)
    requires IsExpiringSoon(d2) && d1 <= d2
    ensures IsExpiringSoon(d1)
  {
    DaysUntilMonotone(d1, d2);
  }

  /** A date already in the past counts as expiring. */
  lemma PastDatesExpire(date: Instant)
    requires date < CurrentDate
    ensures DaysUntil(date) <= 0 && IsExpiringSoon(date)
  {
  }

  /** Boundary cases: 2025-04-10 is 30 days out and expiring, 2025-04-11 is 31 and is not, 2025-03-01 is -10 and expiring. */
  lemma ExpiryBoundaries()
    ensures DaysUntil(20188 * MsPerDay) == 30 && IsExpiringSoon(20188 * MsPerDay)
    ensures DaysUntil(20189 * MsPerDay) == 31 && !IsExpiringSoon(20189 * MsPerDay)
    ensures DaysUntil(20148 * MsPerDay) == -10 && IsExpiringSoon(20148 * MsPerDay)
  {
    DaysUntilWholeDays(30);
    DaysUntilWholeDays(31);
    DaysUntilWholeDays(-10);
  }

  // ---------------------------------------------------------------------
  // Linkage between sites and groups
  // ---------------------------------------------------------------------

  /** `sites.find(s => s.id === id)`. */
  function FindSite(sites: seq<Site>, id: int): Option<Site> {
    Entities.FindById(sites, id, (s: Site) => s.id)
  }

  /** `groups.find(g => g.id === id)`. */
  function FindGroup(groups: seq<InsuranceGroup>, id: int): Option<InsuranceGroup> {
    Entities.FindById(groups, id, (g: InsuranceGroup) => g.id)
  }

  /**
   * `getSiteInsuranceGroup(siteId)`: the group the first site with that id
   * points at. Nothing when no site has the id, and nothing when the site's
   * reference dangles.
   */
  function GetSiteInsuranceGroup(sites: seq<Site>, groups: seq<InsuranceGroup>, siteId: int)
    : (r: Option<InsuranceGroup>)
    ensures (forall i :: 0 <= i < |sites| ==> sites[i].id != siteId) ==> r.None?
    ensures FindSite(sites, siteId).Some? ==>
              var site := FindSite(sites, siteId).value;
              && (r.None? <==> forall k :: 0 <= k < |groups| ==> groups[k].id != site.insuranceGroupId)
              && (r.Some? ==> r.value in groups && r.value.id == site.insuranceGroupId)
              && (r.Some? ==> exists k :: 0 <= k < |groups| && groups[k] == r.value
                                         && forall j :: 0 <= j < k ==> groups[j].id != site.insuranceGroupId)
  {
    match FindSite(sites, siteId)
    case None => None
    case Some(site) => FindGroup(groups, site.insuranceGroupId)
  }

  /** `getInsuranceGroupSites(groupId)`: the sites that reference the group, in their original order. */
  function GetInsuranceGroupSites(sites: seq<Site>, groupId: int): (r: seq<Site>)
    ensures forall i :: 0 <= i < |r| ==> r[i] in sites && r[i].insuranceGroupId == groupId
    ensures forall i :: 0 <= i < |sites| && sites[i].insuranceGroupId == groupId ==> sites[i] in r
    ensures Seqs.IsSubsequence(r, sites)
    ensures forall x :: multiset(r)[x] == if x.insuranceGroupId == groupId then multiset(sites)[x] else 0
  {
    var references := (s: Site) => s.insuranceGroupId == groupId;
    Seqs.FilterMultiset(sites, references);
    Seqs.Filter(sites, references)
  }

  /** A group has linked sites exactly when some site references it. */
  lemma GroupSitesEmptyIff(sites: seq<Site>, groupId: int)
    ensures |GetInsuranceGroupSites(sites, groupId)| == 0
            <==> forall i :: 0 <= i < |sites| ==> sites[i].insuranceGroupId != groupId
  {
    var r := GetInsuranceGroupSites(sites, groupId);
    if |r| > 0 {
      assert r[0] in sites;
    }
  }
}
