/**
 * The dashboard's derived views: the expiring-sites and latest-end-date
 * lists (src/pages/Index.tsx) and the statistics cards
 * (src/components/dashboard/DashboardStats.tsx).
 */
module Dashboard {
  import opened Wrappers
  import opened Domain
  import Seqs

  /** How many entries each dashboard list shows. */
  const ListLength: nat := 5

  // ---------------------------------------------------------------------
  // Lists (Index)
  // ---------------------------------------------------------------------

  /** The site's group resolves and is expiring soon. */
  predicate SiteExpiring(sites: seq<Site>, groups: seq<InsuranceGroup>, site: Site) {
    match GetSiteInsuranceGroup(sites, groups, site.id)
    case Some(g) => IsExpiringSoon(g.endDate)
    case None => false
  }

  function QualifyingSites(sites: seq<Site>, groups: seq<InsuranceGroup>): seq<Site> {
    Seqs.Filter(sites, (s: Site) => SiteExpiring(sites, groups, s))
  }

  /**
   * `expiringSites`: the first five sites, in list order, whose group
   * resolves and expires soon.
   */
  function ExpiringSites(sites: seq<Site>, groups: seq<InsuranceGroup>): (r: seq<Site>)
    ensures |r| <= ListLength
    ensures Seqs.IsSubsequence(r, sites)
    ensures forall i :: 0 <= i < |r| ==> SiteExpiring(sites, groups, r[i])
    ensures r <= QualifyingSites(sites, groups)
    ensures |r| < ListLength ==> r == QualifyingSites(sites, groups)
  {
    var q := QualifyingSites(sites, groups);
    var r := Seqs.Take(q, ListLength);
    Seqs.PrefixOfSubsequence(q, sites, |r|);
    assert r == q[..|r|];
    r
  }

  /** A site listed as expiring has a group, and that group's end date is at most 30 days away. */
  lemma ExpiringSiteHasExpiringGroup(sites: seq<Site>, groups: seq<InsuranceGroup>, i: int)
    requires 0 <= i < |ExpiringSites(sites, groups)|
    ensures var site := ExpiringSites(sites, groups)[i];
            var g := GetSiteInsuranceGroup(sites, groups, site.id);
            g.Some? && g.value in groups && g.value.endDate - CurrentDate <= 30 * MsPerDay
  {
    var site := ExpiringSites(sites, groups)[i];
    assert SiteExpiring(sites, groups, site);
  }

  /** `(a, b) => b.endDate.getTime() - a.endDate.getTime()`: latest end date first. */
  function LaterFirst(a: InsuranceGroup, b: InsuranceGroup): int {
    b.endDate - a.endDate
  }

  lemma LaterFirstIsPreorder(groups: seq<InsuranceGroup>)
    ensures Seqs.TotalPreorderOn(groups, LaterFirst)
  {
  }

  /** Cutting an ordered list: nothing in the part cut off sorts before the last element kept. */
  lemma CutOffEndsNoLater(sorted: seq<InsuranceGroup>, n: nat)
    requires 0 < n <= |sorted|
    requires Seqs.SortedBy(sorted, LaterFirst)
    ensures forall g :: g in multiset(sorted) - multiset(sorted[..n]) ==> g.endDate <= sorted[n - 1].endDate
  {
    var rest := sorted[n..];
    assert sorted == sorted[..n] + rest;
    assert multiset(sorted) == multiset(sorted[..n]) + multiset(rest);
    forall g | g in multiset(sorted) - multiset(sorted[..n])
      ensures g.endDate <= sorted[n - 1].endDate
    {
      assert g in multiset(rest);
      var k :| 0 <= k < |rest| && rest[k] == g;
      assert sorted[n + k] == g;
      assert LaterFirst(sorted[n - 1], sorted[n + k]) <= 0;
    }
  }

  /** The groups taken from the sorted copy are in end-date order, latest first. */
  lemma RecentGroupsOrdered(groups: seq<InsuranceGroup>, sorted: seq<InsuranceGroup>, r: seq<InsuranceGroup>)
    requires sorted == Seqs.SortBy(groups, LaterFirst)
    requires r == Seqs.Take(sorted, ListLength)
    ensures forall i, j :: 0 <= i < j < |r| ==> r[i].endDate >= r[j].endDate
  {
    LaterFirstIsPreorder(groups);
    Seqs.SortBySorted(groups, LaterFirst);
    assert r == sorted[..|r|];
    forall i, j | 0 <= i < j < |r|
      ensures r[i].endDate >= r[j].endDate
    {
      assert LaterFirst(sorted[i], sorted[j]) <= 0;
    }
  }

  /** The groups taken from the sorted copy are drawn from the collection. */
  lemma RecentGroupsDrawn(groups: seq<InsuranceGroup>, sorted: seq<InsuranceGroup>, r: seq<InsuranceGroup>)
    requires sorted == Seqs.SortBy(groups, LaterFirst)
    requires r == Seqs.Take(sorted, ListLength)
    ensures multiset(r) <= multiset(groups)
  {
    assert sorted == r + sorted[|r|..];
    assert multiset(sorted) == multiset(r) + multiset(sorted[|r|..]);
  }

  /** No group left out of the cut ends later than the last group kept. */
  lemma RecentGroupsNothingLaterLeft(groups: seq<InsuranceGroup>, sorted: seq<InsuranceGroup>,
                                     r: seq<InsuranceGroup>)
    requires sorted == Seqs.SortBy(groups, LaterFirst)
    requires r == Seqs.Take(sorted, ListLength) && |r| > 0
    ensures forall g :: g in multiset(groups) - multiset(r) ==> g.endDate <= r[|r| - 1].endDate
  {
    LaterFirstIsPreorder(groups);
    Seqs.SortBySorted(groups, LaterFirst);
    assert r == sorted[..|r|];
    CutOffEndsNoLater(sorted, |r|);
  }

  /**
   * `recentGroups`: a copy of the groups sorted by end date, latest first,
   * cut to five. No group left out ends later than the last one shown.
   */
  function RecentGroups(groups: seq<InsuranceGroup>): (r: seq<InsuranceGroup>)
    ensures |r| == if |groups| < ListLength then |groups| else ListLength
    ensures forall i, j :: 0 <= i < j < |r| ==> r[i].endDate >= r[j].endDate
    ensures multiset(r) <= multiset(groups)
    ensures |r| > 0 ==> forall g :: g in multiset(groups) - multiset(r) ==> g.endDate <= r[|r| - 1].endDate
  {
    var sorted := Seqs.SortBy(groups, LaterFirst);
    var r := Seqs.Take(sorted, ListLength);
    RecentGroupsOrdered(groups, sorted, r);
    RecentGroupsDrawn(groups, sorted, r);
    if |r| > 0 then
      RecentGroupsNothingLaterLeft(groups, sorted, r);
      r
    else
      r
  }

  // ---------------------------------------------------------------------
  // Statistics cards (DashboardStats)
  // ---------------------------------------------------------------------

  function StatusOf(r: InsuranceRequest): Status {
    r.status
  }

  /** `requests.filter(r => r.status === status).length`: how often the status occurs among the requests. */
  function CountStatus(requests: seq<InsuranceRequest>, status: Status): (n: nat)
    ensures n <= |requests|
    ensures n == multiset(Seqs.Map(requests, StatusOf))[status]
  {
    var hasStatus := (r: InsuranceRequest) => r.status == status;
    Seqs.FilterLengthIsMultiplicity(requests, hasStatus, StatusOf, status);
    |Seqs.Filter(requests, hasStatus)|
  }

  /** Every request is exactly one of Pending, Approved or Denied, so the three counts add up. */
  lemma {:induction false} StatusCountsCoverAll(requests: seq<InsuranceRequest>)
    ensures CountStatus(requests, Pending) + CountStatus(requests, Approved) + CountStatus(requests, Denied)
            == |requests|
    decreases |requests|
  {
    if |requests| > 0 {
      StatusCountsCoverAll(requests[1..]);
    }
  }

  /** `Math.round(part / total * 100)` on exact rationals: the nearest integer, halves rounded up. */
  function RoundPercent(part: nat, total: nat): (p: int)
    requires total > 0
    ensures 2 * total * p <= 200 * part + total < 2 * total * (p + 1)
    ensures part <= total ==> 0 <= p <= 100
  {
    var p := (200 * part + total) / (2 * total);
    assert part <= total ==> 200 * part + total < 2 * total * 101;
    p
  }

  datatype Stats = Stats(
    totalSites: nat,
    totalGroups: nat,
    expiringGroups: nat,
    pendingRequests: nat,
    approvedRequests: nat,
    deniedRequests: nat,
    expiringPercentage: Option<int>)   // NaN when there are no groups

  predicate GroupExpiring(g: InsuranceGroup) {
    IsExpiringSoon(g.endDate)
  }

  /**
   * The numbers the four cards show. The expiring count is how many groups
   * are expiring soon, each status count how many requests have that status,
   * and the percentage is the rounded share of expiring groups.
   */
  function ComputeStats(sites: seq<Site>, groups: seq<InsuranceGroup>, requests: seq<InsuranceRequest>)
    : (s: Stats)
    ensures s.totalSites == |sites| && s.totalGroups == |groups|
    ensures s.expiringGroups == multiset(Seqs.Map(groups, GroupExpiring))[true]
    ensures s.expiringGroups <= s.totalGroups
    ensures forall i :: 0 <= i < |groups| && IsExpiringSoon(groups[i].endDate) ==> s.expiringGroups > 0
    ensures s.pendingRequests == multiset(Seqs.Map(requests, StatusOf))[Pending]
    ensures s.approvedRequests == multiset(Seqs.Map(requests, StatusOf))[Approved]
    ensures s.deniedRequests == multiset(Seqs.Map(requests, StatusOf))[Denied]
    ensures s.pendingRequests + s.approvedRequests + s.deniedRequests == |requests|
    ensures s.expiringPercentage.Some? <==> |groups| > 0
    ensures |groups| > 0 ==> s.expiringPercentage == Some(RoundPercent(s.expiringGroups, s.totalGroups))
    ensures s.expiringPercentage.Some? ==> 0 <= s.expiringPercentage.value <= 100
  {
    var expiring := Seqs.Filter(groups, GroupExpiring);
    Seqs.FilterLengthIsMultiplicity(groups, GroupExpiring, GroupExpiring, true);
    StatusCountsCoverAll(requests);
    Stats(|sites|, |groups|, |expiring|,
          CountStatus(requests, Pending), CountStatus(requests, Approved), CountStatus(requests, Denied),
          if |groups| > 0 then Some(RoundPercent(|expiring|, |groups|)) else None)
  }
}
