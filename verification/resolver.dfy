/** The temporal resolver: what a version specifier would have resolved to on
    a past reference date, and whether the highest matching version was also
    the most recently uploaded one. */
module Resolver {
  import Seqs
  import Versions
  import Dates
  import opened Releases

  /** The result for one requirement.
      `Resolved(v)`: `v` is both the highest matching version and the version
      of the latest matching upload. `NonMonotonic(h, l)`: the highest matching
      version `h` is not the version `l` of the latest matching upload. */
  datatype Outcome =
    | NoMatch
    | Resolved(version: Versions.Version)
    | NonMonotonic(highest: Versions.Version, latest: Versions.Version)
  {
    function Highest(): Versions.Version
      requires !NoMatch?
    {
      if Resolved? then version else highest
    }

    function Latest(): Versions.Version
      requires !NoMatch?
    {
      if Resolved? then version else latest
    }
  }

  /** Uploaded on or before the reference date: the cutoff is inclusive. */
  predicate OnOrBefore(r: Release, referenceDate: Dates.Date) {
    Dates.Le(r.uploadDate, referenceDate)
  }

  /** Available on the reference date and accepted by the specifier. */
  predicate Qualifies(r: Release, matches: Versions.Version -> bool, referenceDate: Dates.Date) {
    OnOrBefore(r, referenceDate) && matches(r.version)
  }

  /** `releases_to_date`: exactly the releases uploaded on or before the
      reference date, in their original order. */
  function ReleasesToDate(rs: seq<Release>, referenceDate: Dates.Date): (r: seq<Release>)
    ensures forall x :: x in r ==> x in rs && OnOrBefore(x, referenceDate)
    ensures forall x :: x in rs && OnOrBefore(x, referenceDate) ==> x in r
    ensures Seqs.IsSubsequence(r, rs)
  {
    Seqs.Filter(rs, x => OnOrBefore(x, referenceDate))
  }

  /** The releases that are available on the reference date and accepted by
      the specifier, in their original order. */
  function QualifyingReleases(rs: seq<Release>, matches: Versions.Version -> bool, referenceDate: Dates.Date)
    : (q: seq<Release>)
    ensures forall x :: x in q ==> x in rs && Qualifies(x, matches, referenceDate)
    ensures forall x :: x in rs && Qualifies(x, matches, referenceDate) ==> x in q
    ensures Seqs.IsSubsequence(q, rs)
  {
    Seqs.Filter(rs, x => Qualifies(x, matches, referenceDate))
  }

  /** `r.version`, as a function value. */
  const VersionOf: Release -> Versions.Version := (r: Release) => r.version

  /** `matching_versions`: the specifier applied to the versions of the
      available releases. */
  function MatchingVersions(available: seq<Release>, matches: Versions.Version -> bool)
    : (vs: seq<Versions.Version>)
    ensures forall v :: v in vs ==> matches(v) && exists x :: x in available && x.version == v
    ensures forall x :: x in available && matches(x.version) ==> x.version in vs
  {
    var vs := Seqs.Filter(Seqs.Map(available, VersionOf), matches);
    forall v | v in vs
      ensures exists x :: x in available && x.version == v
    {
      var k :| 0 <= k < |available| && Seqs.Map(available, VersionOf)[k] == v;
    }
    forall x | x in available && matches(x.version)
      ensures x.version in vs
    {
      var k :| 0 <= k < |available| && available[k] == x;
      assert Seqs.Map(available, VersionOf)[k] == x.version;
    }
    vs
  }

  /** `matching_releases`: the available releases whose version is one of the
      matching versions. */
  function MatchingReleases(available: seq<Release>, matches: Versions.Version -> bool): seq<Release>
  {
    var vs := MatchingVersions(available, matches);
    Seqs.Filter(available, (x: Release) => x.version in vs)
  }

  /** The matching releases are the available releases the specifier accepts. */
  lemma MatchingReleasesMatch(available: seq<Release>, matches: Versions.Version -> bool)
    ensures MatchingReleases(available, matches) == Seqs.Filter(available, (x: Release) => matches(x.version))
  {
    var vs := MatchingVersions(available, matches);
    Seqs.FilterCongruent(available, (x: Release) => x.version in vs, (x: Release) => matches(x.version));
  }

  /** On the reference date, the matching releases are precisely the
      qualifying releases, in order. */
  lemma MatchingReleasesQualify(rs: seq<Release>, matches: Versions.Version -> bool, referenceDate: Dates.Date)
    ensures MatchingReleases(ReleasesToDate(rs, referenceDate), matches) == QualifyingReleases(rs, matches, referenceDate)
  {
    MatchingReleasesMatch(ReleasesToDate(rs, referenceDate), matches);
    Seqs.FilterFilter(rs, x => OnOrBefore(x, referenceDate), (x: Release) => matches(x.version),
                      x => Qualifies(x, matches, referenceDate));
  }

  /** The matching versions are the versions of the matching releases, so one
      list is empty exactly when the other is. */
  lemma MatchingVersionsOfReleases(available: seq<Release>, matches: Versions.Version -> bool)
    ensures var vs := MatchingVersions(available, matches);
            var mr := MatchingReleases(available, matches);
      && |vs| == |mr|
      && forall k :: 0 <= k < |mr| ==> vs[k] == mr[k].version
  {
    var matching := (x: Release) => matches(x.version);
    Seqs.FilterMap(available, VersionOf, matches, matching);
    MatchingReleasesMatch(available, matches);
  }

  /** `max(matching_releases, key=lambda r: r.upload_date)`: the position of the
      first release carrying the latest upload date. */
  function LatestIndex(rs: seq<Release>): (i: nat)
    requires |rs| > 0
    ensures i < |rs|
    ensures forall j :: 0 <= j < |rs| ==> Dates.Le(rs[j].uploadDate, rs[i].uploadDate)
    ensures forall j :: 0 <= j < i ==> Dates.Lt(rs[j].uploadDate, rs[i].uploadDate)
  {
    if |rs| == 1 then 0
    else
      var init := rs[..|rs| - 1];
      var k := LatestIndex(init);
      assert forall j :: 0 <= j < |rs| - 1 ==> rs[j] == init[j];
      if Dates.Lt(rs[k].uploadDate, rs[|rs| - 1].uploadDate) then |rs| - 1 else k
  }

  /** `v` is the highest version among the releases `mr`. */
  predicate IsHighest(v: Versions.Version, mr: seq<Release>)
  {
    && (exists i :: 0 <= i < |mr| && mr[i].version == v)
    && (forall i :: 0 <= i < |mr| ==> Versions.Le(mr[i].version, v))
  }

  /** `v` is the version of the first of the releases `mr` carrying the latest upload date. */
  predicate IsFirstLatestUpload(v: Versions.Version, mr: seq<Release>)
  {
    exists i :: 0 <= i < |mr| && mr[i].version == v
      && (forall j :: 0 <= j < |mr| ==> Dates.Le(mr[j].uploadDate, mr[i].uploadDate))
      && (forall j :: 0 <= j < i ==> Dates.Lt(mr[j].uploadDate, mr[i].uploadDate))
  }

  /** One of the releases `mr` has a higher version than `v`. */
  predicate Outranked(v: Versions.Version, mr: seq<Release>)
  {
    exists i :: 0 <= i < |mr| && Versions.Lt(v, mr[i].version)
  }

  /** Lines 156-170 of the resolution loop, on the releases available on the
      reference date. */
  function ResolveAvailable(available: seq<Release>, matches: Versions.Version -> bool): (o: Outcome)
    ensures var mr := MatchingReleases(available, matches);
      && (o.NoMatch? <==> |mr| == 0)
      && (!o.NoMatch? ==> IsHighest(o.Highest(), mr))
      && (!o.NoMatch? ==> IsFirstLatestUpload(o.Latest(), mr))
      && (!o.NoMatch? ==> (o.NonMonotonic? <==> Outranked(o.Latest(), mr)))
      && (o.NonMonotonic? ==> o.highest != o.latest)
  {
    var vs := MatchingVersions(available, matches);
    var mr := MatchingReleases(available, matches);
    MatchingVersionsOfReleases(available, matches);
    if |vs| == 0 then
      NoMatch
    else
      var highest := Versions.Max(vs);
      var i := LatestIndex(mr);
      var latest := mr[i].version;
      HighestAndLatest(vs, mr, highest, i);
      if highest != latest then NonMonotonic(highest, latest) else Resolved(highest)
  }

  lemma HighestAndLatest(vs: seq<Versions.Version>, mr: seq<Release>, highest: Versions.Version, i: nat)
    requires |vs| == |mr| && forall k :: 0 <= k < |mr| ==> vs[k] == mr[k].version
    requires highest in vs && forall k :: 0 <= k < |vs| ==> Versions.Le(vs[k], highest)
    requires i < |mr|
    requires forall j :: 0 <= j < |mr| ==> Dates.Le(mr[j].uploadDate, mr[i].uploadDate)
    requires forall j :: 0 <= j < i ==> Dates.Lt(mr[j].uploadDate, mr[i].uploadDate)
    ensures IsHighest(highest, mr)
    ensures IsFirstLatestUpload(mr[i].version, mr)
    ensures highest != mr[i].version <==> Outranked(mr[i].version, mr)
  {
    var a :| 0 <= a < |vs| && vs[a] == highest;
    assert mr[a].version == highest;
    Versions.LeIsTotalOrder();
    assert highest != mr[i].version ==> Versions.Lt(mr[i].version, mr[a].version);
  }

  /** The resolution of one requirement against a package's releases as of the
      reference date (lines 155-170). */
  function Resolve(rs: seq<Release>, matches: Versions.Version -> bool, referenceDate: Dates.Date)
    : (o: Outcome)
    ensures o.NoMatch? <==> forall x :: x in rs ==> !Qualifies(x, matches, referenceDate)
    ensures var q := QualifyingReleases(rs, matches, referenceDate);
      && (!o.NoMatch? ==> IsHighest(o.Highest(), q))
      && (!o.NoMatch? ==> IsFirstLatestUpload(o.Latest(), q))
      && (!o.NoMatch? ==> (o.NonMonotonic? <==> Outranked(o.Latest(), q)))
    ensures o.NonMonotonic? ==> o.highest != o.latest
  {
    MatchingReleasesQualify(rs, matches, referenceDate);
    var o := ResolveAvailable(ReleasesToDate(rs, referenceDate), matches);
    var q := QualifyingReleases(rs, matches, referenceDate);
    assert o.NoMatch? <==> |q| == 0;
    assert |q| > 0 ==> q[0] in rs;
    o
  }

  /** Resolving against the releases already cut off at the reference date
      gives the same outcome: the cutoff is the only use of the date. */
  lemma ResolveAfterCutoff(rs: seq<Release>, matches: Versions.Version -> bool, referenceDate: Dates.Date)
    ensures Resolve(ReleasesToDate(rs, referenceDate), matches, referenceDate) == Resolve(rs, matches, referenceDate)
  {
    Seqs.FilterIdempotent(rs, x => OnOrBefore(x, referenceDate));
  }

  /** Releases uploaded after the reference date, wherever they appear in the
      metadata, never change the outcome. */
  lemma LaterReleasesIgnored(before: seq<Release>, later: seq<Release>, after: seq<Release>,
                             matches: Versions.Version -> bool, referenceDate: Dates.Date)
    requires forall i :: 0 <= i < |later| ==> Dates.Lt(referenceDate, later[i].uploadDate)
    ensures Resolve(before + later + after, matches, referenceDate) == Resolve(before + after, matches, referenceDate)
  {
    CutoffDropsLater(before, later, after, referenceDate);
  }

  lemma CutoffDropsLater(before: seq<Release>, later: seq<Release>, after: seq<Release>, referenceDate: Dates.Date)
    requires forall i :: 0 <= i < |later| ==> Dates.Lt(referenceDate, later[i].uploadDate)
    ensures ReleasesToDate(before + later + after, referenceDate) == ReleasesToDate(before + after, referenceDate)
  {
    var p := x => OnOrBefore(x, referenceDate);
    Seqs.FilterAppend(before + later, after, p);
    Seqs.FilterAppend(before, later, p);
    Seqs.FilterAppend(before, after, p);
    var none := Seqs.Filter(later, p);
    Seqs.FilterNone(later, p);
    assert Seqs.Filter(before, p) + none == Seqs.Filter(before, p);
  }

  /** When, among the qualifying releases, a higher version was always
      uploaded strictly later, the highest version is also the latest one. */
  lemma MonotonicHistoryResolves(rs: seq<Release>, matches: Versions.Version -> bool, referenceDate: Dates.Date)
    requires forall x, y ::
               (x in rs && y in rs && Qualifies(x, matches, referenceDate) && Qualifies(y, matches, referenceDate)
                && Versions.Lt(x.version, y.version)) ==> Dates.Lt(x.uploadDate, y.uploadDate)
    ensures !Resolve(rs, matches, referenceDate).NonMonotonic?
  {
  }

  /** A non-monotonic outcome is always backed by two qualifying releases
      whose orders disagree: the highest version was uploaded no later than
      a lower one. */
  lemma NonMonotonicWitness(rs: seq<Release>, matches: Versions.Version -> bool, referenceDate: Dates.Date)
    requires Resolve(rs, matches, referenceDate).NonMonotonic?
    ensures var o := Resolve(rs, matches, referenceDate);
      exists x, y :: x in rs && y in rs
        && Qualifies(x, matches, referenceDate) && Qualifies(y, matches, referenceDate)
        && x.version == o.latest && y.version == o.highest
        && Versions.Lt(x.version, y.version) && Dates.Le(y.uploadDate, x.uploadDate)
  {
    var o := Resolve(rs, matches, referenceDate);
    var q := QualifyingReleases(rs, matches, referenceDate);
    var i :| 0 <= i < |q| && q[i].version == o.latest
      && forall j :: 0 <= j < |q| ==> Dates.Le(q[j].uploadDate, q[i].uploadDate);
    var h :| 0 <= h < |q| && q[h].version == o.highest;
    assert q[i] in q && q[h] in q;
    Versions.LeIsTotalOrder();
    assert Versions.Lt(q[i].version, q[h].version);
  }

  /** Two qualifying releases, the higher version uploaded strictly first:
      the higher one is the highest, the lower one the latest. */
  lemma BackportOfTwo(newer: Release, backport: Release, matches: Versions.Version -> bool, referenceDate: Dates.Date)
    requires Qualifies(newer, matches, referenceDate) && Qualifies(backport, matches, referenceDate)
    requires Versions.Lt(backport.version, newer.version)
    requires Dates.Lt(newer.uploadDate, backport.uploadDate)
    ensures Resolve([newer, backport], matches, referenceDate) == NonMonotonic(newer.version, backport.version)
  {
    var rs := [newer, backport];
    Seqs.FilterAll(rs, x => Qualifies(x, matches, referenceDate));
    assert rs[0] in rs;
    OutcomeOfTwo(rs, Resolve(rs, matches, referenceDate));
  }

  lemma OutcomeOfTwo(rs: seq<Release>, o: Outcome)
    requires |rs| == 2 && Versions.Lt(rs[1].version, rs[0].version) && Dates.Lt(rs[0].uploadDate, rs[1].uploadDate)
    requires !o.NoMatch? && IsHighest(o.Highest(), rs) && IsFirstLatestUpload(o.Latest(), rs)
    requires o.NonMonotonic? ==> o.highest != o.latest
    ensures o == NonMonotonic(rs[0].version, rs[1].version)
  {
    if o.Highest() != rs[0].version {
      assert Versions.Le(rs[0].version, rs[1].version);
      Versions.LexLeAntisymmetric(rs[0].version.release, rs[1].version.release);
    }
  }

  /** A back-port uploaded after a newer release: version 0.1.3 first, then
      0.1.2. With every version accepted, 0.1.3 is the highest and 0.1.2 the
      latest, so the outcome is non-monotonic. The version numbers are those of
      the lpips example; the upload and reference dates are illustrative. */
  lemma BackportIsNonMonotonic()
    ensures var rs := [Release(Versions.Version([0, 1, 3]), Dates.Date(2020, 11, 26)),
                       Release(Versions.Version([0, 1, 2]), Dates.Date(2021, 1, 6))];
      Resolve(rs, _ => true, Dates.Date(2021, 2, 15))
        == NonMonotonic(Versions.Version([0, 1, 3]), Versions.Version([0, 1, 2]))
  {
    var newer := Release(Versions.Version([0, 1, 3]), Dates.Date(2020, 11, 26));
    var backport := Release(Versions.Version([0, 1, 2]), Dates.Date(2021, 1, 6));
    assert Versions.Lt(backport.version, newer.version);
    BackportOfTwo(newer, backport, _ => true, Dates.Date(2021, 2, 15));
  }
}
