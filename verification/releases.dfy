/** Release metadata: reducing a package index's per-version artifact lists to
    one release per version, dated by its earliest artifact upload. */
module Releases {
  import opened Wrappers
  import Seqs
  import Versions
  import Dates

  /** One uploaded file of a version; only its upload timestamp is read. */
  datatype Artifact = Artifact(uploadTime: string)

  /** One `releases` entry of the index response: a version string and the
      artifacts uploaded for it, in the response's key order. */
  datatype Entry = Entry(versionName: string, artifacts: seq<Artifact>)

  /** A version that has at least one artifact, with its earliest upload date. */
  datatype Release = Release(version: Versions.Version, uploadDate: Dates.Date)

  /** What makes the reduction raise. */
  datatype MetadataError =
    | InvalidVersion(versionName: string)
    | InvalidUploadTime(uploadTime: string)

  /** How a version string is parsed (`packaging.version.parse`) and how an
      artifact's upload timestamp is read (`get_release_date`, which is
      `Dates.UploadDate`); `None` where they raise. */
  type VersionParser = string -> Option<Versions.Version>
  type DateReader = string -> Option<Dates.Date>

  /** The entries that yield a release: those with at least one artifact. */
  const HasArtifacts: Entry -> bool := (e: Entry) => |e.artifacts| > 0

  /** `map(get_release_date, release_list)`: each artifact's upload date, or
      `None` where `get_release_date` raises. */
  function ArtifactDates(arts: seq<Artifact>, releaseDate: DateReader): (ds: seq<Option<Dates.Date>>)
    ensures |ds| == |arts|
    ensures forall k :: 0 <= k < |arts| ==> ds[k] == releaseDate(arts[k].uploadTime)
  {
    if |arts| == 0 then [] else [releaseDate(arts[0].uploadTime)] + ArtifactDates(arts[1..], releaseDate)
  }

  predicate AllParsed(ds: seq<Option<Dates.Date>>) {
    forall k :: 0 <= k < |ds| ==> ds[k].Some?
  }

  /** The entry can be reduced without raising. */
  predicate EntryValid(e: Entry, parseVersion: VersionParser, releaseDate: DateReader) {
    parseVersion(e.versionName).Some? && AllParsed(ArtifactDates(e.artifacts, releaseDate))
  }

  /** The error the reduction raises on an entry: the version string is parsed
      first, then the artifacts' timestamps in order. */
  function EntryError(e: Entry, parseVersion: VersionParser, releaseDate: DateReader): Option<MetadataError>
  {
    if parseVersion(e.versionName).None? then Some(InvalidVersion(e.versionName))
    else FirstUploadTimeError(e.artifacts, releaseDate)
  }

  /** The first artifact timestamp that does not parse, as the error it raises. */
  function FirstUploadTimeError(arts: seq<Artifact>, releaseDate: DateReader): (r: Option<MetadataError>)
    ensures r.None? <==> AllParsed(ArtifactDates(arts, releaseDate))
    ensures r.Some? ==> exists k :: 0 <= k < |arts| && ArtifactDates(arts, releaseDate)[k].None?
                                    && (forall j :: 0 <= j < k ==> ArtifactDates(arts, releaseDate)[j].Some?)
                                    && r.value == InvalidUploadTime(arts[k].uploadTime)
  {
    if |arts| == 0 then None
    else
      var ds := ArtifactDates(arts, releaseDate);
      assert forall k :: 1 <= k < |arts| ==> ds[k] == ArtifactDates(arts[1..], releaseDate)[k - 1];
      if releaseDate(arts[0].uploadTime).None? then
        assert ds[0].None?;
        Some(InvalidUploadTime(arts[0].uploadTime))
      else
        FirstUploadTimeError(arts[1..], releaseDate)
  }

  /** `rel` is the release the entry reduces to: the parsed version, dated by
      the earliest of its artifacts' upload dates. */
  predicate ReleaseOf(e: Entry, rel: Release, parseVersion: VersionParser, releaseDate: DateReader)
  {
    var ds := ArtifactDates(e.artifacts, releaseDate);
    && parseVersion(e.versionName) == Some(rel.version)
    && (exists k :: 0 <= k < |ds| && ds[k] == Some(rel.uploadDate))
    && forall k :: 0 <= k < |ds| ==> ds[k].Some? && Dates.Le(rel.uploadDate, ds[k].value)
  }

  function Unwrap(ds: seq<Option<Dates.Date>>): (r: seq<Dates.Date>)
    requires AllParsed(ds)
    ensures |r| == |ds|
    ensures forall k :: 0 <= k < |ds| ==> ds[k] == Some(r[k])
  {
    if |ds| == 0 then [] else [ds[0].value] + Unwrap(ds[1..])
  }

  /** `min(map(get_release_date, release_list), default=None)`: the earliest
      upload date, `None` for an empty list, or the error of the first
      timestamp that does not parse. */
  function EarliestUpload(arts: seq<Artifact>, releaseDate: DateReader): (r: Result<Option<Dates.Date>, MetadataError>)
    ensures r.Ok? <==> AllParsed(ArtifactDates(arts, releaseDate))
    ensures r.Err? ==> Some(r.error) == FirstUploadTimeError(arts, releaseDate)
    ensures r.Ok? ==> (r.value.Some? <==> |arts| > 0)
    ensures r.Ok? && r.value.Some? ==>
      var ds := ArtifactDates(arts, releaseDate);
      && (exists k :: 0 <= k < |ds| && ds[k] == r.value)
      && forall k :: 0 <= k < |ds| ==> Dates.Le(r.value.value, ds[k].value)
  {
    match FirstUploadTimeError(arts, releaseDate)
    case Some(err) => Err(err)
    case None =>
      var ds := Unwrap(ArtifactDates(arts, releaseDate));
      if |ds| == 0 then Ok(None)
      else
        var m := Dates.Min(ds);
        assert exists k :: 0 <= k < |ds| && ds[k] == m;
        Ok(Some(m))
  }

  /** `ProjectRelease.parse_project_metadata`: one release per entry that has
      artifacts, in entry order; entries without artifacts are skipped. The
      first version string or timestamp that does not parse aborts the whole
      reduction. */
  function ParseProjectMetadata(entries: seq<Entry>, parseVersion: VersionParser, releaseDate: DateReader)
    : (r: Result<seq<Release>, MetadataError>)
    ensures r.Ok? <==> forall i :: 0 <= i < |entries| ==> EntryValid(entries[i], parseVersion, releaseDate)
    ensures r.Ok? ==> |r.value| <= |entries|
  {
    if |entries| == 0 then Ok([])
    else
      var e := entries[0];
      var rest := ParseProjectMetadata(entries[1..], parseVersion, releaseDate);
      AllValidCons(entries, parseVersion, releaseDate);
      match parseVersion(e.versionName)
      case None =>
        Err(InvalidVersion(e.versionName))
      case Some(v) =>
        match EarliestUpload(e.artifacts, releaseDate)
        case Err(err) => Err(err)
        case Ok(earliest) =>
          if rest.Err? then Err(rest.error)
          else if earliest.Some? then Ok([Release(v, earliest.value)] + rest.value)
          else Ok(rest.value)
  }

  lemma AllValidCons(entries: seq<Entry>, parseVersion: VersionParser, releaseDate: DateReader)
    requires |entries| > 0
    ensures (forall i :: 0 <= i < |entries| ==> EntryValid(entries[i], parseVersion, releaseDate))
        <==> (&& EntryValid(entries[0], parseVersion, releaseDate)
              && forall i :: 0 <= i < |entries[1..]| ==> EntryValid(entries[1..][i], parseVersion, releaseDate))
  {
    if forall i :: 0 <= i < |entries[1..]| ==> EntryValid(entries[1..][i], parseVersion, releaseDate) {
      forall i | 1 <= i < |entries|
        ensures EntryValid(entries[i], parseVersion, releaseDate)
      {
        assert entries[i] == entries[1..][i - 1];
      }
    }
  }

  /** On success, the i-th release comes from the i-th entry that has artifacts. */
  lemma {:induction false} ParseProjectMetadataReleases(entries: seq<Entry>, parseVersion: VersionParser, releaseDate: DateReader)
    requires ParseProjectMetadata(entries, parseVersion, releaseDate).Ok?
    ensures var out := ParseProjectMetadata(entries, parseVersion, releaseDate).value;
            var kept := Seqs.Filter(entries, HasArtifacts);
      && |out| == |kept|
      && forall i :: 0 <= i < |kept| ==> ReleaseOf(kept[i], out[i], parseVersion, releaseDate)
  {
    if |entries| > 0 {
      var e := entries[0];
      ParseProjectMetadataReleases(entries[1..], parseVersion, releaseDate);
      var rest := ParseProjectMetadata(entries[1..], parseVersion, releaseDate).value;
      var keptRest := Seqs.Filter(entries[1..], HasArtifacts);
      var out := ParseProjectMetadata(entries, parseVersion, releaseDate).value;
      assert EntryValid(e, parseVersion, releaseDate);
      if HasArtifacts(e) {
        var rel := HeadRelease(entries, parseVersion, releaseDate);
        assert out == [rel] + rest;
        assert Seqs.Filter(entries, HasArtifacts) == [e] + keptRest;
        KeptCons(e, rel, rest, keptRest, parseVersion, releaseDate);
      } else {
        assert out == rest;
        assert Seqs.Filter(entries, HasArtifacts) == keptRest;
      }
    }
  }

  /** An entry with artifacts at the head yields the first release. */
  lemma HeadRelease(entries: seq<Entry>, parseVersion: VersionParser, releaseDate: DateReader) returns (rel: Release)
    requires ParseProjectMetadata(entries, parseVersion, releaseDate).Ok?
    requires |entries| > 0 && HasArtifacts(entries[0])
    ensures var out := ParseProjectMetadata(entries, parseVersion, releaseDate).value;
      && |out| > 0 && out[0] == rel
      && out == [rel] + ParseProjectMetadata(entries[1..], parseVersion, releaseDate).value
      && ReleaseOf(entries[0], rel, parseVersion, releaseDate)
  {
    rel := ParseProjectMetadata(entries, parseVersion, releaseDate).value[0];
  }

  lemma KeptCons(e: Entry, rel: Release, rest: seq<Release>, keptRest: seq<Entry>,
                 parseVersion: VersionParser, releaseDate: DateReader)
    requires ReleaseOf(e, rel, parseVersion, releaseDate)
    requires |rest| == |keptRest|
    requires forall i :: 0 <= i < |keptRest| ==> ReleaseOf(keptRest[i], rest[i], parseVersion, releaseDate)
    ensures var kept := [e] + keptRest; var out := [rel] + rest;
      forall i :: 0 <= i < |kept| ==> ReleaseOf(kept[i], out[i], parseVersion, releaseDate)
  {
    var kept := [e] + keptRest;
    var out := [rel] + rest;
    forall i | 0 <= i < |kept|
      ensures ReleaseOf(kept[i], out[i], parseVersion, releaseDate)
    {
      if i > 0 {
        assert kept[i] == keptRest[i - 1] && out[i] == rest[i - 1];
      }
    }
  }

  /** On failure, the error is the one raised by the first entry that cannot be reduced. */
  lemma {:induction false} ParseProjectMetadataFirstError(entries: seq<Entry>, parseVersion: VersionParser, releaseDate: DateReader)
    requires ParseProjectMetadata(entries, parseVersion, releaseDate).Err?
    ensures exists i :: 0 <= i < |entries|
                        && (forall j :: 0 <= j < i ==> EntryValid(entries[j], parseVersion, releaseDate))
                        && EntryError(entries[i], parseVersion, releaseDate) == Some(ParseProjectMetadata(entries, parseVersion, releaseDate).error)
  {
    var err := ParseProjectMetadata(entries, parseVersion, releaseDate).error;
    var e := entries[0];
    if EntryError(e, parseVersion, releaseDate).Some? {
      assert EntryError(entries[0], parseVersion, releaseDate) == Some(err);
    } else {
      assert EntryValid(e, parseVersion, releaseDate);
      assert err == ParseProjectMetadata(entries[1..], parseVersion, releaseDate).error;
      ParseProjectMetadataFirstError(entries[1..], parseVersion, releaseDate);
      var i :| 0 <= i < |entries[1..]|
        && (forall j :: 0 <= j < i ==> EntryValid(entries[1..][j], parseVersion, releaseDate))
        && EntryError(entries[1..][i], parseVersion, releaseDate) == Some(err);
      forall j | 0 <= j < i + 1
        ensures EntryValid(entries[j], parseVersion, releaseDate)
      {
        if j > 0 {
          assert entries[j] == entries[1..][j - 1];
        }
      }
      assert entries[i + 1] == entries[1..][i];
    }
  }
}
