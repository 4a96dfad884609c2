/** Catalog reconciliation (update_movieboxpro.py:113-139). The loaded JSON
    document is a `Document` whose `apps` are `App` objects updated in place;
    only `apps[0]` is read or changed. A new release is recorded only when its
    version differs from the version of the newest history entry. */
module Catalog {
  import opened Wrappers
  import opened PyText

  /** One element of an app's `versions` list. `version` is `None` for JSON
      `null` and for an entry without the key alike, as `dict.get` reads both. */
  datatype VersionEntry = VersionEntry(
    version: Option<string>,
    date: string,
    downloadURL: string,
    localizedDescription: string,
    size: Option<nat>,
    minOSVersion: string)

  /** The fields of an app record this updater reads or writes;
      `versions` is `None` when the key is absent. */
  datatype AppState = AppState(
    version: Option<string>,
    downloadURL: string,
    bundleIdentifier: Option<string>,
    versions: Option<seq<VersionEntry>>)

  /** What one run has resolved about the current build. */
  datatype Release = Release(
    version: Option<string>,
    date: string,
    downloadURL: string,
    size: Option<nat>,
    minOS: string,
    bundleId: Option<string>)

  /** `data["apps"][0]` on an empty list and `versions[0]` on an empty list
      both raise `IndexError`; the run aborts before anything is written. */
  datatype CatalogError = NoApps | EmptyVersions

  /** `f"Updated to {v} on {date}"`. */
  function Description(version: Option<string>, date: string): string {
    "Updated to " + Str(version) + " on " + date
  }

  /** `None` renders as the text "None"; any string, the empty one included, renders as itself. */
  lemma DescriptionText(version: Option<string>, date: string)
    ensures version.None? ==> Description(version, date) == "Updated to None on " + date
    ensures version.Some? ==> Description(version, date) == "Updated to " + version.value + " on " + date
    ensures Description(Some(""), date) == "Updated to  on " + date
  {
  }

  /** The `new_entry` dict: one field per key, taken from the release. */
  function NewEntry(r: Release): (e: VersionEntry)
    ensures e.version == r.version && e.date == r.date && e.downloadURL == r.downloadURL
    ensures e.size == r.size && e.minOSVersion == r.minOS
    ensures e.localizedDescription == Description(r.version, r.date)
  {
    VersionEntry(r.version, r.date, r.downloadURL, Description(r.version, r.date), r.size, r.minOS)
  }

  /** The `versions` list, empty when the key is absent. */
  function History(s: AppState): seq<VersionEntry> {
    s.versions.GetOr([])
  }

  /** `app.get("versions", [{}])[0].get("version")`. */
  function HeadVersion(s: AppState): (r: Result<Option<string>, CatalogError>)
    ensures r.Failure? <==> s.versions == Some([])
    ensures r.Success? && History(s) != [] ==> r.value == History(s)[0].version
    ensures s.versions.None? ==> r == Success(None)
  {
    match s.versions
    case None => Success(None)
    case Some(vs) => if vs == [] then Failure(EmptyVersions) else Success(vs[0].version)
  }

  /** The record after an update: projection fields refreshed, the bundle
      identifier only when the new one is truthy, one entry prepended. */
  function Applied(s: AppState, r: Release): (a: AppState)
    ensures HeadVersion(a) == Success(r.version)
    ensures |History(a)| == |History(s)| + 1 && History(a)[1..] == History(s)
  {
    AppState(r.version, r.downloadURL,
             if Truthy(r.bundleId) then r.bundleId else s.bundleIdentifier,
             Some([NewEntry(r)] + History(s)))
  }

  /** The new record and whether it changed. */
  function Reconciled(s: AppState, r: Release): (o: Result<(AppState, bool), CatalogError>)
    ensures o.Failure? <==> HeadVersion(s).Failure?
    ensures o.Success? ==> HeadVersion(o.value.0) == Success(r.version)
    ensures o.Success? ==> (o.value.1 <==> o.value.0 != s)
  {
    match HeadVersion(s)
    case Failure(e) => Failure(e)
    case Success(current) =>
      if current != r.version then Success((Applied(s, r), true)) else Success((s, false))
  }

  /** An update happens exactly when the head version differs from the
      resolved one (plain inequality, so an unresolved `None` that differs
      still updates); without an update nothing changes. */
  lemma AppliedExactlyOnMismatch(s: AppState, r: Release)
    ensures Reconciled(s, r).Failure? <==> HeadVersion(s).Failure?
    ensures Reconciled(s, r).Success? ==>
      (Reconciled(s, r).value.1 <==> HeadVersion(s).value != r.version)
    ensures Reconciled(s, r).Success? && !Reconciled(s, r).value.1 ==> Reconciled(s, r).value.0 == s
  {
  }

  /** An update prepends exactly one entry carrying the release and keeps
      every older entry in order; afterwards the release is the head. */
  lemma UpdatePrependsOne(s: AppState, r: Release)
    requires Reconciled(s, r) == Success((Applied(s, r), true))
    ensures |History(Applied(s, r))| == |History(s)| + 1
    ensures History(Applied(s, r))[0] == NewEntry(r)
    ensures History(Applied(s, r))[1..] == History(s)
    ensures HeadVersion(Applied(s, r)) == Success(r.version)
    ensures Applied(s, r).version == r.version && Applied(s, r).downloadURL == r.downloadURL
    ensures Applied(s, r).bundleIdentifier == (if Truthy(r.bundleId) then r.bundleId else s.bundleIdentifier)
  {
    assert History(Applied(s, r))[1..] == History(s);
  }

  /** Idempotence: reconciling the same release again changes nothing. */
  lemma ReconcileIdempotent(s: AppState, r: Release)
    requires Reconciled(s, r).Success?
    ensures Reconciled(Reconciled(s, r).value.0, r) == Success((Reconciled(s, r).value.0, false))
  {
    if Reconciled(s, r).value.1 {
      UpdatePrependsOne(s, r);
    }
  }

  /** An unresolved version still updates a catalog whose head has a version,
      and the new entry then reads "Updated to None on <date>". */
  lemma UnresolvedVersionStillUpdates(s: AppState, r: Release, head: string)
    requires HeadVersion(s) == Success(Some(head)) && r.version == None
    ensures Reconciled(s, r) == Success((Applied(s, r), true))
    ensures History(Applied(s, r))[0].localizedDescription == "Updated to None on " + r.date
  {
  }

  /** A sequence of scheduled runs, each reconciling one release. */
  function RunAll(s: AppState, releases: seq<Release>): Result<AppState, CatalogError>
    decreases |releases|
  {
    if releases == [] then Success(s)
    else
      var o := Reconciled(s, releases[0]);
      if o.Failure? then Failure(o.error) else RunAll(o.value.0, releases[1..])
  }

  /** The first of several runs: it succeeds, the remaining runs continue
      from its record, and it keeps the old history as the tail of the new
      one, adding at most one entry. */
  lemma RunAllFirst(s: AppState, releases: seq<Release>) returns (next: AppState)
    requires releases != [] && RunAll(s, releases).Success?
    ensures RunAll(next, releases[1..]) == RunAll(s, releases)
    ensures |History(s)| <= |History(next)| <= |History(s)| + 1
    ensures History(next)[|History(next)| - |History(s)|..] == History(s)
  {
    next := Reconciled(s, releases[0]).value.0;
    if Reconciled(s, releases[0]).value.1 {
      UpdatePrependsOne(s, releases[0]);
    }
  }

  lemma SuffixOfSuffix<T>(a: seq<T>, b: seq<T>, c: seq<T>)
    requires |b| <= |a| && a[|a| - |b|..] == b
    requires |c| <= |b| && b[|b| - |c|..] == c
    ensures a[|a| - |c|..] == c
  {
    var d := |a| - |b|;
    assert forall i :: |a| - |c| <= i < |a| ==> a[i] == b[i - d];
  }

  /** Across any number of runs the history is only ever prepended to: the
      old history stays, unchanged and in order, at the end of the new one,
      and each run adds at most one entry. */
  lemma {:induction false} HistoryOnlyGrows(s: AppState, releases: seq<Release>)
    requires RunAll(s, releases).Success?
    ensures var h := History(RunAll(s, releases).value);
      |History(s)| <= |h| <= |History(s)| + |releases| && h[|h| - |History(s)|..] == History(s)
    decreases |releases|
  {
    if releases != [] {
      var next := RunAllFirst(s, releases);
      HistoryOnlyGrows(next, releases[1..]);
      SuffixOfSuffix(History(RunAll(s, releases).value), History(next), History(s));
    }
  }

  /** One app record of the catalog, updated in place. */
  class App {
    var version: Option<string>
    var downloadURL: string
    var bundleIdentifier: Option<string>
    var versions: Option<seq<VersionEntry>>

    constructor (s: AppState)
      ensures State() == s
    {
      version, downloadURL, bundleIdentifier, versions := s.version, s.downloadURL, s.bundleIdentifier, s.versions;
    }

    function State(): AppState
      reads this
    {
      AppState(version, downloadURL, bundleIdentifier, versions)
    }
  }

  /** The loaded catalog document `data`. */
  class Document {
    var apps: seq<App>

    /** Distinct JSON objects load as distinct records. */
    ghost predicate Valid()
      reads this
    {
      forall i, j :: 0 <= i < j < |apps| ==> apps[i] != apps[j]
    }

    constructor (records: seq<App>)
      requires forall i, j :: 0 <= i < j < |records| ==> records[i] != records[j]
      ensures Valid() && apps == records
    {
      apps := records;
    }

    /** Compare-and-update of update_movieboxpro.py:113-133: `apps[0]` takes
        the state `Reconciled` gives, every other app is left as it was. */
    method Reconcile(release: Release) returns (outcome: Result<bool, CatalogError>)
      requires Valid()
      modifies apps
      ensures apps == old(apps) && Valid()
      ensures |apps| == 0 ==> outcome == Failure(NoApps)
      ensures |apps| > 0 ==>
        match Reconciled(old(apps[0].State()), release)
        case Failure(e) => outcome == Failure(e) && apps[0].State() == old(apps[0].State())
        case Success((next, applied)) => outcome == Success(applied) && apps[0].State() == next
      ensures forall i :: 1 <= i < |apps| ==> apps[i].State() == old(apps[i].State())
    {
      if |apps| == 0 {
        return Failure(NoApps);
      }
      var app := apps[0];
      var current: Option<string>;
      match app.versions {
        case None =>
          current := None;
        case Some(vs) =>
          if vs == [] {
            return Failure(EmptyVersions);
          }
          current := vs[0].version;
      }
      if current != release.version {
        app.version := release.version;
        app.downloadURL := release.downloadURL;
        if Truthy(release.bundleId) {
          app.bundleIdentifier := release.bundleId;
        }
        var entry := NewEntry(release);
        app.versions := Some([entry] + app.versions.GetOr([]));
        outcome := Success(true);
      } else {
        outcome := Success(false);
      }
    }
  }
}
