/** The updater run end to end, from the already-fetched inputs: the final
    download URL, the version date, the two size-probe header values and the
    decoded archive entries, down to the in-memory catalog update. */
module Updater {
  import opened Wrappers
  import opened PyText
  import opened SizeProbe
  import opened Manifest
  import opened Version
  import opened Catalog

  /** The header values the size probes saw; `None` where a header is missing. */
  datatype Probe = Probe(contentRange: Option<string>, contentLength: Option<string>)

  datatype RunError = ManifestFailed(manifestError: ManifestError) | CatalogFailed(catalogError: CatalogError)

  /** `fetch_ipa_metadata` (update_movieboxpro.py:47-83) once the responses
      are in hand: the probed size and the manifest fields. */
  method FetchIpaMetadata(probe: Probe, entries: seq<Entry>) returns (result: Result<(Option<nat>, ManifestInfo), ManifestError>)
    ensures result.Failure? <==> ExtractManifest(entries).Failure?
    ensures result.Failure? ==> result.error == ExtractManifest(entries).error
    ensures result.Success? ==>
      result.value == (ProbeSize(probe.contentRange, probe.contentLength), ExtractManifest(entries).value)
  {
    var size := ProbeSize(probe.contentRange, probe.contentLength);
    var manifest := ScanManifest(entries);
    match manifest {
      case Failure(e) => result := Failure(e);
      case Success(info) => result := Success((size, info));
    }
  }

  /** The release one run resolves (update_movieboxpro.py:86-102, 124-132). */
  function ReleaseOf(finalUrl: string, versionDate: string, probe: Probe, entries: seq<Entry>): (r: Result<Release, ManifestError>)
    ensures r.Failure? <==> ExtractManifest(entries).Failure?
    ensures r.Success? ==> r.value.downloadURL == finalUrl && r.value.date == versionDate
    ensures r.Success? ==> r.value.size == ProbeSize(probe.contentRange, probe.contentLength)
    ensures r.Success? ==> r.value.minOS == ExtractManifest(entries).value.minOS
    ensures r.Success? && Truthy(ExtractManifest(entries).value.shortVersion) ==>
      r.value.version == ExtractManifest(entries).value.shortVersion
    ensures r.Success? ==> r.value.version == ResolvedVersion(ExtractManifest(entries).value.shortVersion, finalUrl)
    ensures r.Success? ==> r.value.bundleId == ExtractManifest(entries).value.bundleId
  {
    match ExtractManifest(entries)
    case Failure(e) => Failure(e)
    case Success(info) =>
      Success(Release(ResolvedVersion(info.shortVersion, finalUrl), versionDate, finalUrl,
                      ProbeSize(probe.contentRange, probe.contentLength), info.minOS, info.bundleId))
  }

  /** One run from fetched metadata to the updated in-memory catalog. */
  method Run(doc: Document, finalUrl: string, versionDate: string, probe: Probe, entries: seq<Entry>)
    returns (outcome: Result<bool, RunError>)
    requires doc.Valid()
    modifies doc.apps
    ensures doc.apps == old(doc.apps) && doc.Valid()
    ensures ReleaseOf(finalUrl, versionDate, probe, entries).Failure? ==>
      outcome == Failure(ManifestFailed(ReleaseOf(finalUrl, versionDate, probe, entries).error)) &&
      forall i :: 0 <= i < |doc.apps| ==> doc.apps[i].State() == old(doc.apps[i].State())
    ensures ReleaseOf(finalUrl, versionDate, probe, entries).Success? && |doc.apps| == 0 ==>
      outcome == Failure(CatalogFailed(NoApps))
    ensures ReleaseOf(finalUrl, versionDate, probe, entries).Success? && |doc.apps| > 0 ==>
      match Reconciled(old(doc.apps[0].State()), ReleaseOf(finalUrl, versionDate, probe, entries).value)
      case Failure(e) => outcome == Failure(CatalogFailed(e)) && doc.apps[0].State() == old(doc.apps[0].State())
      case Success((next, applied)) => outcome == Success(applied) && doc.apps[0].State() == next
    ensures forall i :: 1 <= i < |doc.apps| ==> doc.apps[i].State() == old(doc.apps[i].State())
  {
    var metadata := FetchIpaMetadata(probe, entries);
    if metadata.Failure? {
      return Failure(ManifestFailed(metadata.error));
    }
    var (size, info) := metadata.value;
    var version := ResolveVersion(info.shortVersion, finalUrl);
    var release := Release(version, versionDate, finalUrl, size, info.minOS, info.bundleId);
    var reconciled := doc.Reconcile(release);
    match reconciled {
      case Failure(e) => outcome := Failure(CatalogFailed(e));
      case Success(applied) => outcome := Success(applied);
    }
  }

  /** The final URL `https://cdn.example/App_9.6.ipa`, an archive without a
      manifest and a catalog whose head is "9.5": the run updates, the new
      head is "9.6" with the default minimum OS "13.0", the download URL is
      the final URL, and a second run with the same inputs changes nothing. */
  lemma RedirectedBuildScenario(s: AppState, versionDate: string, probe: Probe)
    requires HeadVersion(s) == Success(Some("9.5"))
    ensures var url := "https://cdn.example/App_9.6.ipa";
      && ReleaseOf(url, versionDate, probe, []).Success?
      && var r := ReleaseOf(url, versionDate, probe, []).value;
      && Reconciled(s, r).Success? && Reconciled(s, r).value.1
      && var next := Reconciled(s, r).value.0;
      && History(next)[0].version == Some("9.6")
      && History(next)[0].minOSVersion == "13.0"
      && next.downloadURL == url
      && Reconciled(next, r) == Success((next, false))
  {
    var url := "https://cdn.example/App_9.6.ipa";
    assert DottedVersion("9.6") by {
      assert "9.6"[1] == '.';
    }
    assert url == "https://cdn.example" + "/" + VersionedName("App", "9.6");
    ResolvedFromFileName("https://cdn.example", "App", "9.6");
    var r := ReleaseOf(url, versionDate, probe, []).value;
    assert r.version == Some("9.6");
    UpdatePrependsOne(s, r);
    ReconcileIdempotent(s, r);
  }
}
