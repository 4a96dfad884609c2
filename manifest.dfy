/** The manifest scan of `fetch_ipa_metadata` (update_movieboxpro.py:69-83):
    the first archive entry named like `Payload/<bundle>.app/Info.plist` is
    decoded as a property list and three keys are read from it. Zip
    decompression and property-list decoding are abstract: an archive is its
    list of entries in archive order, each a name with the key/value map its
    bytes decode to (or `None` where decoding raises). Names may repeat;
    reading by name goes through the archive's name table, where the last
    entry of a name wins. */
module Manifest {
  import opened Wrappers
  import opened PyText

  const DefaultMinOS := "13.0"
  const PayloadDir := "Payload/"
  const BundleManifest := ".app/Info.plist"

  type Plist = map<string, string>

  datatype Entry = Entry(name: string, plist: Option<Plist>)

  /** `(min_os, plist_ver, bundle_id)` as `fetch_ipa_metadata` returns them. */
  datatype ManifestInfo = ManifestInfo(minOS: string, shortVersion: Option<string>, bundleId: Option<string>)

  /** `plistlib.loads` raised on the matched entry; nothing catches it, so the run aborts. */
  datatype ManifestError = PlistDecodeError(name: string)

  /** One path segment: non-empty, without `/`. */
  predicate IsSegment(s: string) {
    s != [] && forall i :: 0 <= i < |s| ==> s[i] != '/'
  }

  function ManifestPath(bundle: string): string {
    PayloadDir + bundle + BundleManifest
  }

  predicate MatchesBody(q: string) {
    && |q| > |PayloadDir| + |BundleManifest|
    && q[..|PayloadDir|] == PayloadDir
    && q[|q| - |BundleManifest|..] == BundleManifest
    && IsSegment(q[|PayloadDir|..|q| - |BundleManifest|])
  }

  /** `re.match(r"^Payload/[^/]+\.app/Info\.plist$", path)`. */
  function MatchesManifestPattern(path: string): (b: bool)
    ensures b ==> |path| > |PayloadDir| + |BundleManifest| && path[..|PayloadDir|] == PayloadDir
  {
    MatchesBody(StripFinalNewline(path))
  }

  lemma MatchesBodyExactly(q: string)
    ensures MatchesBody(q) <==> exists bundle :: IsSegment(bundle) && q == ManifestPath(bundle)
  {
    if MatchesBody(q) {
      var bundle := q[|PayloadDir|..|q| - |BundleManifest|];
      assert q == PayloadDir + bundle + BundleManifest;
    }
    if exists bundle :: IsSegment(bundle) && q == ManifestPath(bundle) {
      var bundle :| IsSegment(bundle) && q == ManifestPath(bundle);
      assert q[..|PayloadDir|] == PayloadDir;
      assert q[|q| - |BundleManifest|..] == BundleManifest;
      assert q[|PayloadDir|..|q| - |BundleManifest|] == bundle;
    }
  }

  /** An entry name is accepted exactly when it is `Payload/<bundle>.app/Info.plist`
      for a single non-empty segment `<bundle>`, optionally followed by one
      line break (which Python's `$` lets through). */
  lemma ManifestPatternExactly(path: string)
    ensures MatchesManifestPattern(path) <==>
      exists bundle :: IsSegment(bundle) && (path == ManifestPath(bundle) || path == ManifestPath(bundle) + "\n")
  {
    var q := StripFinalNewline(path);
    MatchesBodyExactly(q);
    if exists bundle :: IsSegment(bundle) && (path == ManifestPath(bundle) || path == ManifestPath(bundle) + "\n") {
      var bundle :| IsSegment(bundle) && (path == ManifestPath(bundle) || path == ManifestPath(bundle) + "\n");
      if path == ManifestPath(bundle) + "\n" {
        assert q == ManifestPath(bundle);
      } else {
        assert path[|path| - 1] == 't';
      }
    }
  }

  /** Nested bundles and an empty bundle name are rejected; a bundle at the top of `Payload/` is accepted. */
  lemma ManifestPatternExamples()
    ensures MatchesManifestPattern("Payload/MovieBoxPro.app/Info.plist")
    ensures !MatchesManifestPattern("Payload/Extra/App.app/Info.plist")
    ensures !MatchesManifestPattern("Payload/.app/Info.plist")
    ensures !MatchesManifestPattern("Payload/App.app/Info.plist.bak")
  {
    var nested := "Payload/Extra/App.app/Info.plist";
    assert nested[|PayloadDir|..|nested| - |BundleManifest|][5] == '/';
    assert "Payload/App.app/Info.plist.bak"[26..] != BundleManifest;
    assert "Payload/MovieBoxPro.app/Info.plist" == ManifestPath("MovieBoxPro");
    assert IsSegment("MovieBoxPro");
    ManifestPatternExactly("Payload/MovieBoxPro.app/Info.plist");
  }

  /** Index of the first element of `s` at or after `from` that `accept` holds for. */
  function FirstFrom<T>(s: seq<T>, accept: T -> bool, from: nat): (r: Option<nat>)
    requires from <= |s|
    ensures r.Some? ==> from <= r.value < |s| && accept(s[r.value])
    ensures r.Some? ==> forall j :: from <= j < r.value ==> !accept(s[j])
    ensures r.None? ==> forall j :: from <= j < |s| ==> !accept(s[j])
    decreases |s| - from
  {
    if from == |s| then None
    else if accept(s[from]) then Some(from)
    else FirstFrom(s, accept, from + 1)
  }

  lemma {:induction false} FirstFromAt<T>(s: seq<T>, accept: T -> bool, from: nat, i: nat)
    requires from <= i < |s| && accept(s[i])
    requires forall j :: from <= j < i ==> !accept(s[j])
    ensures FirstFrom(s, accept, from) == Some(i)
    decreases i - from
  {
    if from < i {
      FirstFromAt(s, accept, from + 1, i);
    }
  }

  predicate IsManifestEntry(e: Entry) {
    MatchesManifestPattern(e.name)
  }

  /** Index of the first entry whose name the pattern accepts. */
  function FirstManifest(entries: seq<Entry>): (r: Option<nat>)
    ensures r.Some? ==> r.value < |entries| && MatchesManifestPattern(entries[r.value].name)
    ensures r.Some? ==> forall j :: 0 <= j < r.value ==> !MatchesManifestPattern(entries[j].name)
    ensures r.None? ==> forall j :: 0 <= j < |entries| ==> !MatchesManifestPattern(entries[j].name)
  {
    FirstFrom(entries, IsManifestEntry, 0)
  }

  /** The first accepted entry is the one the scan stops at. */
  lemma FirstManifestAt(entries: seq<Entry>, i: nat)
    requires i < |entries| && MatchesManifestPattern(entries[i].name)
    requires forall j :: 0 <= j < i ==> !MatchesManifestPattern(entries[j].name)
    ensures FirstManifest(entries) == Some(i)
  {
    FirstFromAt(entries, IsManifestEntry, 0, i);
  }

  function Lookup(p: Plist, key: string): Option<string> {
    if key in p then Some(p[key]) else None
  }

  /** `info.get("MinimumOSVersion", default_min_os)`, `info.get("CFBundleShortVersionString")`,
      `info.get("CFBundleIdentifier")`. */
  function ReadManifest(p: Plist): (m: ManifestInfo)
    ensures "MinimumOSVersion" in p ==> m.minOS == p["MinimumOSVersion"]
    ensures "MinimumOSVersion" !in p ==> m.minOS == DefaultMinOS
    ensures m.shortVersion.Some? <==> "CFBundleShortVersionString" in p
    ensures m.shortVersion.Some? ==> m.shortVersion.value == p["CFBundleShortVersionString"]
    ensures m.bundleId.Some? <==> "CFBundleIdentifier" in p
    ensures m.bundleId.Some? ==> m.bundleId.value == p["CFBundleIdentifier"]
  {
    ManifestInfo(Lookup(p, "MinimumOSVersion").GetOr(DefaultMinOS),
                 Lookup(p, "CFBundleShortVersionString"),
                 Lookup(p, "CFBundleIdentifier"))
  }

  /** The archive's name table, filled one entry at a time in archive order
      as `zipfile` reads the central directory, so that a later entry with
      the same name replaces an earlier one. */
  function NameTable(entries: seq<Entry>): (t: map<string, Option<Plist>>)
    ensures forall j :: 0 <= j < |entries| ==> entries[j].name in t
  {
    if entries == [] then map[]
    else
      var last := entries[|entries| - 1];
      NameTable(entries[..|entries| - 1])[last.name := last.plist]
  }

  /** `plistlib.loads(zf.read(path))`: the decoded contents of the entry the
      name table holds for `name`. */
  function ZipRead(entries: seq<Entry>, name: string): (p: Option<Plist>)
    requires name in NameTable(entries)
    ensures forall k :: 0 <= k < |entries| && entries[k].name == name && LastOfName(entries, k) ==> p == entries[k].plist
  {
    var k := LastWith(entries, name);
    if k >= 0 then
      NameTableLastWins(entries, k);
      NameTable(entries)[name]
    else
      NameTable(entries)[name]
  }

  /** No entry after index `k` has the name of entry `k`. */
  predicate LastOfName(entries: seq<Entry>, k: nat)
    requires k < |entries|
  {
    forall j :: k < j < |entries| ==> entries[j].name != entries[k].name
  }

  /** Index of the last entry named `name`, or -1 when there is none. */
  function LastWith(entries: seq<Entry>, name: string): (k: int)
    ensures -1 <= k < |entries|
    ensures k >= 0 ==> entries[k].name == name
    ensures forall j :: k < j < |entries| ==> entries[j].name != name
  {
    if entries == [] then -1
    else if entries[|entries| - 1].name == name then |entries| - 1
    else LastWith(entries[..|entries| - 1], name)
  }

  /** Reading a name gives the last entry of that name. */
  lemma {:induction false} NameTableLastWins(entries: seq<Entry>, k: nat)
    requires k < |entries|
    requires LastOfName(entries, k)
    ensures NameTable(entries)[entries[k].name] == entries[k].plist
  {
    if k < |entries| - 1 {
      var init := entries[..|entries| - 1];
      assert init[k] == entries[k];
      assert forall j :: k < j < |init| ==> init[j] == entries[j];
      NameTableLastWins(init, k);
    }
  }

  /** Entries of other names appended to the archive leave a name's reading alone. */
  lemma {:induction false} NameTableAppend(entries: seq<Entry>, more: seq<Entry>, name: string)
    requires name in NameTable(entries)
    requires forall j :: 0 <= j < |more| ==> more[j].name != name
    ensures name in NameTable(entries + more)
    ensures NameTable(entries + more)[name] == NameTable(entries)[name]
  {
    if more == [] {
      assert entries + more == entries;
    } else {
      var all := entries + more;
      var shorter := more[..|more| - 1];
      assert all[..|all| - 1] == entries + shorter;
      assert all[|all| - 1] == more[|more| - 1];
      NameTableAppend(entries, shorter, name);
    }
  }

  /** What the scan yields: the first accepted name read through the name
      table, or the defaults when no name is accepted. */
  function ExtractManifest(entries: seq<Entry>): (r: Result<ManifestInfo, ManifestError>)
    ensures FirstManifest(entries).None? ==> r == Success(ManifestInfo(DefaultMinOS, None, None))
    ensures r.Failure? ==> FirstManifest(entries).Some? && r.error.name == entries[FirstManifest(entries).value].name
    ensures r.Failure? ==> ZipRead(entries, r.error.name).None?
    ensures forall i :: FirstManifest(entries) == Some(i) ==>
      (ZipRead(entries, entries[i].name).None? ==> r.Failure?) &&
      (ZipRead(entries, entries[i].name).Some? ==> r == Success(ReadManifest(ZipRead(entries, entries[i].name).value)))
  {
    match FirstManifest(entries)
    case None => Success(ManifestInfo(DefaultMinOS, None, None))
    case Some(i) =>
      match ZipRead(entries, entries[i].name)
      case None => Failure(PlistDecodeError(entries[i].name))
      case Some(p) => Success(ReadManifest(p))
  }

  /** Two entries with the same accepted name: the scan stops at the first
      name, but reading that name yields the second entry's contents. */
  lemma DuplicateManifestReadsLast(name: string, first: Plist, second: Plist)
    requires MatchesManifestPattern(name)
    ensures ExtractManifest([Entry(name, Some(first)), Entry(name, Some(second))]) == Success(ReadManifest(second))
  {
    var entries := [Entry(name, Some(first)), Entry(name, Some(second))];
    FirstManifestAt(entries, 0);
    NameTableLastWins(entries, 1);
  }

  /** Only the first accepted name is read: entries appended after it,
      accepted or not, never change the outcome unless they repeat that name. */
  lemma LaterEntriesIgnored(entries: seq<Entry>, more: seq<Entry>)
    requires FirstManifest(entries).Some?
    requires forall j :: 0 <= j < |more| ==> more[j].name != entries[FirstManifest(entries).value].name
    ensures FirstManifest(entries + more) == FirstManifest(entries)
    ensures ExtractManifest(entries + more) == ExtractManifest(entries)
  {
    var i := FirstManifest(entries).value;
    var all := entries + more;
    assert all[i] == entries[i];
    assert forall j :: 0 <= j < i ==> all[j] == entries[j];
    FirstManifestAt(all, i);
    NameTableAppend(entries, more, entries[i].name);
  }

  /** Without an accepted entry every field takes its default; an accepted
      manifest without `MinimumOSVersion` still reports "13.0". */
  lemma ManifestDefaults(entries: seq<Entry>)
    ensures (forall j :: 0 <= j < |entries| ==> !MatchesManifestPattern(entries[j].name)) ==>
      ExtractManifest(entries) == Success(ManifestInfo("13.0", None, None))
    ensures forall i, p :: FirstManifest(entries) == Some(i) && ZipRead(entries, entries[i].name) == Some(p) && "MinimumOSVersion" !in p ==>
      ExtractManifest(entries).Success? && ExtractManifest(entries).value.minOS == "13.0"
  {
  }

  /** The scan loop of update_movieboxpro.py:70-81: defaults first, then the
      first accepted name is read and overwrites them, and the loop stops. */
  method ScanManifest(entries: seq<Entry>) returns (result: Result<ManifestInfo, ManifestError>)
    ensures result == ExtractManifest(entries)
  {
    var minOS := DefaultMinOS;
    var shortVersion: Option<string> := None;
    var bundleId: Option<string> := None;
    for i := 0 to |entries|
      invariant FirstManifest(entries) == FirstFrom(entries, IsManifestEntry, i)
    {
      if MatchesManifestPattern(entries[i].name) {
        var decoded := ZipRead(entries, entries[i].name);
        if decoded.None? {
          return Failure(PlistDecodeError(entries[i].name));
        }
        var info := decoded.value;
        minOS := Lookup(info, "MinimumOSVersion").GetOr(DefaultMinOS);
        shortVersion := Lookup(info, "CFBundleShortVersionString");
        bundleId := Lookup(info, "CFBundleIdentifier");
        assert ExtractManifest(entries) == Success(ManifestInfo(minOS, shortVersion, bundleId));
        break;
      }
    }
    result := Success(ManifestInfo(minOS, shortVersion, bundleId));
  }
}
