# MovieBox Pro catalog updater, modelled in Dafny

The updater script `update_movieboxpro.py` follows a redirecting download link
to the current iOS build, works out the package size from a one-byte range
probe (falling back to `Content-Length`), reads `MinimumOSVersion`,
`CFBundleShortVersionString` and `CFBundleIdentifier` from the first
`Payload/<bundle>.app/Info.plist` inside the IPA archive, falls back to a
version taken from the file name, and records the build in the JSON catalog
`Sources/MovieBoxPro.json` when its version differs from the newest entry.

This project models the decision logic of that script once the network
responses are in hand:

- `SizeProbe` (size_probe.dfy): the `Content-Range` total of the answer to
  `bytes=0-0` (sections 2.1 and 4.2 of RFC 7233), else the HEAD
  `Content-Length` (section 3.3.2 of RFC 7230), else unknown.
- `Manifest` (manifest.dfy): the entry-name pattern, the scan that stops
  at the first accepted entry name, the read of that name through the
  archive's name table, and the defaults for missing keys.
- `Version` (version.dfy): `os.path.basename` of the final URL, the
  `_<digits>.<digits>….ipa` file-name rule and the manifest-first precedence.
- `Catalog` (catalog.dfy): the app record as a class updated in place, the
  compare-and-update on the head version, and the history it keeps.
- `Updater` (updater.dfy): one run from the fetched inputs to the updated
  in-memory catalog.
- `Digits`, `PyText`, `Wrappers`: ASCII digit runs and their values, Python's
  `$` anchor, truthiness and `str()` of `None`, and `Option`/`Result`.

Behaviour of the script worth knowing:

- A property list that fails to decode is not swallowed: nothing catches the
  exception, so the run aborts (`ManifestError`).
- The catalog file is overwritten in place, not written atomically.
- An unresolved version (`None`, or `""` from the manifest when the file
  name has no version) is compared literally. When it differs from the head,
  the catalog is still updated. The description then reads "Updated to None
  on …" for `None` and "Updated to  on …" (two spaces) for `""`.
- `Content-Range` is matched only at its start. Any digits are accepted for
  the first and last byte positions, and text after the total is ignored.
- An archive may hold several entries with the same name. The scan stops at
  the first accepted name, but `zf.read` looks the name up in the archive's
  name table, where the last entry of that name wins, so the contents read
  can be those of a later entry.
- Python's `$` also matches before one final line break. So an entry named
  `Payload/X.app/Info.plist` plus a line break is accepted, and a file name
  ending in `.ipa` plus a line break still yields its version.

## Model

| member | source | states |
|---|---|---|
| `SizeProbe.RangeTotal` | update_movieboxpro.py:55-57 | a size is read from `Content-Range` only when the value starts with `bytes ` followed by a digit |
| `SizeProbe.RangeTotalExactly` | update_movieboxpro.py:54-57 | a size n is read from `Content-Range` exactly when the value is `bytes <digits>-<digits>/<digits>` followed by a non-digit or nothing, and n is the value of the total digits |
| `SizeProbe.RangeTotalComplete` | update_movieboxpro.py:55-57 | every well-formed range answer yields its total, whatever text follows it |
| `SizeProbe.RangeTotalSound` | update_movieboxpro.py:55-57 | whatever the range rule accepts is a well-formed range answer whose total is the reported size |
| `SizeProbe.ProbeAnswerRoundTrip` | update_movieboxpro.py:53-57 | the answer `bytes 0-0/<n>` to the one-byte probe of an n-byte package is read back as n |
| `SizeProbe.RangeTotalRejects` | update_movieboxpro.py:54-58 | a missing header (`""`), `bytes */1024` and `bytes 0-0/*` give no size from `Content-Range` |
| `SizeProbe.ContentLengthAsWritten` | update_movieboxpro.py:62 | below the 4300-digit `int()` limit, the code as written raises only on a value holding a superscript digit; whenever it does not raise, it gives the corrected rule's size |
| `SizeProbe.ContentLengthSize` | update_movieboxpro.py:59-62 | the fallback gives a size exactly when `Content-Length` is present, non-empty and all digits |
| `SizeProbe.ContentLengthRoundTrip` | update_movieboxpro.py:61-62 | a `Content-Length` carrying the decimal text of n gives size n |
| `SizeProbe.SuperscriptLengthRaises` | update_movieboxpro.py:62 | `Content-Length: ²` passes `isdigit()` and makes `int()` raise in the code as written; the corrected rule reports an unknown size |
| `SizeProbe.ContentLengthAgreesWithoutSuperscripts` | update_movieboxpro.py:62 | on every value without a superscript digit, the code as written and the corrected rule give the same size |
| `SizeProbe.ProbeSize` | update_movieboxpro.py:54-62 | the size is the `Content-Range` total or the `Content-Length` size, and it is unknown exactly when both are |
| `SizeProbe.ProbeSizePrecedence` | update_movieboxpro.py:54-62 | a parsed `Content-Range` wins and `Content-Length` is then irrelevant; otherwise the size is the `Content-Length` fallback; the size is unknown exactly when both fail |
| `SizeProbe.SizeFromContentLength` | update_movieboxpro.py:59-62 | without a parseable `Content-Range`, `Content-Length` n gives size n |
| `Manifest.MatchesManifestPattern` | update_movieboxpro.py:76 | an accepted name starts with `Payload/` and is longer than `Payload/` plus `.app/Info.plist` |
| `Manifest.ManifestPatternExactly` | update_movieboxpro.py:76 | an entry name is accepted exactly when it is `Payload/<bundle>.app/Info.plist`, optionally plus one line break, for a non-empty `<bundle>` without `/` |
| `Manifest.ManifestPatternExamples` | update_movieboxpro.py:76 | `Payload/MovieBoxPro.app/Info.plist` is accepted; `Payload/Extra/App.app/Info.plist`, `Payload/.app/Info.plist` and a `.plist.bak` name are rejected |
| `Manifest.FirstManifest` | update_movieboxpro.py:75-76 | the index found is an accepted entry with no accepted entry before it; no index means no entry is accepted |
| `Manifest.FirstManifestAt` | update_movieboxpro.py:75-81 | an accepted entry with no accepted entry before it is the one the scan stops at |
| `Manifest.NameTableLastWins` | update_movieboxpro.py:77 | reading a name gives the contents of the last entry with that name |
| `Manifest.NameTableAppend` | update_movieboxpro.py:77 | appending entries with other names does not change what a name reads |
| `Manifest.ZipRead` | update_movieboxpro.py:77 | reading a name gives the decoded contents of the last entry with that name |
| `Manifest.ReadManifest` | update_movieboxpro.py:78-80 | `MinimumOSVersion` defaults to "13.0" when absent; the short version and bundle identifier are present exactly when their keys are, with the map's values |
| `Manifest.ExtractManifest` | update_movieboxpro.py:70-83 | with no accepted name the result is the defaults; when the first accepted name reads, through the name table, as decodable contents, the result is the three keys read from them, and otherwise it is a failure naming that entry |
| `Manifest.DuplicateManifestReadsLast` | update_movieboxpro.py:75-81 | with two entries of the same accepted name, the scan stops at the first but the result is read from the second |
| `Manifest.LaterEntriesIgnored` | update_movieboxpro.py:75-81 | once an accepted entry exists, entries appended after it that do not repeat its name never change the result |
| `Manifest.ManifestDefaults` | update_movieboxpro.py:70-81 | without an accepted entry the result is "13.0", no version and no identifier; an accepted manifest without `MinimumOSVersion` still gives "13.0" |
| `Manifest.ScanManifest` | update_movieboxpro.py:69-83 | the loop returns what `ExtractManifest` specifies: the first accepted name read through the name table, the defaults, or the decoding error of that name |
| `Version.Basename` | update_movieboxpro.py:96 | the basename has no `/`, is a suffix of the URL, and is preceded by `/` when it is shorter than the URL |
| `Version.BasenameAfterSlash` | update_movieboxpro.py:96 | a URL ending in `/<name>` has basename `<name>` |
| `Version.FilenameVersion` | update_movieboxpro.py:97 | any version taken from the file name is a dotted version of at least two digit groups |
| `Version.VersionBeforeIpaExactly` | update_movieboxpro.py:97-99 | without a final line break, the file-name rule yields g exactly when the name is `<prefix>_<g>.ipa` with g a dotted version |
| `Version.FilenameVersionExactly` | update_movieboxpro.py:97-99 | the file-name rule yields g exactly when the name ends in `_<g>.ipa` (optionally plus a line break) and g has at least two dot-separated digit groups |
| `Version.FilenameVersionTwoGroups` | update_movieboxpro.py:97 | `App_10.3.ipa` gives "10.3" |
| `Version.FilenameVersionOneGroup` | update_movieboxpro.py:97 | `App_10.ipa` gives no version |
| `Version.ResolvedVersion` | update_movieboxpro.py:95-99 | a non-empty manifest version is kept; a version other than the manifest's is a dotted version from the file name |
| `Version.ResolveVersion` | update_movieboxpro.py:95-99 | the reassignment of the version yields the version `ResolvedVersion` specifies |
| `Version.ResolvedVersionPrecedence` | update_movieboxpro.py:95-102 | a non-empty manifest version is kept whatever the URL says; otherwise g is taken exactly when the file name carries `_<g>.ipa`; with no such name the manifest's `None` or `""` stays |
| `Version.ResolvedFromFileName` | update_movieboxpro.py:94-99 | with no manifest version, a URL ending in `/<prefix>_<g>.ipa` resolves to g |
| `Version.ResolvedVersionExamples` | update_movieboxpro.py:95-99 | no manifest version and `…/App_10.3.ipa` give "10.3"; manifest "4.2.1" wins over `…/App_9.9.ipa` |
| `Catalog.HeadVersion` | update_movieboxpro.py:114 | reading the head fails exactly when `versions` is an empty list; a missing `versions` gives `None`; otherwise it is the first entry's version |
| `Catalog.Applied` | update_movieboxpro.py:119-133 | after an update the release's version is the head, and the history is one entry longer with the old history as its tail |
| `Catalog.Reconciled` | update_movieboxpro.py:113-133 | it fails exactly when the head cannot be read; on success the head afterwards is the release's version, and the record changes exactly when an update is reported |
| `Catalog.DescriptionText` | update_movieboxpro.py:129 | `Description` renders `None` as "None" and any string as itself, so `""` gives "Updated to  on <date>" |
| `Catalog.NewEntry` | update_movieboxpro.py:124-132 | the new history entry carries the release's version, date, download URL, size and minimum OS, and the description for its version and date |
| `Catalog.AppliedExactlyOnMismatch` | update_movieboxpro.py:113-117 | the update fails only when the head cannot be read (empty `versions`); it is applied exactly when the head version differs from the resolved one; otherwise the record is unchanged |
| `Catalog.UpdatePrependsOne` | update_movieboxpro.py:117-133 | an update adds exactly one entry at index 0 carrying the release, keeps every older entry in order, makes the release the head, overwrites version and download URL, and changes the bundle identifier only for a truthy new one |
| `Catalog.ReconcileIdempotent` | update_movieboxpro.py:114-139 | reconciling the same release a second time is a no-op that reports no update |
| `Catalog.UnresolvedVersionStillUpdates` | update_movieboxpro.py:117-129 | an unresolved (`None`) version against a versioned head still updates, and the entry reads "Updated to None on <date>" |
| `Catalog.HistoryOnlyGrows` | update_movieboxpro.py:133 | over any sequence of runs the old history stays, unchanged and in order, at the end of the new one, and each run adds at most one entry |
| `Catalog.Document.Reconcile` | update_movieboxpro.py:113-139 | `apps[0]` takes the state `Reconciled` gives and the outcome reports whether it changed; errors leave it unchanged; every other app is untouched |
| `Updater.FetchIpaMetadata` | update_movieboxpro.py:47-83 | the metadata is the probed size with the scanned manifest fields, or the manifest decoding error |
| `Updater.ReleaseOf` | update_movieboxpro.py:86-102 | the release fails exactly when the manifest read fails; otherwise it carries the final URL, the version date, the probed size, the manifest's minimum OS and bundle identifier, and the version `ResolvedVersion` gives: the manifest's when non-empty, else the file name's |
| `Updater.Run` | update_movieboxpro.py:85-139 | one run updates `apps[0]` to the reconciled state for the resolved release, leaves all apps unchanged on a manifest error, and never touches `apps[1..]` |
| `Updater.RedirectedBuildScenario` | update_movieboxpro.py:94-133 | with final URL `https://cdn.example/App_9.6.ipa`, no manifest and head "9.5": the run updates, the new head is "9.6" with minimum OS "13.0" and the final URL, and a second run changes nothing |

## Left out

- HTTP is not modelled: the Cloudflare-bypassing session, the redirecting GET, the HEAD and range requests, timeouts and `raise_for_status` (update_movieboxpro.py:14-32, 53, 60, 65-66) are foreign I/O. The model takes the final URL, the two header values and the archive as inputs. A failed download aborts the run in the source; the model starts after it.
- The `Last-Modified` to `version_date` conversion (update_movieboxpro.py:35-44) depends on a library date parser and the wall clock. The date is an opaque input string.
- Zip decompression and property-list decoding are foreign calls. An archive is its list of entries in archive order, each a name with the string map its bytes decode to or `None` when decoding raises. Reading a name goes through a name table in which the last entry of that name wins. A file that is not a zip raises and aborts the run; that case is not represented. Property-list values other than strings, and a top-level value that is not a dictionary, are not modelled.
- JSON loading and dumping, the missing-file exit, `print` and `exit` (update_movieboxpro.py:105-111, 135-137) are I/O. Only the in-memory change of the app record is modelled. Keys of the catalog other than `version`, `downloadURL`, `bundleIdentifier` and `versions` are not represented. A missing `apps` key and a `versions` value that is not a list are not modelled.
- Digits are ASCII. Header values reach the script as ISO-8859-1 text, where the regex class `\d` matches ASCII digits only. The final URL is ASCII after requoting.
- `SizeProbe.RangeTotal`: does not model the 4300-digit limit of `int()` in current CPython; a total longer than that raises `ValueError` and aborts the run, where the model gives a size.
- `SizeProbe.RangeTotalExactly`: for the same reason, holds only for totals of at most 4300 digits.
- `SizeProbe.RangeTotalComplete`: for the same reason, holds only for totals of at most 4300 digits.
- `SizeProbe.ProbeAnswerRoundTrip`: for the same reason, holds only for n of at most 4300 decimal digits.
- `SizeProbe.ContentLengthAsWritten`: does not model the 4300-digit limit of `int()`; an all-ASCII-digit `Content-Length` longer than that raises `ValueError` in the source, where the model gives `Success`.
- `SizeProbe.ContentLengthSize`: does not model the 4300-digit limit of `int()`; a longer `Content-Length` raises `ValueError` in the source.
- `SizeProbe.ContentLengthRoundTrip`: for the same reason, holds only for n of at most 4300 decimal digits.
- `SizeProbe.SizeFromContentLength`: for the same reason, holds only for n of at most 4300 decimal digits.
- `SizeProbe.ProbeSize`: inherits the missing 4300-digit limit from the two rules it combines.
- `Catalog.Document.Reconcile`: its frame is all of `apps`, not only `apps[0]`; the ensures clause states that `apps[1..]` keep their state.

## Findings

| source | as written | input that shows it | evidently intended | confidence | as-written member | corrected member |
|---|---|---|---|---|---|---|
| update_movieboxpro.py:62 | the `Content-Length` fallback guards `int()` with `str.isdigit()`, which also accepts the ISO-8859-1 superscripts ¹ ² ³ that `int()` rejects with `ValueError`, aborting the run | a HEAD answer with `Content-Length: ²` (byte 0xB2) and no parseable `Content-Range` | a value that is not all decimal digits gives an unknown size, as every other non-numeric value does | medium: depends on the HTTP layer passing the byte through; not executed | `SizeProbe.SuperscriptLengthRaises` | `SizeProbe.ContentLengthSize` |

The code as written is `SizeProbe.ContentLengthAsWritten`.
`SizeProbe.ContentLengthAgreesWithoutSuperscripts` shows that it differs from the corrected rule only on superscript digits.
`SizeProbe.ProbeSize` and the rest of the model use the corrected rule.
