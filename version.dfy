/** Version resolution (update_movieboxpro.py:94-102): the manifest's short
    version when it is non-empty, else the dotted version embedded in the
    download URL's file name, else whatever the manifest gave (`None` or `""`). */
module Version {
  import opened Wrappers
  import opened Digits
  import opened PyText

  const IpaSuffix := ".ipa"

  /** Index just after the last `/` of `url` (0 when there is none). */
  function SlashEnd(url: string): (k: nat)
    ensures k <= |url|
    ensures k > 0 ==> url[k - 1] == '/'
    ensures forall i :: k <= i < |url| ==> url[i] != '/'
  {
    if url == [] then 0
    else if url[|url| - 1] == '/' then |url|
    else SlashEnd(url[..|url| - 1])
  }

  /** `os.path.basename(url)`: the text after the last `/`. */
  function Basename(url: string): (r: string)
    ensures forall i :: 0 <= i < |r| ==> r[i] != '/'
    ensures |r| <= |url| && url[|url| - |r|..] == r
    ensures |r| < |url| ==> url[|url| - |r| - 1] == '/'
  {
    url[SlashEnd(url)..]
  }

  /** A URL that ends in `/<name>` has basename `<name>`. */
  lemma {:induction false} BasenameAfterSlash(dir: string, name: string)
    requires forall i :: 0 <= i < |name| ==> name[i] != '/'
    ensures Basename(dir + "/" + name) == name
  {
    var url := dir + "/" + name;
    assert url[|url| - |name| - 1] == '/';
    assert url[|url| - |name|..] == name;
  }

  predicate IsVersionChar(c: char) {
    IsDigit(c) || c == '.'
  }

  /** Length of the longest suffix of `s` made of digits and dots. */
  function TrailingVersionChars(s: string): (k: nat)
    ensures k <= |s|
    ensures forall i :: |s| - k <= i < |s| ==> IsVersionChar(s[i])
    ensures k < |s| ==> !IsVersionChar(s[|s| - k - 1])
  {
    if s == [] || !IsVersionChar(s[|s| - 1]) then 0
    else 1 + TrailingVersionChars(s[..|s| - 1])
  }

  lemma {:induction false} TrailingVersionCharsOfRun(head: string, g: string)
    requires forall i :: 0 <= i < |g| ==> IsVersionChar(g[i])
    requires head == [] || !IsVersionChar(head[|head| - 1])
    ensures TrailingVersionChars(head + g) == |g|
  {
    if g != [] {
      var s := head + g;
      assert s[..|s| - 1] == head + g[..|g| - 1];
      TrailingVersionCharsOfRun(head, g[..|g| - 1]);
    } else {
      assert head + g == head;
    }
  }

  /** `\d+(?:\.\d+)+`: at least two non-empty digit groups joined by single dots. */
  predicate DottedVersion(g: string) {
    && |g| >= 3
    && (forall i :: 0 <= i < |g| ==> IsVersionChar(g[i]))
    && IsDigit(g[0]) && IsDigit(g[|g| - 1])
    && '.' in g
    && (forall i :: 0 < i < |g| && g[i] == '.' ==> IsDigit(g[i - 1]))
  }

  /** The file name `<prefix>_<version>.ipa`. */
  function VersionedName(prefix: string, version: string): string {
    prefix + "_" + version + IpaSuffix
  }

  /** `re.search(r'_(\d+(?:\.\d+)+)\.ipa$', fname)` on a name with no final
      line break. The group cannot hold `_`, so the only candidate is the
      maximal run of digits and dots just before `.ipa`. */
  function VersionBeforeIpa(fname: string): Option<string> {
    if |fname| < |IpaSuffix| || fname[|fname| - |IpaSuffix|..] != IpaSuffix then None
    else
      var stem := fname[..|fname| - |IpaSuffix|];
      var k := TrailingVersionChars(stem);
      if k == |stem| || stem[|stem| - k - 1] != '_' then None
      else
        var g := stem[|stem| - k..];
        if DottedVersion(g) then Some(g) else None
  }

  /** The filename rule with Python's `$`, which also matches before one
      final line break. */
  function FilenameVersion(fname: string): (r: Option<string>)
    ensures r.Some? ==> DottedVersion(r.value)
  {
    VersionBeforeIpa(StripFinalNewline(fname))
  }

  lemma VersionBeforeIpaSound(fname: string)
    requires VersionBeforeIpa(fname).Some?
    ensures exists prefix ::
      DottedVersion(VersionBeforeIpa(fname).value) && fname == VersionedName(prefix, VersionBeforeIpa(fname).value)
  {
    var g := VersionBeforeIpa(fname).value;
    var stem := fname[..|fname| - |IpaSuffix|];
    var k := TrailingVersionChars(stem);
    var prefix := stem[..|stem| - k - 1];
    assert stem == prefix + "_" + g;
    assert fname == stem + IpaSuffix;
    assert fname == VersionedName(prefix, g);
  }

  lemma VersionBeforeIpaComplete(prefix: string, g: string)
    requires DottedVersion(g)
    ensures VersionBeforeIpa(VersionedName(prefix, g)) == Some(g)
  {
    var fname := VersionedName(prefix, g);
    var head := prefix + "_";
    var stem := head + g;
    assert fname == stem + IpaSuffix;
    assert fname[|fname| - |IpaSuffix|..] == IpaSuffix;
    assert fname[..|fname| - |IpaSuffix|] == stem;
    TrailingVersionCharsOfRun(head, g);
    assert stem[|stem| - |g| - 1] == '_';
    assert stem[|stem| - |g|..] == g;
  }

  lemma VersionBeforeIpaExactly(fname: string, g: string)
    ensures VersionBeforeIpa(fname) == Some(g) <==>
      exists prefix :: DottedVersion(g) && fname == VersionedName(prefix, g)
  {
    if VersionBeforeIpa(fname) == Some(g) {
      VersionBeforeIpaSound(fname);
    }
    if exists prefix :: DottedVersion(g) && fname == VersionedName(prefix, g) {
      var prefix :| DottedVersion(g) && fname == VersionedName(prefix, g);
      VersionBeforeIpaComplete(prefix, g);
    }
  }

  /** The filename rule in both directions: it yields `g` exactly when the
      name ends in `_<g>.ipa` (optionally followed by one line break) and `g`
      is a dotted version of at least two numeric groups. */
  lemma FilenameVersionExactly(fname: string, g: string)
    ensures FilenameVersion(fname) == Some(g) <==>
      exists prefix :: DottedVersion(g) &&
        (fname == VersionedName(prefix, g) || fname == VersionedName(prefix, g) + "\n")
  {
    var q := StripFinalNewline(fname);
    VersionBeforeIpaExactly(q, g);
    if exists prefix :: DottedVersion(g) &&
        (fname == VersionedName(prefix, g) || fname == VersionedName(prefix, g) + "\n")
    {
      var prefix :| DottedVersion(g) &&
        (fname == VersionedName(prefix, g) || fname == VersionedName(prefix, g) + "\n");
      if fname == VersionedName(prefix, g) + "\n" {
        assert q == VersionedName(prefix, g);
      } else {
        assert fname[|fname| - 1] == 'a';
      }
    }
  }

  /** `App_10.3.ipa` gives "10.3". */
  lemma FilenameVersionTwoGroups()
    ensures FilenameVersion("App_10.3.ipa") == Some("10.3")
  {
    assert DottedVersion("10.3") by {
      assert "10.3"[2] == '.';
    }
    assert "App_10.3.ipa" == VersionedName("App", "10.3");
    VersionBeforeIpaComplete("App", "10.3");
  }

  /** `App_10.ipa` (a single numeric group) gives nothing. */
  lemma FilenameVersionOneGroup()
    ensures FilenameVersion("App_10.ipa") == None
  {
    var stem := "App_10";
    assert "App_10.ipa"[..6] == stem;
    assert "App_10.ipa"[6..] == IpaSuffix;
    assert TrailingVersionChars(stem) == 2 by {
      assert stem == "App_" + "10";
      TrailingVersionCharsOfRun("App_", "10");
    }
    assert stem[4..] == "10";
    assert !DottedVersion("10") by {
      assert '.' !in "10";
    }
  }

  /** The version the run goes on with. */
  function ResolvedVersion(plistVersion: Option<string>, finalUrl: string): (r: Option<string>)
    ensures Truthy(plistVersion) ==> r == plistVersion
    ensures r != plistVersion ==> r.Some? && DottedVersion(r.value)
  {
    if Truthy(plistVersion) then plistVersion
    else
      match FilenameVersion(Basename(finalUrl))
      case Some(g) => Some(g)
      case None => plistVersion
  }

  /** The fallback reassignment of `plist_app_version` (update_movieboxpro.py:95-99). */
  method ResolveVersion(plistVersion: Option<string>, finalUrl: string) returns (version: Option<string>)
    ensures version == ResolvedVersion(plistVersion, finalUrl)
  {
    version := plistVersion;
    if !Truthy(version) {
      var fname := Basename(finalUrl);
      var fm := FilenameVersion(fname);
      if fm.Some? {
        version := fm;
      }
    }
  }

  /** Precedence: a non-empty manifest version is kept whatever the URL says;
      otherwise a version `g` is taken exactly when the URL's file name ends in
      `_<g>.ipa`, and without such a name the manifest's `None` or `""` stays. */
  lemma ResolvedVersionPrecedence(plistVersion: Option<string>, finalUrl: string, g: string)
    ensures Truthy(plistVersion) ==> ResolvedVersion(plistVersion, finalUrl) == plistVersion
    ensures !Truthy(plistVersion) && g != [] ==>
      (ResolvedVersion(plistVersion, finalUrl) == Some(g) <==>
        exists prefix :: DottedVersion(g) &&
          (Basename(finalUrl) == VersionedName(prefix, g) || Basename(finalUrl) == VersionedName(prefix, g) + "\n"))
    ensures !Truthy(plistVersion) && FilenameVersion(Basename(finalUrl)).None? ==>
      ResolvedVersion(plistVersion, finalUrl) == plistVersion
  {
    var fname := Basename(finalUrl);
    FilenameVersionExactly(fname, g);
    if !Truthy(plistVersion) {
      assert ResolvedVersion(plistVersion, finalUrl) ==
        if FilenameVersion(fname).Some? then FilenameVersion(fname) else plistVersion;
    }
  }

  /** With no manifest version, a URL ending in `/<prefix>_<g>.ipa` resolves to `g`. */
  lemma ResolvedFromFileName(dir: string, prefix: string, g: string)
    requires forall i :: 0 <= i < |prefix| ==> prefix[i] != '/'
    requires DottedVersion(g)
    ensures ResolvedVersion(None, dir + "/" + VersionedName(prefix, g)) == Some(g)
  {
    var name := VersionedName(prefix, g);
    assert forall i :: 0 <= i < |name| ==> name[i] != '/' by {
      forall i | 0 <= i < |name| ensures name[i] != '/' {
        if i < |prefix| {
          assert name[i] == prefix[i];
        } else if |prefix| < i < |prefix| + 1 + |g| {
          assert name[i] == g[i - |prefix| - 1];
        }
      }
    }
    BasenameAfterSlash(dir, name);
    VersionBeforeIpaComplete(prefix, g);
  }

  /** With no manifest version, `https://cdn.example/App_10.3.ipa` resolves to "10.3";
      a manifest "4.2.1" wins over a file name carrying "9.9". */
  lemma ResolvedVersionExamples()
    ensures ResolvedVersion(None, "https://cdn.example/App_10.3.ipa") == Some("10.3")
    ensures ResolvedVersion(Some("4.2.1"), "https://cdn.example/App_9.9.ipa") == Some("4.2.1")
  {
    assert DottedVersion("10.3") by {
      assert "10.3"[2] == '.';
    }
    assert "https://cdn.example/App_10.3.ipa" == "https://cdn.example" + "/" + VersionedName("App", "10.3");
    ResolvedFromFileName("https://cdn.example", "App", "10.3");
  }
}
