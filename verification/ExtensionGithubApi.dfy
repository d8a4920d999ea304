/**
 * The extension catalogue client: the repository manifest is filtered by the
 * extension-library version the app supports and mapped to available extensions;
 * installed extensions are diffed against it to find the ones with an update.
 * The network fetch, the "last checked" timestamp and the discovery of installed
 * extensions are outside the model: the manifest, the installed list and the
 * blacklist setting are parameters.
 */
module ExtensionGithubApi {
  import opened Wrappers
  import opened Seqs
  import opened KotlinText
  import opened Numbers

  const BASE_URL: string := "https://raw.githubusercontent.com/"
  /** Already ends in `/`, so every URL built as `REPO_URL_PREFIX + "/..."` has a double slash. */
  const REPO_URL_PREFIX: string := BASE_URL + "inorichi/tachiyomi-extensions/repo/"
  /** The branding removed from the front of manifest names. */
  const NAME_BRANDING: string := "Tachiyomi: "

  /** One object of the manifest's JSON array, with its fields already read. */
  datatype ManifestEntry = ManifestEntry(
    name: string, pkg: string, apk: string, version: string, code: int, lang: string, nsfw: int)

  /** An extension offered by the repository. */
  datatype Available = Available(
    name: string, pkgName: string, versionName: string, versionCode: int,
    lang: string, isNsfw: bool, apkName: string, iconUrl: string)

  /** An extension installed on the device, as the extension loader reports it. */
  datatype Installed = Installed(
    name: string, pkgName: string, versionName: string, versionCode: int, lang: string)

  /** The extension-library versions the app accepts, both bounds inclusive. */
  datatype LibVersionRange = LibVersionRange(min: Decimal, max: Decimal)

  /** Why reading the manifest failed: the entry at `index` has a library version that is not a number. */
  datatype ParseError = MalformedVersion(index: nat, version: string)

  // ----- manifest -----

  /** The library version of an extension: its version name without the last `.` component, read as a double. */
  function LibVersion(versionName: string): Option<DoubleValue> {
    ParseDouble(SubstringBeforeLast(versionName, '.'))
  }

  /** `libVersion >= LIB_VERSION_MIN && libVersion <= LIB_VERSION_MAX`. */
  predicate InRange(v: DoubleValue, range: LibVersionRange) {
    DoubleLe(Finite(range.min), v) && DoubleLe(v, Finite(range.max))
  }

  /** The entry's library version is a number within the supported range. */
  predicate IsCompatible(e: ManifestEntry, range: LibVersionRange) {
    var v := LibVersion(e.version);
    v.Some? && InRange(v.value, range)
  }

  /** `IsCompatible` as a filter predicate. */
  function CompatibilityTest(range: LibVersionRange): ManifestEntry -> bool {
    (e: ManifestEntry) => IsCompatible(e, range)
  }

  /** The entry's library version parses. */
  predicate VersionParses(e: ManifestEntry) {
    LibVersion(e.version).Some?
  }

  /** `err` names the first entry whose library version does not parse. */
  predicate IsFirstMalformed(entries: seq<ManifestEntry>, err: ParseError) {
    && err.index < |entries|
    && entries[err.index].version == err.version
    && LibVersion(err.version).None?
    && forall j :: 0 <= j < err.index ==> LibVersion(entries[j].version).Some?
  }

  /** Every entry's library version parses. */
  predicate AllVersionsParse(entries: seq<ManifestEntry>) {
    forall i :: 0 <= i < |entries| ==> LibVersion(entries[i].version).Some?
  }

  /**
   * The `filter` step of `parseResponse`: the compatible entries in manifest order. The
   * entries are examined in order and the first unparseable library version aborts
   * the whole call; no entry is skipped for being malformed.
   */
  function CompatibleEntries(entries: seq<ManifestEntry>, range: LibVersionRange): (r: Result<seq<ManifestEntry>, ParseError>)
    ensures r.Success? <==> AllVersionsParse(entries)
    ensures r.Failure? ==> IsFirstMalformed(entries, r.error)
    ensures r.Success? ==> r.value == Filter(entries, CompatibilityTest(range))
    ensures r.Success? ==> IsSubseq(r.value, entries)
    ensures r.Success? ==> forall e :: e in r.value <==> e in entries && IsCompatible(e, range)
    ensures r.Success? ==> |r.value| == Count(entries, CompatibilityTest(range))
    decreases |entries|
  {
    if |entries| == 0 then Success([])
    else
      var v := LibVersion(entries[0].version);
      AllVersionsParseCons(entries);
      if v.None? then Failure(MalformedVersion(0, entries[0].version))
      else
        match CompatibleEntries(entries[1..], range)
        case Failure(err) =>
          MalformedInTail(entries, err);
          Failure(MalformedVersion(err.index + 1, err.version))
        case Success(rest) =>
          assert CompatibilityTest(range)(entries[0]) == InRange(v.value, range);
          Success(if InRange(v.value, range) then [entries[0]] + rest else rest)
  }

  lemma AllVersionsParseCons(entries: seq<ManifestEntry>)
    requires |entries| > 0
    ensures AllVersionsParse(entries) <==> LibVersion(entries[0].version).Some? && AllVersionsParse(entries[1..])
  {
    assert forall j :: 0 < j < |entries| ==> entries[j] == entries[1..][j - 1];
  }

  lemma MalformedInTail(entries: seq<ManifestEntry>, err: ParseError)
    requires |entries| > 0 && LibVersion(entries[0].version).Some?
    requires IsFirstMalformed(entries[1..], err)
    ensures IsFirstMalformed(entries, MalformedVersion(err.index + 1, err.version))
  {
    assert entries[err.index + 1] == entries[1..][err.index];
    PrefixAfterHead(entries, VersionParses, err.index);
  }

  /** The display name: the text after the first `Tachiyomi: `, or the whole name without one. */
  function DisplayName(name: string): string {
    SubstringAfterText(name, NAME_BRANDING)
  }

  /** The icon URL: `REPO_URL_PREFIX`, `/icon/`, then the APK name with every `.apk` turned into `.png`. */
  function IconUrl(apkName: string): (r: string)
    ensures StartsWith(r, REPO_URL_PREFIX + "/icon/")
    ensures Absent(r[|REPO_URL_PREFIX + "/icon/"|..], ".apk")
    ensures Absent(apkName, ".apk") ==> r == REPO_URL_PREFIX + "/icon/" + apkName
  {
    var file := Replace(apkName, ".apk", ".png");
    ReplaceApkRemovesAll(apkName);
    ReplaceApkAbsent(apkName);
    var r := REPO_URL_PREFIX + "/icon/" + file;
    assert r[|REPO_URL_PREFIX + "/icon/"|..] == file;
    r
  }

  /** How an available extension is read from a manifest entry. */
  predicate ReadFrom(a: Available, e: ManifestEntry) {
    && a.pkgName == e.pkg && a.apkName == e.apk && a.versionName == e.version
    && a.versionCode == e.code && a.lang == e.lang
    && (a.isNsfw <==> e.nsfw == 1)
    && a.name == DisplayName(e.name) && a.iconUrl == IconUrl(e.apk)
  }

  /** The `map` step of `parseResponse`. */
  function ToAvailable(e: ManifestEntry): (a: Available)
    ensures ReadFrom(a, e)
  {
    Available(DisplayName(e.name), e.pkg, e.version, e.code, e.lang, e.nsfw == 1, e.apk, IconUrl(e.apk))
  }

  /**
   * `parseResponse`: the available extensions of the compatible entries, in manifest
   * order, or the first malformed library version.
   */
  function ParseResponse(entries: seq<ManifestEntry>, range: LibVersionRange): (r: Result<seq<Available>, ParseError>)
    ensures r.Success? <==> AllVersionsParse(entries)
    ensures r.Failure? ==> IsFirstMalformed(entries, r.error)
    ensures r.Success? ==> |r.value| == Count(entries, CompatibilityTest(range))
    ensures r.Success? ==> IsSubseq(r.value, Map(ToAvailable, entries))
    ensures r.Success? ==> forall a :: a in r.value ==> exists e :: e in entries && IsCompatible(e, range) && ReadFrom(a, e)
    ensures r.Success? ==> forall e :: e in entries && IsCompatible(e, range) ==> ToAvailable(e) in r.value
  {
    match CompatibleEntries(entries, range)
    case Failure(err) => Failure(err)
    case Success(kept) =>
      SubseqMap(ToAvailable, kept, entries);
      MapKeptEntries(entries, kept, range);
      Success(Map(ToAvailable, kept))
  }

  /** Mapping exactly the compatible entries yields exactly their available extensions. */
  lemma MapKeptEntries(entries: seq<ManifestEntry>, kept: seq<ManifestEntry>, range: LibVersionRange)
    requires forall e :: e in kept <==> e in entries && IsCompatible(e, range)
    ensures forall a :: a in Map(ToAvailable, kept) ==> exists e :: e in entries && IsCompatible(e, range) && ReadFrom(a, e)
    ensures forall e :: e in entries && IsCompatible(e, range) ==> ToAvailable(e) in Map(ToAvailable, kept)
  {
    var r := Map(ToAvailable, kept);
    forall a | a in r
      ensures exists e :: e in entries && IsCompatible(e, range) && ReadFrom(a, e)
    {
      var i :| 0 <= i < |r| && r[i] == a;
      assert kept[i] in kept;
      assert ReadFrom(a, kept[i]);
    }
    forall e | e in entries && IsCompatible(e, range)
      ensures ToAvailable(e) in r
    {
      var i :| 0 <= i < |kept| && kept[i] == e;
      assert r[i] == ToAvailable(e);
    }
  }

  /** `getApkUrl`: `REPO_URL_PREFIX`, `/apk/`, then the APK name; never fails. */
  function GetApkUrl(extension: Available): (r: string)
    ensures |r| == |REPO_URL_PREFIX| + 5 + |extension.apkName|
    ensures StartsWith(r, REPO_URL_PREFIX)
    ensures r[|REPO_URL_PREFIX| - 1..|REPO_URL_PREFIX| + 5] == "//apk/"
    ensures r[|REPO_URL_PREFIX| + 5..] == extension.apkName
  {
    var r := REPO_URL_PREFIX + "/apk/" + extension.apkName;
    assert REPO_URL_PREFIX[|REPO_URL_PREFIX| - 1] == '/';
    assert r[..|REPO_URL_PREFIX|] == REPO_URL_PREFIX;
    r
  }

  // ----- update check -----

  /** `isBlacklisted`: the package is on the blacklist and the blacklist is switched on. */
  predicate IsBlacklisted(pkgName: string, blacklistEnabled: bool, blacklist: set<string>) {
    pkgName in blacklist && blacklistEnabled
  }

  function AllowedTest(blacklistEnabled: bool, blacklist: set<string>): Installed -> bool {
    (x: Installed) => !IsBlacklisted(x.pkgName, blacklistEnabled, blacklist)
  }

  /** `filterNot { it.isBlacklisted(blacklistEnabled) }` over the installed extensions. */
  function WithoutBlacklisted(installed: seq<Installed>, blacklistEnabled: bool, blacklist: set<string>): (r: seq<Installed>)
    ensures IsSubseq(r, installed)
    ensures forall x :: x in r <==> x in installed && !(blacklistEnabled && x.pkgName in blacklist)
  {
    Filter(installed, AllowedTest(blacklistEnabled, blacklist))
  }

  /** `find { it.pkgName == pkgName }`: the index of the first available extension with that package. */
  function FindByPkg(available: seq<Available>, pkgName: string): (r: Option<nat>)
    ensures r.Some? ==> r.value < |available| && available[r.value].pkgName == pkgName
    ensures r.Some? ==> forall j :: 0 <= j < r.value ==> available[j].pkgName != pkgName
    ensures r.None? <==> forall a :: a in available ==> a.pkgName != pkgName
    decreases |available|
  {
    if |available| == 0 then None
    else if available[0].pkgName == pkgName then Some(0)
    else
      assert forall a :: a in available ==> a == available[0] || a in available[1..];
      match FindByPkg(available[1..], pkgName)
      case None => None
      case Some(i) => Some(i + 1)
  }

  /** The first available extension with the package has a strictly greater version code. */
  predicate HasUpdate(ext: Installed, available: seq<Available>) {
    match FindByPkg(available, ext.pkgName)
    case None => false
    case Some(i) => available[i].versionCode > ext.versionCode
  }

  function UpdateTest(available: seq<Available>): Installed -> bool {
    (x: Installed) => HasUpdate(x, available)
  }

  /** The diff at the heart of `checkForUpdates`: the installed extensions with an update, in their order. */
  function UpdatesOf(installed: seq<Installed>, available: seq<Available>): (r: seq<Installed>)
    ensures IsSubseq(r, installed)
    ensures forall x :: x in r <==> x in installed && HasUpdate(x, available)
  {
    Filter(installed, UpdateTest(available))
  }

  /**
   * `checkForUpdates` once the manifest and the installed extensions are known: the
   * loop over the non-blacklisted installed extensions that keeps those whose first
   * match in the manifest has a greater version code, skipping those with no match.
   */
  method CheckForUpdates(
    installedExtensions: seq<Installed>, extensions: seq<Available>,
    blacklistEnabled: bool, blacklist: set<string>)
    returns (extensionsWithUpdate: seq<Installed>)
    ensures extensionsWithUpdate == UpdatesOf(WithoutBlacklisted(installedExtensions, blacklistEnabled, blacklist), extensions)
  {
    var candidates := WithoutBlacklisted(installedExtensions, blacklistEnabled, blacklist);
    extensionsWithUpdate := [];
    for i := 0 to |candidates|
      invariant extensionsWithUpdate == Filter(candidates[..i], UpdateTest(extensions))
    {
      var installedExt := candidates[i];
      TakeOneMore(candidates, i);
      var found := FindByPkg(extensions, installedExt.pkgName);
      UpdateStep(candidates[..i], installedExt, extensions, found);
      if found.None? {
        continue;
      }
      var hasUpdate := extensions[found.value].versionCode > installedExt.versionCode;
      if hasUpdate {
        extensionsWithUpdate := extensionsWithUpdate + [installedExt];
      }
    }
    assert candidates[..|candidates|] == candidates;
  }

  /** One step of the update loop: the looked-up entry decides whether `x` joins the result. */
  lemma UpdateStep(done: seq<Installed>, x: Installed, available: seq<Available>, found: Option<nat>)
    requires found == FindByPkg(available, x.pkgName)
    ensures Filter(done + [x], UpdateTest(available)) ==
      Filter(done, UpdateTest(available)) + (if found.Some? && available[found.value].versionCode > x.versionCode then [x] else [])
  {
    FilterSnoc(done, x, UpdateTest(available));
  }

  /** The diff over the non-blacklisted extensions, in terms of the whole installed list. */
  lemma UpdatesAfterBlacklist(
    installed: seq<Installed>, available: seq<Available>, blacklistEnabled: bool, blacklist: set<string>)
    ensures IsSubseq(UpdatesOf(WithoutBlacklisted(installed, blacklistEnabled, blacklist), available), installed)
    ensures forall x :: x in UpdatesOf(WithoutBlacklisted(installed, blacklistEnabled, blacklist), available) <==>
      x in installed && !IsBlacklisted(x.pkgName, blacklistEnabled, blacklist) && HasUpdate(x, available)
  {
    var candidates := WithoutBlacklisted(installed, blacklistEnabled, blacklist);
    SubseqTransitive(UpdatesOf(candidates, available), candidates, installed);
  }

  // ----- properties -----

  /** The library version of `a.b` with no `.` in `b` is `a` read as a number: the patch component is dropped. */
  lemma LibVersionDropsLastComponent(a: string, b: string)
    requires '.' !in b
    ensures LibVersion(a + "." + b) == ParseDouble(a)
  {
    SubstringBeforeLastSplit(a, '.', b);
  }

  /** A version name `a.f.patch` has the library version `a.f`, exactly. */
  lemma LibVersionOfPatchVersion(a: string, f: string, patch: string)
    requires |a| > 0 && AllDigits(a) && AllDigits(f) && '.' !in patch
    ensures AllDigits(a + f)
    ensures LibVersion(a + "." + f + "." + patch) == Some(Finite(Decimal(DigitsValue(a + f), -|f|)))
  {
    LibVersionDropsLastComponent(a + "." + f, patch);
    ParseDoublePointed(a, f);
  }

  /** A version name without a `.` is read whole. */
  lemma LibVersionDotless(v: string)
    requires '.' !in v
    ensures LibVersion(v) == ParseDouble(v)
  {
  }

  /** The first `Tachiyomi: ` ends the part that is dropped, wherever it is. */
  lemma {:induction false} DisplayNameAfterFirstBranding(pre: string, post: string)
    requires forall j: nat :: j < |pre| ==> !OccursAt(pre + NAME_BRANDING + post, NAME_BRANDING, j)
    ensures DisplayName(pre + NAME_BRANDING + post) == post
  {
    var s := pre + NAME_BRANDING + post;
    assert OccursAt(s, NAME_BRANDING, |pre|) by {
      assert s[|pre|..|pre| + |NAME_BRANDING|] == NAME_BRANDING;
    }
    var i: nat :| OccursAt(s, NAME_BRANDING, i) && (forall j: nat :: j < i ==> !OccursAt(s, NAME_BRANDING, j)) && DisplayName(s) == s[i + |NAME_BRANDING|..];
    assert i == |pre|;
    assert s[|pre| + |NAME_BRANDING|..] == post;
  }

  /** A name without the branding is shown unchanged. */
  lemma DisplayNameUnbranded(name: string)
    requires Absent(name, NAME_BRANDING)
    ensures DisplayName(name) == name
  {
  }

  /** An APK named `stem.apk` whose only `.apk` is the suffix gets the icon `REPO_URL_PREFIX//icon/stem.png`. */
  lemma IconUrlOfApk(stem: string)
    requires Absent(stem, ".apk")
    ensures IconUrl(stem + ".apk") == REPO_URL_PREFIX + "/icon/" + stem + ".png"
  {
    ReplaceApkSuffix(stem);
  }

  /**
   * The icon of a name is built from left to right: its first `.apk` becomes
   * `.png`, and the text after it has its own `.apk`s replaced the same way.
   */
  lemma IconUrlAtFirstApk(a: string, b: string)
    requires Absent(a, ".apk")
    ensures IconUrl(a + ".apk" + b) == REPO_URL_PREFIX + "/icon/" + a + ".png" + Replace(b, ".apk", ".png")
  {
    ReplaceApkAtFirst(a, b);
  }

  /** With the blacklist switched off nothing is excluded. */
  lemma BlacklistDisabledKeepsAll(installed: seq<Installed>, blacklist: set<string>)
    ensures WithoutBlacklisted(installed, false, blacklist) == installed
  {
    FilterKeepsAll(installed, AllowedTest(false, blacklist));
  }

  /** Package names are unique in the manifest. */
  predicate UniquePackages(available: seq<Available>) {
    forall i, j :: 0 <= i < |available| && 0 <= j < |available| && available[i].pkgName == available[j].pkgName ==> i == j
  }

  /**
   * With unique package names, first-match lookup is the same as asking whether any
   * available extension with the package is newer.
   */
  lemma HasUpdateIffNewerExists(ext: Installed, available: seq<Available>)
    requires UniquePackages(available)
    ensures HasUpdate(ext, available) <==>
      exists a :: a in available && a.pkgName == ext.pkgName && a.versionCode > ext.versionCode
  {
    match FindByPkg(available, ext.pkgName)
    case None =>
    case Some(i) =>
      forall a | a in available && a.pkgName == ext.pkgName
        ensures a == available[i]
      {
        var k :| 0 <= k < |available| && available[k] == a;
      }
  }

  /** With a repeated package name the first entry decides, whatever the later ones say. */
  lemma FirstMatchDecides(ext: Installed, first: Available, rest: seq<Available>)
    requires first.pkgName == ext.pkgName
    ensures HasUpdate(ext, [first] + rest) <==> first.versionCode > ext.versionCode
  {
  }

  // ----- worked examples -----

  /** The compatible entries of a one-entry manifest whose library version parses. */
  lemma CompatibleEntriesSingle(e: ManifestEntry, range: LibVersionRange)
    requires LibVersion(e.version).Some?
    ensures CompatibleEntries([e], range) == Success(if IsCompatible(e, range) then [e] else [])
  {
    var r := CompatibleEntries([e], range);
    assert AllVersionsParse([e]);
    assert Count([e], CompatibilityTest(range)) == (if IsCompatible(e, range) then 1 else 0) by {
      assert [e][1..] == [];
    }
    if IsCompatible(e, range) {
      assert |r.value| == 1;
      assert r.value[0] in r.value;
      assert r.value == [r.value[0]];
    }
  }

  /** A one-entry manifest whose library version parses. */
  lemma ParseResponseSingle(e: ManifestEntry, range: LibVersionRange)
    requires LibVersion(e.version).Some?
    ensures ParseResponse([e], range) == Success(if IsCompatible(e, range) then [ToAvailable(e)] else [])
  {
    CompatibleEntriesSingle(e, range);
    assert Map(ToAvailable, [e]) == [ToAvailable(e)];
    assert Map(ToAvailable, []) == [];
  }

  /**
   * An entry versioned `a.f.patch` is offered exactly when the number `a.f`
   * lies in the supported range; the patch component plays no part.
   */
  lemma PatchVersionEntry(e: ManifestEntry, a: string, f: string, patch: string, range: LibVersionRange)
    requires |a| > 0 && AllDigits(a) && AllDigits(f) && '.' !in patch
    requires e.version == a + "." + f + "." + patch
    ensures AllDigits(a + f)
    ensures ParseResponse([e], range) ==
      Success(if InRange(Finite(Decimal(DigitsValue(a + f), -|f|)), range) then [ToAvailable(e)] else [])
  {
    LibVersionOfPatchVersion(a, f, patch);
    ParseResponseSingle(e, range);
  }

  /** A malformed library version fails the whole parse, even after an entry that would be offered. */
  lemma MalformedAfterGoodEntry(good: ManifestEntry, bad: ManifestEntry, range: LibVersionRange)
    requires LibVersion(good.version).Some? && LibVersion(bad.version).None?
    ensures ParseResponse([good, bad], range) == Failure(MalformedVersion(1, bad.version))
  {
    var entries := [good, bad];
    assert !AllVersionsParse(entries) by {
      assert LibVersion(entries[1].version).None?;
    }
    var r := ParseResponse(entries, range);
    assert IsFirstMalformed(entries, r.error);
    assert r.error.index != 0;
  }

  /** An installed `eu.foo` at code 10 is reported against code 14; `eu.bar`, absent from the manifest, is skipped. */
  lemma ExampleUpdateCheck()
    ensures var foo := Installed("Foo", "eu.foo", "1.2.10", 10, "en");
            var bar := Installed("Bar", "eu.bar", "1.2.5", 5, "en");
            var available := [Available("Foo", "eu.foo", "1.2.14", 14, "en", false, "foo.apk", IconUrl("foo.apk"))];
            UpdatesOf([foo, bar], available) == [foo]
  {
    var foo := Installed("Foo", "eu.foo", "1.2.10", 10, "en");
    var bar := Installed("Bar", "eu.bar", "1.2.5", 5, "en");
    var available := [Available("Foo", "eu.foo", "1.2.14", 14, "en", false, "foo.apk", IconUrl("foo.apk"))];
    assert HasUpdate(foo, available);
    assert !HasUpdate(bar, available) by {
      assert "eu.bar" != "eu.foo";
    }
    assert [foo, bar][1..] == [bar];
    assert [bar][1..] == [];
  }
}
