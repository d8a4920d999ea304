# Extension catalogue and E-Hentai debug functions, modelled in Dafny

This project models two parts of the TachiyomiSY manga reader.

**The extension catalogue client** (`ExtensionGithubApi`).
- The repository manifest is a list of entries. Each entry's *library version* is its version name without the last `.` component, read with Kotlin's `toDouble`. An entry is kept when that number lies in the supported range.
- Each kept entry becomes an available extension. The `Tachiyomi: ` branding is removed from the name. The icon URL is built from the APK name with `.apk` replaced by `.png`.
- `getApkUrl` builds the download URL. Both URLs contain a double slash, because `REPO_URL_PREFIX` already ends in `/`.
- The update check leaves out blacklisted extensions. For each remaining installed extension it finds the *first* manifest extension with the same package. The extension is reported when that match has a strictly greater version code.

**The E-Hentai debug functions** (`DebugFunctions`).
- Counting and resetting the `aged` flag of E-Hentai and ExHentai galleries.
- Counting the manga of the database by library membership and by missing metadata.
- Putting every manga into the library.
- Moving all galleries from one of the two sources to the other.
- Copying the saved searches of one source to the other. The copy merges by name, and the source's searches win a name clash.

The Kotlin standard-library calls these depend on are modelled with their exact semantics in `KotlinText` and `Numbers`:
- `substringBefore`, `substringAfter` and `substringBeforeLast`;
- `replace`, including its behaviour on overlapping and empty patterns;
- `startsWith`;
- `toLong` and `Long.toString`;
- `toDouble`, read as an exact decimal.

`Seqs` holds `filter`, `count`, `map` and `mapNotNull` with their contracts. `Wrappers` holds `Option` and `Result`.

Modelling choices:
- **Outside world as parameters.** I/O becomes parameters:
  - the fetched manifest is a list of `ManifestEntry` records whose JSON fields are already read;
  - the installed extensions and the blacklist setting are arguments;
  - the manga table is a list of `Manga` rows;
  - the E-Hentai metadata is a map from manga id to its `aged` flag;
  - the saved-search preference is the list of its strings, in iteration order.
- **Supported range.** `LIB_VERSION_MIN` and `LIB_VERSION_MAX` are defined in `ExtensionLoader`, which is not part of this model. They are a `LibVersionRange` parameter.
- **Source ids.** `EH_SOURCE_ID` and `EXH_SOURCE_ID` are defined outside the modelled files. They are taken as 6901 and 6902. Most proofs use only that the two ids are different 64-bit values. `AliasedTargetEntrySurvives` also depends on the digits of 6902.
- **Saved-search bodies.** The JSON body of a saved search goes through `SearchCodec`, a pair of `decode`/`encode` functions. `decode` is `None` wherever the Kotlin code throws a `RuntimeException` while loading.
- **Malformed versions.** An unparseable library version is not skipped. `toDouble` throws inside `filter`, so the whole parse fails. `ParseResponse` returns `Failure(MalformedVersion(index, version))` for the first such entry.

## Model

| member | source | states |
|---|---|---|
| ExtensionGithubApi.CompatibleEntries | app/src/main/java/eu/kanade/tachiyomi/extension/api/ExtensionGithubApi.kt:62-67 | Fails exactly when some library version does not parse. The error names the first such entry. On success the result is the filter of the in-range entries: a subsequence in manifest order holding exactly the compatible entries. |
| ExtensionGithubApi.ParseResponse | app/src/main/java/eu/kanade/tachiyomi/extension/api/ExtensionGithubApi.kt:61-80 | Same failure condition. On success there is one available extension per compatible entry, in manifest order. Every compatible entry's extension is present, and every result was read from a compatible entry. |
| ExtensionGithubApi.AllVersionsParseCons | app/src/main/java/eu/kanade/tachiyomi/extension/api/ExtensionGithubApi.kt:63-66 | Every version parses exactly when the first parses and every later one does. |
| ExtensionGithubApi.MalformedInTail | app/src/main/java/eu/kanade/tachiyomi/extension/api/ExtensionGithubApi.kt:63-66 | The first malformed entry of the tail, shifted by one, is the first malformed entry of the whole manifest when the head parses. |
| ExtensionGithubApi.MapKeptEntries | app/src/main/java/eu/kanade/tachiyomi/extension/api/ExtensionGithubApi.kt:68-79 | Mapping exactly the compatible entries gives exactly their available extensions, in both directions. |
| ExtensionGithubApi.IconUrl | app/src/main/java/eu/kanade/tachiyomi/extension/api/ExtensionGithubApi.kt:76 | The icon URL starts with `REPO_URL_PREFIX` and `/icon/`. No `.apk` is left in the file part, and a name without `.apk` is used unchanged. |
| ExtensionGithubApi.ToAvailable | app/src/main/java/eu/kanade/tachiyomi/extension/api/ExtensionGithubApi.kt:68-78 | Package, APK, version and language are copied. NSFW is `nsfw == 1`. The name has the branding removed and the icon is derived from the APK name. |
| ExtensionGithubApi.LibVersion | app/src/main/java/eu/kanade/tachiyomi/extension/api/ExtensionGithubApi.kt:64-65 | The version name without its last `.` component, read as a decimal. The three `LibVersion…` lemmas that follow state this for `a.b`, `a.f.patch` and dotless names. |
| ExtensionGithubApi.LibVersionDropsLastComponent | app/src/main/java/eu/kanade/tachiyomi/extension/api/ExtensionGithubApi.kt:65 | The library version of `a.b` with no `.` in `b` is `a` read as a double. |
| ExtensionGithubApi.LibVersionOfPatchVersion | app/src/main/java/eu/kanade/tachiyomi/extension/api/ExtensionGithubApi.kt:64-65 | `a.f.patch` with digit runs `a` and `f` has the library version `af * 10^-len(f)` exactly; the patch component is ignored. |
| ExtensionGithubApi.LibVersionDotless | app/src/main/java/eu/kanade/tachiyomi/extension/api/ExtensionGithubApi.kt:65 | A version name without `.` is read whole. |
| ExtensionGithubApi.DisplayName | app/src/main/java/eu/kanade/tachiyomi/extension/api/ExtensionGithubApi.kt:69 | The text after the first `Tachiyomi: `, or the whole name when there is none. The two `DisplayName…` lemmas below state both cases. |
| ExtensionGithubApi.DisplayNameAfterFirstBranding | app/src/main/java/eu/kanade/tachiyomi/extension/api/ExtensionGithubApi.kt:69 | The display name is the text after the first `Tachiyomi: `, wherever it occurs. |
| ExtensionGithubApi.DisplayNameUnbranded | app/src/main/java/eu/kanade/tachiyomi/extension/api/ExtensionGithubApi.kt:69 | A name without the branding is shown unchanged. |
| ExtensionGithubApi.IconUrlAtFirstApk | app/src/main/java/eu/kanade/tachiyomi/extension/api/ExtensionGithubApi.kt:76 | For `a.apk` followed by `b`, where `a` has no `.apk`, the icon's file part is `a.png` followed by `b` with its own `.apk`s replaced. With IconUrl's no-`.apk` case this fixes the icon of every name. |
| ExtensionGithubApi.IconUrlOfApk | app/src/main/java/eu/kanade/tachiyomi/extension/api/ExtensionGithubApi.kt:76 | `stem.apk`, whose only `.apk` is the suffix, gets the icon `REPO_URL_PREFIX` + `/icon/` + `stem.png`. |
| ExtensionGithubApi.CompatibleEntriesSingle | app/src/main/java/eu/kanade/tachiyomi/extension/api/ExtensionGithubApi.kt:62-67 | A one-entry manifest whose version parses keeps its entry exactly when it is compatible. |
| ExtensionGithubApi.ParseResponseSingle | app/src/main/java/eu/kanade/tachiyomi/extension/api/ExtensionGithubApi.kt:61-80 | A one-entry manifest whose version parses yields that entry's extension exactly when it is compatible, else nothing. |
| ExtensionGithubApi.PatchVersionEntry | app/src/main/java/eu/kanade/tachiyomi/extension/api/ExtensionGithubApi.kt:63-67 | An entry versioned `a.f.patch` is offered exactly when the number `a.f` is within the inclusive range. |
| ExtensionGithubApi.MalformedAfterGoodEntry | app/src/main/java/eu/kanade/tachiyomi/extension/api/ExtensionGithubApi.kt:63-66 | A malformed second entry fails the parse with index 1, even though the first entry parses. |
| ExtensionGithubApi.GetApkUrl | app/src/main/java/eu/kanade/tachiyomi/extension/api/ExtensionGithubApi.kt:82-84 | The APK URL is `REPO_URL_PREFIX`, then `//apk/` across the prefix's last character, then the APK name. |
| ExtensionGithubApi.IsBlacklisted | app/src/main/java/eu/kanade/tachiyomi/extension/api/ExtensionGithubApi.kt:87-92 | An extension is blacklisted exactly when its package is on the list and the blacklist is switched on. `WithoutBlacklisted` drops exactly these extensions. `BlacklistDisabledKeepsAll` shows that nothing is dropped when the blacklist is off. |
| ExtensionGithubApi.WithoutBlacklisted | app/src/main/java/eu/kanade/tachiyomi/extension/api/ExtensionGithubApi.kt:40-44 | The kept extensions are a subsequence of the installed ones: exactly those not both blacklisted and subject to an enabled blacklist. |
| ExtensionGithubApi.BlacklistDisabledKeepsAll | app/src/main/java/eu/kanade/tachiyomi/extension/api/ExtensionGithubApi.kt:87-92 | With the blacklist switched off, nothing is removed. |
| ExtensionGithubApi.FindByPkg | app/src/main/java/eu/kanade/tachiyomi/extension/api/ExtensionGithubApi.kt:50 | Returns the first index whose package matches. It is `None` exactly when no extension has the package. |
| ExtensionGithubApi.HasUpdate | app/src/main/java/eu/kanade/tachiyomi/extension/api/ExtensionGithubApi.kt:50-52 | The first manifest entry with the package has a strictly greater version code; no entry means no update. `HasUpdateIffNewerExists` shows that with unique packages this is the same as "some entry is newer". `FirstMatchDecides` shows that with repeated packages only the first entry counts. |
| ExtensionGithubApi.UpdatesOf | app/src/main/java/eu/kanade/tachiyomi/extension/api/ExtensionGithubApi.kt:47-56 | The reported extensions are a subsequence of the input: exactly those whose first manifest match has a greater version code. |
| ExtensionGithubApi.CheckForUpdates | app/src/main/java/eu/kanade/tachiyomi/extension/api/ExtensionGithubApi.kt:31-59 | The loop, which skips extensions without a match, returns exactly the updatable extensions among the non-blacklisted installed ones, in installed order (the reference filter `UpdatesOf`, whose meaning `UpdatesAfterBlacklist` states). |
| ExtensionGithubApi.UpdateStep | app/src/main/java/eu/kanade/tachiyomi/extension/api/ExtensionGithubApi.kt:49-55 | One loop step: the looked-up entry decides whether the extension is appended. |
| ExtensionGithubApi.UpdatesAfterBlacklist | app/src/main/java/eu/kanade/tachiyomi/extension/api/ExtensionGithubApi.kt:40-56 | The updates among the non-blacklisted extensions are a subsequence of all installed extensions, with membership stated over the whole list. |
| ExtensionGithubApi.HasUpdateIffNewerExists | app/src/main/java/eu/kanade/tachiyomi/extension/api/ExtensionGithubApi.kt:50-52 | With unique package names, first-match lookup is the same as "some extension with that package is newer". |
| ExtensionGithubApi.FirstMatchDecides | app/src/main/java/eu/kanade/tachiyomi/extension/api/ExtensionGithubApi.kt:50 | With a repeated package, only the first entry's version code matters. |
| ExtensionGithubApi.ExampleUpdateCheck | app/src/main/java/eu/kanade/tachiyomi/extension/api/ExtensionGithubApi.kt:48-55 | An installed `eu.foo` at code 10 is reported against code 14. `eu.bar`, absent from the manifest, is skipped. |
| KotlinText.ReplaceApkRemovesAll | app/src/main/java/eu/kanade/tachiyomi/extension/api/ExtensionGithubApi.kt:76 | After `replace(".apk", ".png")`, no `.apk` occurs anywhere. |
| KotlinText.ReplaceApkAbsent | app/src/main/java/eu/kanade/tachiyomi/extension/api/ExtensionGithubApi.kt:76 | A name without `.apk` is left unchanged by `replace`. |
| KotlinText.ReplaceApkAtFirst | app/src/main/java/eu/kanade/tachiyomi/extension/api/ExtensionGithubApi.kt:76 | `replace` turns the first `.apk` into `.png` and then goes on with the text after it. |
| KotlinText.ReplaceApkSuffix | app/src/main/java/eu/kanade/tachiyomi/extension/api/ExtensionGithubApi.kt:76 | A name whose only `.apk` is its suffix gets exactly `.png` as its new suffix. |
| KotlinText.ReplaceApkKeepsDotlessPrefix | app/src/main/java/eu/kanade/tachiyomi/extension/api/ExtensionGithubApi.kt:76 | A dot-free prefix of the replaced name was already a prefix of the original. |
| KotlinText.SubstringBeforeLastSplit | app/src/main/java/eu/kanade/tachiyomi/extension/api/ExtensionGithubApi.kt:65 | `substringBeforeLast` cuts at the last delimiter. |
| KotlinText.SubstringAroundFirst | app/src/main/java/exh/debug/DebugFunctions.kt:248-250 | `substringBefore` and `substringAfter` split `a:b` at the first `:` when `a` has none. |
| Numbers.ParseLongIntText | app/src/main/java/exh/debug/DebugFunctions.kt:248 | `toLong` reads back every 64-bit number that `toString` prints. |
| Numbers.IntTextInjective | app/src/main/java/exh/debug/DebugFunctions.kt:288 | Different 64-bit ids print differently. |
| Numbers.ParseDoubleScientific | app/src/main/java/eu/kanade/tachiyomi/extension/api/ExtensionGithubApi.kt:65 | `toDouble` reads back exactly the decimal printed as `<mantissa>E<exponent>`. |
| Numbers.ParseDoublePointed | app/src/main/java/eu/kanade/tachiyomi/extension/api/ExtensionGithubApi.kt:65 | `a.f` parses to `af * 10^-len(f)`. |
| Numbers.ParseDoubleWhole | app/src/main/java/eu/kanade/tachiyomi/extension/api/ExtensionGithubApi.kt:65 | Plain digits parse to their value. |
| DebugFunctions.EHentaiGalleries | app/src/main/java/exh/debug/DebugFunctions.kt:134-139 | A subsequence of the favourites holding exactly those on the E-Hentai or ExHentai source. |
| DebugFunctions.CountAgedFlagInEXHManga | app/src/main/java/exh/debug/DebugFunctions.kt:129-150 | The number of positions in the favourites' E-Hentai galleries whose metadata exists and is aged. It is at most the number of galleries, and it is zero exactly when no such gallery is aged. |
| DebugFunctions.NoAgedFlagCountsZero | app/src/main/java/exh/debug/DebugFunctions.kt:129-150 | Zero when no favourite's metadata is aged. |
| DebugFunctions.ResetAgedFlagInEXHManga | app/src/main/java/exh/debug/DebugFunctions.kt:48-68 | Metadata rows neither appear nor disappear, and no flag is newly set. Every E-Hentai gallery's flag is cleared; flags of other manga are unchanged. |
| DebugFunctions.ResetClearsAgedCount | app/src/main/java/exh/debug/DebugFunctions.kt:59-66 | After the reset, the aged count over the same favourites is zero. |
| DebugFunctions.AddAllMangaInDatabaseToLibrary | app/src/main/java/exh/debug/DebugFunctions.kt:152-166 | Every row becomes a favourite; ids and sources are kept. |
| DebugFunctions.AddAllFillsLibrary | app/src/main/java/exh/debug/DebugFunctions.kt:152-172 | After adding all, the in-library count equals the database count and the not-in-library count is zero. |
| DebugFunctions.CountMangaInDatabaseInLibrary | app/src/main/java/exh/debug/DebugFunctions.kt:168 | The number of positions holding a favourite. It is zero exactly when no manga is a favourite. |
| DebugFunctions.CountMangaInDatabaseNotInLibrary | app/src/main/java/exh/debug/DebugFunctions.kt:170 | Together with the in-library count it adds up to the number of rows. |
| DebugFunctions.CountMangaInDatabase | app/src/main/java/exh/debug/DebugFunctions.kt:172 | The database count is the sum of the in-library and not-in-library counts. |
| DebugFunctions.CountMangaInLibraryWithMissingMetadata | app/src/main/java/exh/debug/DebugFunctions.kt:176-178 | The number of positions holding a favourite whose id has no metadata row. It is at most the in-library count, and it is zero exactly when every favourite has metadata. |
| DebugFunctions.InLibraryZeroIffNoFavorite | app/src/main/java/exh/debug/DebugFunctions.kt:168 | The favourite count is zero exactly when no row is a favourite. |
| DebugFunctions.ConvertSources | app/src/main/java/exh/debug/DebugFunctions.kt:226-239 | Row by row, `from` becomes `to` and other sources are kept; ids and favourites are unchanged. No row is left on `from` when `from != to`. |
| DebugFunctions.ConvertSourcesUndo | app/src/main/java/exh/debug/DebugFunctions.kt:226-239 | Converting back restores the table when no row was on the target source before. |
| DebugFunctions.ConvertSourcesIdempotent | app/src/main/java/exh/debug/DebugFunctions.kt:226-239 | Running the same conversion twice equals running it once. |
| DebugFunctions.ConvertAllEhentaiGalleriesToExhentai | app/src/main/java/exh/debug/DebugFunctions.kt:201 | Row by row, an E-Hentai row moves to ExHentai and every other row is unchanged. Ids and favourites are kept, no E-Hentai gallery is left, and the number of E-Hentai-family galleries is unchanged. |
| DebugFunctions.ConvertAllExhentaiGalleriesToEhentai | app/src/main/java/exh/debug/DebugFunctions.kt:203 | Row by row, an ExHentai row moves to E-Hentai and every other row is unchanged. Ids and favourites are kept, no ExHentai gallery is left, and the number of E-Hentai-family galleries is unchanged. |
| DebugFunctions.LoadSavedSearch | app/src/main/java/exh/debug/DebugFunctions.kt:246-264 | An entry whose id parses to the requested source loads as the decoding of the text after its first `:`, failing exactly when that decoding fails. Any other entry loads nothing. |
| DebugFunctions.LoadSavedSearches | app/src/main/java/exh/debug/DebugFunctions.kt:246-265 | Exactly the searches decoded from entries with that source id; failures are skipped. |
| DebugFunctions.MergeByName | app/src/main/java/exh/debug/DebugFunctions.kt:266-285 | All source searches first, unchanged. Then a subsequence of the target searches: exactly those whose names no source search has. |
| DebugFunctions.CopySavedSearches | app/src/main/java/exh/debug/DebugFunctions.kt:287-297 | Every entry not under the target prefix is kept, and every merged search is written under the target prefix. Nothing else is in the new set, and its size is at most the two lists' total. |
| DebugFunctions.CopyEHentaiSavedSearchesToExhentai | app/src/main/java/exh/debug/DebugFunctions.kt:241-299 | E-Hentai entries and all non-ExHentai entries survive. Every E-Hentai search, and every ExHentai search whose name no E-Hentai search has, is written under the ExHentai prefix. Nothing else is in the result, so an old `6902:` entry that is not rewritten is gone. |
| DebugFunctions.CopyExhentaiSavedSearchesToEHentai | app/src/main/java/exh/debug/DebugFunctions.kt:301-359 | ExHentai entries and all non-E-Hentai entries survive. Every ExHentai search, and every E-Hentai search whose name no ExHentai search has, is written under the E-Hentai prefix. Nothing else is in the result, so an old `6901:` entry that is not rewritten is gone. |
| DebugFunctions.EntrySourceIdOfPrefixed | app/src/main/java/exh/debug/DebugFunctions.kt:290-291 | A written `id:` entry parses back to `id`, and its body is the text after the prefix. |
| DebugFunctions.PrefixesDisjoint | app/src/main/java/exh/debug/DebugFunctions.kt:287-289 | Prefixes of two different 64-bit ids never both start one entry. |
| DebugFunctions.CopyKeepsSourceEntries | app/src/main/java/exh/debug/DebugFunctions.kt:287-289 | The copy does not move: entries stored under the source id stay. |
| DebugFunctions.WrittenEntryLoads | app/src/main/java/exh/debug/DebugFunctions.kt:290-296 | A written entry loads back as its search when the codec round-trips it. |
| DebugFunctions.CopiedSearchesLoadAsTarget | app/src/main/java/exh/debug/DebugFunctions.kt:241-297 | With a round-tripping codec, every source search can be loaded from the new set as a target search. |
| DebugFunctions.SourceWinsNameClash | app/src/main/java/exh/debug/DebugFunctions.kt:285 | When a source search and a target search share a name, the target search survives the merge only if it is itself a source search. |
| DebugFunctions.AliasedTargetEntrySurvives | app/src/main/java/exh/debug/DebugFunctions.kt:287-289 | An entry stored as `+6902:...` loads as an ExHentai search but does not start with `6902:`, so the copy to ExHentai keeps it beside the rewritten entries. |

## Left out

- The network fetch of the manifest (`findExtensions`, the retrofit service) and JSON field extraction: the manifest is a parameter of already-read entries.
- The `lastExtCheck` timestamp written by `checkForUpdates`: a clock write with no effect on the result.
- `ExtensionLoader.loadExtensions` and the `LoadResult.Success` filter: the installed extensions are a parameter.
- `BlacklistedSources.BLACKLISTED_EXTENSIONS` and the preference read: the blacklist and its switch are parameters.
- ExtensionGithubApi.LibVersion: `toDouble` is read as an exact decimal, so Java's rounding to the nearest double, hexadecimal literals, and overflow to infinity or underflow to zero are not modelled. Two decimals that round to the same double compare as different.
- ExtensionGithubApi.ManifestEntry: `code` and `nsfw` are unbounded integers, so the JSON `int` conversion's 32-bit range is not modelled.
- Numbers.ParseLong: accepts ASCII digits only. Java also accepts other Unicode decimal digits.
- The saved-search JSON (`JsonParser`, `jsonObject`) and `FilterSerializer` are the `SearchCodec` functions. The target searches are deserialised against the source's filter list (`source.getFilterList()` on lines 272 and 332); this is hidden inside `decode`.
- The `getOrStub(..) as CatalogueSource` casts of the two saved-search copies (DebugFunctions.kt:244-245, 304-305): they run outside the `try`. When a source is not a catalogue source the copy throws and the preference stays unchanged. The model's copies always succeed, because which sources the source manager holds is outside this model.
- The `Timber.e` and `printStackTrace` logging in the copies' catch blocks: logging has no effect on the preference. The entry is skipped as modelled.
- The coroutine, flow and transaction machinery (`runBlocking`, `asFlow`, `cancellable`, `inTransaction`) and the database writes' persistence: each operation is a pure function from the old table or preference to the new one.
- `forceUpgradeMigration`, `clearSavedSearches`, `countMetadataInDatabase`, `resetEHGalleriesForUpdater`: a migration, a one-line reset, a row count of another table, and network refetching with a throttle.
- `getDelegatedSourceList`, `getEHMangaListWithAgedFlagInfo`, `listAllSources`, `listAllSourcesClassName`, `listVisibleSources`, `listAllHttpSources`, `listVisibleHttpSources`, `listScheduledJobs`: text dumps for display.
- `testLaunchEhentaiBackgroundUpdater`, `rescheduleEhentaiBackgroundUpdater`, `cancelAllScheduledJobs`: job scheduler calls.
- The values of `EH_SOURCE_ID` and `EXH_SOURCE_ID`: their defining file is not part of this model. 6901 and 6902 are used, and only `AliasedTargetEntrySurvives` depends on the digits.
