/**
 * The data-changing debug functions of the E-Hentai integration. The manga
 * table is a list of records. The E-Hentai metadata is a map from manga id to
 * its `aged` flag. The saved-search preference is the list of its stored
 * strings, in the order the set iterates them. Decoding and encoding the JSON
 * body of a saved search is a pair of function values.
 */
module DebugFunctions {
  import opened Wrappers
  import opened Seqs
  import opened KotlinText
  import opened Numbers

  /** Source ids of E-Hentai and ExHentai; both are Kotlin `Long`s. */
  const EH_SOURCE_ID: int := 6901
  const EXH_SOURCE_ID: int := 6902

  /** The columns of a manga row that the debug functions read or write. */
  datatype Manga = Manga(id: int, source: int, favorite: bool)

  // ----- E-Hentai galleries and their aged flag -----

  predicate IsEHentaiSource(source: int) {
    source == EH_SOURCE_ID || source == EXH_SOURCE_ID
  }

  function EHentaiTest(): Manga -> bool {
    (m: Manga) => IsEHentaiSource(m.source)
  }

  /**
   * The `mapNotNull` shared by the aged-flag functions. It keeps the galleries
   * of the two E-Hentai sources, in order, and drops every other manga.
   */
  function EHentaiGalleries(favorites: seq<Manga>): (r: seq<Manga>)
    ensures IsSubseq(r, favorites)
    ensures forall m :: m in r <==> m in favorites && IsEHentaiSource(m.source)
    ensures |r| <= |favorites|
  {
    Filter(favorites, EHentaiTest())
  }

  /** A gallery counts as aged when it has E-Hentai metadata whose flag is set. */
  function AgedTest(aged: map<int, bool>): Manga -> bool {
    (m: Manga) => m.id in aged && aged[m.id]
  }

  /** The number of E-Hentai galleries among the favourites whose metadata is aged. */
  function CountAgedFlagInEXHManga(favorites: seq<Manga>, aged: map<int, bool>): (n: nat)
    ensures n <= |EHentaiGalleries(favorites)|
    ensures var g := EHentaiGalleries(favorites);
      n == |set i: nat | i < |g| && g[i].id in aged && aged[g[i].id]|
    ensures n == 0 <==> forall m :: m in EHentaiGalleries(favorites) ==> m.id !in aged || !aged[m.id]
  {
    var g := EHentaiGalleries(favorites);
    CountIsPositions(g, AgedTest(aged));
    CountZeroIff(g, AgedTest(aged));
    assert Positions(g, AgedTest(aged)) == set i: nat | i < |g| && g[i].id in aged && aged[g[i].id];
    Count(g, AgedTest(aged))
  }

  /** With no aged flag set on any favourite, the aged count is zero. */
  lemma NoAgedFlagCountsZero(favorites: seq<Manga>, aged: map<int, bool>)
    requires forall m :: m in favorites ==> m.id !in aged || !aged[m.id]
    ensures CountAgedFlagInEXHManga(favorites, aged) == 0
  {
    CountNone(EHentaiGalleries(favorites), AgedTest(aged));
  }

  /** The ids of the E-Hentai galleries among the favourites. */
  function EHentaiIds(favorites: seq<Manga>): set<int> {
    set m | m in favorites && IsEHentaiSource(m.source) :: m.id
  }

  /**
   * Clears the aged flag in the metadata of every E-Hentai gallery among the
   * favourites. A gallery without metadata stays without it.
   */
  function ResetAgedFlagInEXHManga(favorites: seq<Manga>, aged: map<int, bool>): (r: map<int, bool>)
    ensures r.Keys == aged.Keys
    ensures forall m :: m in favorites && IsEHentaiSource(m.source) && m.id in r ==> !r[m.id]
    ensures forall k :: k in r && r[k] ==> k in aged && aged[k]
    ensures forall k :: k in aged && k !in EHentaiIds(favorites) ==> r[k] == aged[k]
  {
    map k | k in aged :: if k in EHentaiIds(favorites) then false else aged[k]
  }

  /** Once the flags are reset, no E-Hentai gallery among the same favourites counts as aged. */
  lemma ResetClearsAgedCount(favorites: seq<Manga>, aged: map<int, bool>)
    ensures CountAgedFlagInEXHManga(favorites, ResetAgedFlagInEXHManga(favorites, aged)) == 0
  {
    var reset := ResetAgedFlagInEXHManga(favorites, aged);
    var galleries := EHentaiGalleries(favorites);
    assert forall m :: m in galleries ==> !AgedTest(reset)(m);
    CountNone(galleries, AgedTest(reset));
  }

  // ----- Library counters -----

  function FavoriteTest(): Manga -> bool {
    (m: Manga) => m.favorite
  }

  function NotFavoriteTest(): Manga -> bool {
    (m: Manga) => !m.favorite
  }

  /** Puts every manga of the database into the library; nothing else changes. */
  function AddAllMangaInDatabaseToLibrary(mangas: seq<Manga>): (r: seq<Manga>)
    ensures |r| == |mangas|
    ensures forall i :: 0 <= i < |r| ==> r[i].favorite
    ensures forall i :: 0 <= i < |r| ==> r[i].id == mangas[i].id && r[i].source == mangas[i].source
  {
    Map((m: Manga) => m.(favorite := true), mangas)
  }

  function CountMangaInDatabaseInLibrary(mangas: seq<Manga>): (n: nat)
    ensures n <= |mangas|
    ensures n == |set i: nat | i < |mangas| && mangas[i].favorite|
    ensures n == 0 <==> forall m :: m in mangas ==> !m.favorite
  {
    InLibraryZeroIffNoFavorite(mangas);
    CountIsPositions(mangas, FavoriteTest());
    assert Positions(mangas, FavoriteTest()) == set i: nat | i < |mangas| && mangas[i].favorite;
    Count(mangas, FavoriteTest())
  }

  function CountMangaInDatabaseNotInLibrary(mangas: seq<Manga>): (n: nat)
    ensures n <= |mangas|
    ensures n + CountMangaInDatabaseInLibrary(mangas) == |mangas|
  {
    CountComplement(mangas, FavoriteTest(), NotFavoriteTest());
    Count(mangas, NotFavoriteTest())
  }

  function CountMangaInDatabase(mangas: seq<Manga>): (n: nat)
    ensures n == CountMangaInDatabaseInLibrary(mangas) + CountMangaInDatabaseNotInLibrary(mangas)
  {
    |mangas|
  }

  /** A favourite counts as missing metadata when its id has no search metadata row. */
  function MissingMetadataTest(withMetadata: set<int>): Manga -> bool {
    (m: Manga) => m.favorite && m.id !in withMetadata
  }

  function CountMangaInLibraryWithMissingMetadata(mangas: seq<Manga>, withMetadata: set<int>): (n: nat)
    ensures n <= CountMangaInDatabaseInLibrary(mangas)
    ensures n == |set i: nat | i < |mangas| && mangas[i].favorite && mangas[i].id !in withMetadata|
    ensures n == 0 <==> forall m :: m in mangas && m.favorite ==> m.id in withMetadata
  {
    var missing := MissingMetadataTest(withMetadata);
    CountMonotonic(mangas, missing, FavoriteTest());
    CountIsPositions(mangas, missing);
    CountZeroIff(mangas, missing);
    assert Positions(mangas, missing) == set i: nat | i < |mangas| && mangas[i].favorite && mangas[i].id !in withMetadata;
    Count(mangas, missing)
  }

  lemma {:induction false} InLibraryZeroIffNoFavorite(mangas: seq<Manga>)
    ensures Count(mangas, FavoriteTest()) == 0 <==> forall m :: m in mangas ==> !m.favorite
    decreases |mangas|
  {
    if |mangas| > 0 {
      InLibraryZeroIffNoFavorite(mangas[1..]);
      assert forall m :: m in mangas <==> m == mangas[0] || m in mangas[1..];
    }
  }

  /** After adding everything to the library, the library holds the whole database. */
  lemma AddAllFillsLibrary(mangas: seq<Manga>)
    ensures CountMangaInDatabaseInLibrary(AddAllMangaInDatabaseToLibrary(mangas)) == CountMangaInDatabase(mangas)
    ensures CountMangaInDatabaseNotInLibrary(AddAllMangaInDatabaseToLibrary(mangas)) == 0
  {
    var r := AddAllMangaInDatabaseToLibrary(mangas);
    CountAll(r, FavoriteTest());
  }

  // ----- Moving galleries between the two sources -----

  function ConvertRow(from: int, to: int): Manga -> Manga {
    (m: Manga) => if m.source == from then m.(source := to) else m
  }

  /** Rewrites the source of every row whose source is `from` to `to`. */
  function ConvertSources(mangas: seq<Manga>, from: int, to: int): (r: seq<Manga>)
    ensures |r| == |mangas|
    ensures forall i :: 0 <= i < |r| ==> r[i].id == mangas[i].id && r[i].favorite == mangas[i].favorite
    ensures forall i :: 0 <= i < |r| ==> r[i].source == (if mangas[i].source == from then to else mangas[i].source)
    ensures from != to ==> forall m :: m in r ==> m.source != from
  {
    Map(ConvertRow(from, to), mangas)
  }

  /** Converting back restores the table when nothing was on the target source before. */
  lemma ConvertSourcesUndo(mangas: seq<Manga>, from: int, to: int)
    requires forall m :: m in mangas ==> m.source != to
    ensures ConvertSources(ConvertSources(mangas, from, to), to, from) == mangas
  {
    var back := ConvertSources(ConvertSources(mangas, from, to), to, from);
    assert forall i :: 0 <= i < |mangas| ==> back[i] == mangas[i];
  }

  /** Running the same conversion twice is running it once. */
  lemma ConvertSourcesIdempotent(mangas: seq<Manga>, from: int, to: int)
    ensures ConvertSources(ConvertSources(mangas, from, to), from, to) == ConvertSources(mangas, from, to)
  {
    var once := ConvertSources(mangas, from, to);
    var twice := ConvertSources(once, from, to);
    assert forall i :: 0 <= i < |mangas| ==> twice[i] == once[i];
  }

  /**
   * Moves every E-Hentai gallery to ExHentai. The set of galleries the
   * aged-flag functions see does not change in size.
   */
  function ConvertAllEhentaiGalleriesToExhentai(mangas: seq<Manga>): (r: seq<Manga>)
    ensures |r| == |mangas|
    ensures forall i :: 0 <= i < |r| ==> r[i].id == mangas[i].id && r[i].favorite == mangas[i].favorite
    ensures forall i :: 0 <= i < |r| ==> r[i].source == (if mangas[i].source == EH_SOURCE_ID then EXH_SOURCE_ID else mangas[i].source)
    ensures forall m :: m in r ==> m.source != EH_SOURCE_ID
    ensures |EHentaiGalleries(r)| == |EHentaiGalleries(mangas)|
  {
    var r := ConvertSources(mangas, EH_SOURCE_ID, EXH_SOURCE_ID);
    CountMap(ConvertRow(EH_SOURCE_ID, EXH_SOURCE_ID), mangas, EHentaiTest(), EHentaiTest());
    r
  }

  /** Moves every ExHentai gallery to E-Hentai, the mirror of the function above. */
  function ConvertAllExhentaiGalleriesToEhentai(mangas: seq<Manga>): (r: seq<Manga>)
    ensures |r| == |mangas|
    ensures forall i :: 0 <= i < |r| ==> r[i].id == mangas[i].id && r[i].favorite == mangas[i].favorite
    ensures forall i :: 0 <= i < |r| ==> r[i].source == (if mangas[i].source == EXH_SOURCE_ID then EH_SOURCE_ID else mangas[i].source)
    ensures forall m :: m in r ==> m.source != EXH_SOURCE_ID
    ensures |EHentaiGalleries(r)| == |EHentaiGalleries(mangas)|
  {
    var r := ConvertSources(mangas, EXH_SOURCE_ID, EH_SOURCE_ID);
    CountMap(ConvertRow(EXH_SOURCE_ID, EH_SOURCE_ID), mangas, EHentaiTest(), EHentaiTest());
    r
  }

  // ----- Saved searches -----

  /** A saved search: its name, its query and its serialised filter state. */
  datatype SavedSearch = SavedSearch(name: string, query: string, filters: string)

  /**
   * The JSON body of a stored saved search. `decode` is `None` wherever the
   * Kotlin code throws a runtime exception (malformed JSON, a missing field, a
   * filter list that does not deserialise).
   */
  datatype SearchCodec = SearchCodec(decode: string -> Option<SavedSearch>, encode: SavedSearch -> string)

  /** The prefix under which the searches of a source are stored. */
  function SearchPrefix(sourceId: int): string {
    IntText(sourceId) + ":"
  }

  /** The source id written before the first ':' of a stored entry, if it parses as a `Long`. */
  function EntrySourceId(entry: string): Option<int> {
    ParseLong(SubstringBefore(entry, ':'))
  }

  /** Loads one stored entry as a search of `sourceId`, or nothing. */
  function LoadSavedSearch(entry: string, sourceId: int, codec: SearchCodec): (r: Option<SavedSearch>)
    ensures r.Some? ==> EntrySourceId(entry) == Some(sourceId)
    ensures r.Some? ==> codec.decode(SubstringAfter(entry, ':')) == r
    ensures EntrySourceId(entry) == Some(sourceId) ==> r == codec.decode(SubstringAfter(entry, ':'))
  {
    if EntrySourceId(entry) != Some(sourceId) then None
    else codec.decode(SubstringAfter(entry, ':'))
  }

  function LoadEntry(sourceId: int, codec: SearchCodec): string -> Option<SavedSearch> {
    (entry: string) => LoadSavedSearch(entry, sourceId, codec)
  }

  /** All searches stored for `sourceId`, skipping the entries that fail to load. */
  function LoadSavedSearches(stored: seq<string>, sourceId: int, codec: SearchCodec): (r: seq<SavedSearch>)
    ensures |r| <= |stored|
    ensures forall s :: s in r <==>
      exists i :: 0 <= i < |stored| && EntrySourceId(stored[i]) == Some(sourceId) &&
        codec.decode(SubstringAfter(stored[i], ':')) == Some(s)
  {
    var r := MapNotNull(stored, LoadEntry(sourceId, codec));
    assert forall i :: 0 <= i < |stored| ==> LoadEntry(sourceId, codec)(stored[i]) == LoadSavedSearch(stored[i], sourceId, codec);
    r
  }

  predicate NameTaken(searches: seq<SavedSearch>, name: string) {
    exists s :: s in searches && s.name == name
  }

  function NewNameTest(primary: seq<SavedSearch>): SavedSearch -> bool {
    (s: SavedSearch) => !NameTaken(primary, s.name)
  }

  /**
   * All of `primary`, followed by the searches of `secondary` whose name no
   * search of `primary` has. Only names from `primary` are checked, so two
   * searches of `secondary` with one name both survive.
   */
  function MergeByName(primary: seq<SavedSearch>, secondary: seq<SavedSearch>): (r: seq<SavedSearch>)
    ensures |primary| <= |r| && r[..|primary|] == primary
    ensures IsSubseq(r[|primary|..], secondary)
    ensures forall s :: s in r[|primary|..] <==> s in secondary && !NameTaken(primary, s.name)
    ensures forall s :: s in r <==> s in primary || (s in secondary && !NameTaken(primary, s.name))
  {
    var added := Filter(secondary, NewNameTest(primary));
    assert (primary + added)[|primary|..] == added;
    primary + added
  }

  /** The searches the copy writes under the target id. */
  function MergedSavedSearches(stored: seq<string>, fromId: int, toId: int, codec: SearchCodec): seq<SavedSearch> {
    MergeByName(LoadSavedSearches(stored, fromId, codec), LoadSavedSearches(stored, toId, codec))
  }

  function OtherTest(toId: int): string -> bool {
    (entry: string) => !StartsWith(entry, SearchPrefix(toId))
  }

  function EncodeEntry(toId: int, codec: SearchCodec): SavedSearch -> string {
    (s: SavedSearch) => SearchPrefix(toId) + codec.encode(s)
  }

  /**
   * Copies the saved searches of `fromId` to `toId`. The target gets every
   * source search, then the target searches whose names the source does not
   * use. Entries under the target prefix are replaced and the rest are kept.
   * The new preference is a set, so equal strings collapse.
   */
  function CopySavedSearches(stored: seq<string>, fromId: int, toId: int, codec: SearchCodec): (r: set<string>)
    ensures forall e :: e in stored && !StartsWith(e, SearchPrefix(toId)) ==> e in r
    ensures forall m :: m in MergedSavedSearches(stored, fromId, toId, codec) ==> SearchPrefix(toId) + codec.encode(m) in r
    ensures forall e :: e in r ==>
      (e in stored && !StartsWith(e, SearchPrefix(toId))) ||
      exists m :: m in MergedSavedSearches(stored, fromId, toId, codec) && e == SearchPrefix(toId) + codec.encode(m)
    ensures |r| <= Count(stored, OtherTest(toId)) + |MergedSavedSearches(stored, fromId, toId, codec)|
  {
    var merged := MergedSavedSearches(stored, fromId, toId, codec);
    var others := Filter(stored, OtherTest(toId));
    var written := Map(EncodeEntry(toId, codec), merged);
    ElementsCardinality(others + written);
    assert forall m :: m in merged ==> EncodeEntry(toId, codec)(m) in written;
    set e | e in others + written
  }

  function CopyEHentaiSavedSearchesToExhentai(stored: seq<string>, codec: SearchCodec): (r: set<string>)
    ensures forall e :: e in stored && StartsWith(e, SearchPrefix(EH_SOURCE_ID)) ==> e in r
    ensures forall e :: e in stored && !StartsWith(e, SearchPrefix(EXH_SOURCE_ID)) ==> e in r
    ensures forall m :: m in LoadSavedSearches(stored, EH_SOURCE_ID, codec) ==> SearchPrefix(EXH_SOURCE_ID) + codec.encode(m) in r
    ensures forall m :: m in LoadSavedSearches(stored, EXH_SOURCE_ID, codec) && !NameTaken(LoadSavedSearches(stored, EH_SOURCE_ID, codec), m.name) ==>
      SearchPrefix(EXH_SOURCE_ID) + codec.encode(m) in r
    ensures forall e :: e in r ==>
      (e in stored && !StartsWith(e, SearchPrefix(EXH_SOURCE_ID))) ||
      exists m :: m in MergedSavedSearches(stored, EH_SOURCE_ID, EXH_SOURCE_ID, codec) && e == SearchPrefix(EXH_SOURCE_ID) + codec.encode(m)
  {
    CopyKeepsSourceEntries(stored, EH_SOURCE_ID, EXH_SOURCE_ID, codec);
    CopySavedSearches(stored, EH_SOURCE_ID, EXH_SOURCE_ID, codec)
  }

  function CopyExhentaiSavedSearchesToEHentai(stored: seq<string>, codec: SearchCodec): (r: set<string>)
    ensures forall e :: e in stored && StartsWith(e, SearchPrefix(EXH_SOURCE_ID)) ==> e in r
    ensures forall e :: e in stored && !StartsWith(e, SearchPrefix(EH_SOURCE_ID)) ==> e in r
    ensures forall m :: m in LoadSavedSearches(stored, EXH_SOURCE_ID, codec) ==> SearchPrefix(EH_SOURCE_ID) + codec.encode(m) in r
    ensures forall m :: m in LoadSavedSearches(stored, EH_SOURCE_ID, codec) && !NameTaken(LoadSavedSearches(stored, EXH_SOURCE_ID, codec), m.name) ==>
      SearchPrefix(EH_SOURCE_ID) + codec.encode(m) in r
    ensures forall e :: e in r ==>
      (e in stored && !StartsWith(e, SearchPrefix(EH_SOURCE_ID))) ||
      exists m :: m in MergedSavedSearches(stored, EXH_SOURCE_ID, EH_SOURCE_ID, codec) && e == SearchPrefix(EH_SOURCE_ID) + codec.encode(m)
  {
    CopyKeepsSourceEntries(stored, EXH_SOURCE_ID, EH_SOURCE_ID, codec);
    CopySavedSearches(stored, EXH_SOURCE_ID, EH_SOURCE_ID, codec)
  }

  // ----- Properties of the copy -----

  /** An entry written under a prefix carries that prefix's id. */
  lemma EntrySourceIdOfPrefixed(id: int, body: string)
    requires IsLong(id)
    ensures EntrySourceId(SearchPrefix(id) + body) == Some(id)
    ensures SubstringAfter(SearchPrefix(id) + body, ':') == body
  {
    var t := IntText(id);
    assert forall i :: 0 <= i < |t| ==> t[i] != ':';
    assert SearchPrefix(id) + body == t + [':'] + body;
    SubstringAroundFirst(t, ':', body);
    ParseLongIntText(id);
  }

  /** The prefixes of two different `Long` ids never both start one entry. */
  lemma {:induction false} PrefixesDisjoint(a: int, b: int, entry: string)
    requires IsLong(a) && IsLong(b)
    requires StartsWith(entry, SearchPrefix(a)) && StartsWith(entry, SearchPrefix(b))
    ensures a == b
  {
    var ra := entry[|SearchPrefix(a)|..];
    var rb := entry[|SearchPrefix(b)|..];
    assert entry == SearchPrefix(a) + ra;
    assert entry == SearchPrefix(b) + rb;
    EntrySourceIdOfPrefixed(a, ra);
    EntrySourceIdOfPrefixed(b, rb);
  }

  /** The copy leaves the stored entries of the source id in place. */
  lemma CopyKeepsSourceEntries(stored: seq<string>, fromId: int, toId: int, codec: SearchCodec)
    requires IsLong(fromId) && IsLong(toId) && fromId != toId
    ensures forall e :: e in stored && StartsWith(e, SearchPrefix(fromId)) ==> e in CopySavedSearches(stored, fromId, toId, codec)
  {
    forall e | e in stored && StartsWith(e, SearchPrefix(fromId))
      ensures !StartsWith(e, SearchPrefix(toId))
    {
      if StartsWith(e, SearchPrefix(toId)) {
        PrefixesDisjoint(fromId, toId, e);
        assert false;
      }
    }
  }

  /** A written entry loads back as the search it was written from, when the codec round-trips it. */
  lemma WrittenEntryLoads(toId: int, codec: SearchCodec, m: SavedSearch)
    requires IsLong(toId)
    requires codec.decode(codec.encode(m)) == Some(m)
    ensures LoadSavedSearch(SearchPrefix(toId) + codec.encode(m), toId, codec) == Some(m)
  {
    EntrySourceIdOfPrefixed(toId, codec.encode(m));
  }

  /**
   * With a codec that round-trips, every source search can be loaded back
   * from the new preference as a search of the target id.
   */
  lemma CopiedSearchesLoadAsTarget(stored: seq<string>, fromId: int, toId: int, codec: SearchCodec)
    requires IsLong(toId)
    requires forall m :: codec.decode(codec.encode(m)) == Some(m)
    ensures forall m :: m in LoadSavedSearches(stored, fromId, codec) ==>
      exists e :: e in CopySavedSearches(stored, fromId, toId, codec) && LoadSavedSearch(e, toId, codec) == Some(m)
  {
    forall m | m in LoadSavedSearches(stored, fromId, codec)
      ensures exists e :: e in CopySavedSearches(stored, fromId, toId, codec) && LoadSavedSearch(e, toId, codec) == Some(m)
    {
      WrittenEntryLoads(toId, codec, m);
      assert SearchPrefix(toId) + codec.encode(m) in CopySavedSearches(stored, fromId, toId, codec);
    }
  }

  /** On a name clash the source search wins: the target search is dropped unless the source has it too. */
  lemma SourceWinsNameClash(primary: seq<SavedSearch>, secondary: seq<SavedSearch>, a: SavedSearch, b: SavedSearch)
    requires a in primary && b in secondary && a.name == b.name
    ensures b in MergeByName(primary, secondary) <==> b in primary
  {
    assert NameTaken(primary, b.name);
  }

  /**
   * `toLong` accepts a leading '+' and leading zeros, so an entry stored
   * under "+6902:" loads as an ExHentai search. It does not start with
   * "6902:", so the copy to ExHentai keeps it beside the rewritten entries.
   */
  lemma AliasedTargetEntrySurvives(body: string, stored: seq<string>, codec: SearchCodec)
    requires "+6902:" + body in stored
    ensures EntrySourceId("+6902:" + body) == Some(EXH_SOURCE_ID)
    ensures "+6902:" + body in CopyEHentaiSavedSearchesToExhentai(stored, codec)
  {
    var e := "+6902:" + body;
    assert e == "+6902" + [':'] + body;
    SubstringAroundFirst("+6902", ':', body);
    assert ParseLong("+6902") == Some(6902) by { PlusLiteral(); }
    assert IntText(EXH_SOURCE_ID) == "6902" by { TargetIdText(); }
    assert e[0] != SearchPrefix(EXH_SOURCE_ID)[0];
  }

  lemma PlusLiteral()
    ensures ParseLong("+6902") == Some(6902)
  {
    assert "+6902"[1..] == "6902";
    TargetIdText();
    ParseLongIntText(EXH_SOURCE_ID);
  }

  lemma TargetIdText()
    ensures IntText(EXH_SOURCE_ID) == "6902"
  {
  }
}
