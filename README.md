# Novelty components of scientific productions — a Dafny model of the record logic

This repository builds datasets that relate the novelty of scientific articles
to the Sustainable Development Goals (SDGs). Its scripts do four things:

- They fetch OpenAlex work records for SDG title queries.
- They canonicalise each record into a document entry that the `novelpy`
  library can read. This gives a hashed integer `PMID`, a hashed reference
  list, author and institution names, and metadata with defaults.
- They group the entries by publication year and check that the references
  resolve.
- After `novelpy` has computed the Lee (2015) novelty score, they join the
  scores back onto the articles and keep only the scored ones.

NoveltyIndicatorV4.py first keeps the 60 most cited works of each of 16 SDG
queries and tags them with their query. get_location.py then pairs the authors of each
article with its flattened institution list by position and geocodes the
institutions. `zip` makes as many rows as the shorter of the two lists, or
one row per author, with no institution, when the list is empty. It reads city, region and
country from the Google geocoding response and fills gaps with a reverse lookup
on the coordinates. Nominatim.py guesses a city from the comma-separated
address that the Nominatim geocoder returns.

The model covers this deterministic record logic, file by file:

| module | file | what it models |
|---|---|---|
| `Wrappers` | wrappers.dfy | `Option`, with `GetOr` for `dict.get(key, default)` |
| `PyStr` | pystr.dfy | Python's `str.strip()` (the `isspace` set) and `str.split(sep)` |
| `IntId` | int_id.dfy | `generate_int_id`: the hex digest, `int(., 16)` and `% 10**8` |
| `Works` | works.dfy | raw OpenAlex records, the entry dict, `prepare_data_for_novelpy` |
| `YearBuckets` | year_buckets.dfy | the grouping loop of `save_data_by_year` |
| `Validation` | validation.dfy | `validate_data` |
| `LeeMerge` | lee_merge.dfy | the novelty extraction, the left merge on `PMID` and `dropna` |
| `TopCited` | top_cited.dfy | the sort, slice and tag loop of NoveltyIndicatorV4.py |
| `Scripts` | scripts.dfy | the per-script year ranges, the SDG query list and the V4 pipeline |
| `Geocoding` | geocoding.dfy | get_location.py |
| `Nominatim` | nominatim.dfy | `get_city_from_institution` |

The three copies of `prepare_data_for_novelpy` differ in two ways: the
accepted years, and whether the entry records `sdg_query_source`. The model
has one version, parameterised by `Works.Config`, and `Scripts` holds the three
instances.

The loops of the source are modelled as loops:

- `Works.PrepareDataForNovelpy`, `YearBuckets.GroupByYear`,
  `Validation.ValidateData`, `TopCited.CollectTopCited` and the get_location.py
  loops are methods. Each is proved equal to a recursive specification
  function, and the lemmas state what that function means.
- The two fill loops of get_location.py update an `array` of table rows in
  place.
- The dict mutation of NoveltyIndicatorV4.py (`item[...] = ...`) updates a
  local sequence of records.

Effects are parameters:

- SHA-256 of the UTF-8 encoding is a function parameter, `IntId.Sha256`, that
  returns a 32-byte digest.
- The OpenAlex fetch and the two geocoding requests are function parameters
  that return an already-parsed response.
- The `pycountry_convert` calls are function parameters that return `None`
  where the call would raise.
- The Nominatim geocoder's result is the input `Nominatim.GeocodeOutcome`.

Some plain facts about the code that the model keeps:

- The reference list of an entry is a list and may hold duplicates.
- The id is the whole digest mod `10**8`. `IntId.ReductionCollides` shows
  two distinct digests sharing an id, although the docstring calls the id
  unique.
- Validation returns one boolean, `False` as soon as a reference dangles,
  and prints a line per dangling reference.
- The year range of each script is a constant in that script.
- The merge always drops the articles without a novelty score.

## Model

| member | source | states |
|---|---|---|
| PyStr.StripShape | get_location.py:141-142 | `strip()` returns a slice of its input that is preceded and followed only by whitespace and neither starts nor ends with whitespace |
| PyStr.StripIdempotent | get_location.py:141-142 | stripping twice is the same as stripping once |
| PyStr.StripChars | Nominatim.py:48-52 | every character of `s.strip()` is a character of `s` |
| PyStr.Split | Nominatim.py:45 | `split(',')` gives at least one part; no part holds the separator; joining the parts with it gives back the input |
| PyStr.SplitCount | Nominatim.py:45-47 | the number of parts is the number of separators plus one |
| IntId.HexDigest | get_novelty.py:54 | `hexdigest()` writes two hex digits per byte |
| IntId.HexRoundTrip | get_novelty.py:54 | `int(hexdigest, 16)` is the digest read as a big-endian number |
| IntId.IdOfDigest | get_novelty.py:54 | the id of a digest is below `10**8` and is the digest's value modulo `10**8` |
| IntId.GenerateIntId | get_novelty.py:52-54 | `generate_int_id(s)` lies in `[0, 10**8)`, depends only on `s`, and is the SHA-256 value of `s` modulo `10**8` |
| IntId.BytesValueBound | get_novelty.py:54 | a digest of `n` bytes reads as a number below `256^n` |
| IntId.DigestValueBound | get_novelty.py:54 | the number reduced is below `2^256` |
| IntId.ReductionCollides | get_novelty.py:53-54 | two different digests reduce to the same id, so the id is not unique |
| Works.AuthorNames | get_novelty.py:83 | the list of author names exists exactly when every authorship has `author.display_name`; it has one name per authorship, in order |
| Works.HashReferences | get_novelty.py:110 | `c04_referencelist` has the length and order of `referenced_works`; element `k` is `generate_int_id` of reference `k` and is below `10**8` |
| Works.InstNamesShape | get_novelty.py:87-88 | one name per institution of an authorship, `''` where `display_name` is missing |
| Works.InstitutionNamesAppend | get_novelty.py:84-88 | the institution names of two runs of authorships are the two name lists concatenated |
| Works.InstitutionNamesLength | get_novelty.py:84-88 | the institution list has one element per institution listed under any authorship |
| Works.InstitutionNamesOnePerAuthor | get_novelty.py:84-88 | when each authorship lists exactly one institution, element `k` is the `k`-th author's institution |
| Works.CollectInstitutions | get_novelty.py:84-88 | the nested loop builds exactly the concatenated institution names |
| Works.EntryOf | get_novelty.py:68-124 | a record yields an entry exactly when it has an `id`, a year in range and a display name for every author |
| Works.EntryOfFields | get_novelty.py:77-124 | every field of the entry is determined by the record: `PMID`, year, authors and their count, institutions, references, the first three concept names (`""` when absent), SDGs, `sdg_query_source` exactly in the V4 configuration, and each optional key with its default (`""`, `0`, `[]` or `'Missing'`, also through a missing `host_venue` or `open_access`) |
| Works.PrepareOne | get_novelty.py:68-124 | one loop pass skips exactly the records without an `id`, a year in range or every author's display name, and otherwise builds that record's entry |
| Works.PrepareDataForNovelpy | get_novelty.py:56-133 | the loop returns the entries of the admissible records, in input order |
| Works.PreparedAppend | get_novelty.py:68-126 | preparing two runs of records gives the two results one after the other (input order is kept) |
| Works.PreparedMembership | get_novelty.py:68-131 | an entry is returned exactly when it is the entry of some admissible record |
| Works.PreparedLength | get_novelty.py:68-131 | at most one entry per record; one per record exactly when all are admissible; none exactly when none is |
| Works.PreparedInOrder | get_novelty.py:68-126 | when every record is admissible, entry `k` is record `k`'s entry |
| Works.PreparedWellFormed | get_novelty.py:77-111 | every entry has a `PMID` below `10**8`, a year in the range, `num_authors == len(authors)`, references below `10**8`, and `sdg_query_source` exactly in the V4 configuration |
| YearBuckets.GroupByYear | get_novelty.py:146-153 | the keys of `data_by_year` are exactly the years of the entries, and each bucket is the entries of that year in input order |
| YearBuckets.OfYearMembership | get_novelty.py:146-153 | an entry is in the bucket of year `y` exactly when it is an input entry with year `y` |
| YearBuckets.OfYearAppend | get_novelty.py:147-153 | bucketing is order-preserving: the bucket of two runs is the two buckets concatenated |
| YearBuckets.OfYearAbsent | get_novelty.py:150-151 | a year no entry has gets an empty bucket |
| YearBuckets.BucketsPartition | get_novelty.py:146-153 | over any repetition-free list of years that covers the entries, the bucket sizes sum to the number of entries |
| Validation.ValidateData | get_novelty.py:174-184 | `validate_data` returns `True` exactly when every reference `item` of every entry is the `PMID` of some entry |
| LeeMerge.NoveltyOf | get_novelty.py:251 | the novelty is present exactly when `c04_referencelist_lee.score.novelty` exists, and is that value |
| LeeMerge.ConvertLeeToDataframe | get_novelty.py:247-256 | one record per Lee item, in order, with its `PMID` and its nested novelty |
| LeeMerge.Matches | get_novelty.py:355 | the Lee rows matched to an article are exactly the Lee rows carrying its `PMID` |
| LeeMerge.RowsFor | get_novelty.py:355 | one merged row per matching Lee row, carrying that row's novelty |
| LeeMerge.DropMembership | get_novelty.py:355 | `dropna(subset=['Novelty'])` keeps exactly the rows with a novelty |
| LeeMerge.MergeOneMembership | get_novelty.py:355 | the rows merged for one article pair it with each matching Lee row's novelty, or with `None` when nothing matches |
| LeeMerge.LeftMergeMembership | get_novelty.py:355 | a merged row is an article paired with a matching Lee row's novelty, or with `None` when nothing matches |
| LeeMerge.LeftMergeLength | get_novelty.py:355 | a left merge has at least one row per article |
| LeeMerge.LeftMergeAppend | get_novelty.py:355 | the left merge keeps article order |
| LeeMerge.DropAppend | get_novelty.py:355 | `dropna` keeps row order |
| LeeMerge.MergeAndDropAppend | get_novelty.py:355 | merge-then-drop keeps article order |
| LeeMerge.MergeAndDropExact | get_novelty.py:355 | the final table holds article `a` with novelty `v` exactly when `a` is an article and some Lee row gives its `PMID` novelty `v` |
| LeeMerge.MergeKeepsExactlyScored | NoveltyIndicator.py:243 | an article survives the merge and `dropna` exactly when some Lee row with its `PMID` has a novelty |
| TopCited.InsertDesc | NoveltyIndicatorV4.py:187 | inserting keeps the multiset of elements and keeps a non-increasing list non-increasing |
| TopCited.SortDesc | NoveltyIndicatorV4.py:187 | the sort is a permutation of its input and is non-increasing in `cited_by_count` |
| TopCited.SortStable | NoveltyIndicatorV4.py:187 | the sort is stable: the works with one given count keep their input order |
| TopCited.TopDescProperties | NoveltyIndicatorV4.py:187-190 | the kept list has `min(60, len)` works, all from the input, in non-increasing count order |
| TopCited.TopDescDropsLowest | NoveltyIndicatorV4.py:187-190 | no dropped work has a higher count than a kept one |
| TopCited.TagAll | NoveltyIndicatorV4.py:193-196 | every kept work gets `sustainable_development_goals == [q]` and `sdg_query_source == q`, and nothing else changes |
| TopCited.TagEach | NoveltyIndicatorV4.py:193-196 | the tagging loop leaves exactly the tagged list: same length, each work tagged with the query |
| TopCited.CollectTopCited | NoveltyIndicatorV4.py:178-199 | `all_sdg_data` is the concatenation, in query order, of each query's tagged top-60 list |
| TopCited.AllSdgDataFacts | NoveltyIndicatorV4.py:178-199 | `all_sdg_data` has at most 60 works per query, and each carries the tag of one of the queries |
| Scripts.PrepareSdgData | NoveltyIndicatorV4.py:178-204 | the data NoveltyIndicatorV4.py prepares is the prepared form of `all_sdg_data` |
| Scripts.SdgDataTagged | NoveltyIndicatorV4.py:159-204 | at most 960 entries are prepared; each names its query in `sdg_query_source` and as its only SDG, and has a year in 2007-2024 |
| Scripts.QueryTagged | NoveltyIndicatorV4.py:178-204 | for any query list, at most 60 entries per query are prepared, each naming one of the queries as its source and only SDG |
| Scripts.YearRangesDiffer | get_novelty.py:77 | NoveltyIndicator.py keeps every record get_novelty.py keeps, plus exactly the admissible ones published before 2016 |
| Geocoding.LastOfType | get_location.py:39-42 | `None` exactly when no component has the type; otherwise the `long_name` of a component with the type and no later one |
| Geocoding.FirstOfType | get_location.py:37-38 | `None` exactly when no component has the type; otherwise the `long_name` of a component with the type and no earlier one |
| Geocoding.CityIsLastLocalityElseFirstPostalTown | get_location.py:34-38 | with non-empty names, the city is the last `locality` if there is one, and otherwise the first `postal_town` |
| Geocoding.FoldAddressComponents | get_location.py:34-42 | the component loop yields that city, the last `administrative_area_level_1` as region and the last `country` as state |
| Geocoding.GetCityState | get_location.py:23-46 | all five values are `None` unless the status is 200 and there is a result; then they are the first result's names, with coordinates only when it has a component |
| Geocoding.GetCityFromCoordinates | get_location.py:63-83 | all three values are `None` unless the status is 200 and there is a result; then they are the first result's names |
| Geocoding.OnlyFirstResultCounts | get_location.py:72-82 | both lookups ignore every result after the first; they read the same names; coordinates are set exactly when the status is 200 and the first result has a component |
| Geocoding.GetContinentFromCountry | get_location.py:98-112 | a continent name comes back exactly when both conversions succeed and the code is one of the seven; it is the table's name for that code |
| Geocoding.ContinentNamesBijective | get_location.py:101-109 | the table's codes are exactly AF, AS, EU, NA, SA, OC and AN, and distinct codes have distinct names |
| Geocoding.RowsOfPaperShape | get_location.py:136-143 | one row per author when the institution list is empty, otherwise `min(len(authors), len(institutions))` rows; row `k` has the stripped `k`-th author and the stripped `k`-th institution, or `None` |
| Geocoding.ZipPaper | get_location.py:137-143 | the zip loop appends exactly those rows |
| Geocoding.FlattenAuthorships | get_location.py:133-144 | `rows` is the concatenation of every paper's rows, in table order |
| Geocoding.FlattenedRowsFromPapers | get_location.py:133-144 | every row carries the `PMID` and year of some paper and a stripped author and institution |
| Geocoding.OwnInstitutionWhenOneEach | get_location.py:137 | when every authorship lists one institution, each author is paired with their own institution |
| Geocoding.ZipMisattributes | get_location.py:135-143 | for any two authors and any institution list of two or more entries whose second entry is non-empty, the second row pairs the second author with that entry, stripped, whoever it belongs to |
| Geocoding.ZipMisattributesExample | get_location.py:135-143 | when the first author lists two institutions, the second author is paired with the first author's second institution |
| Geocoding.MakeAuthorsTable | get_location.py:144-152 | the table has one row per flattened row, with the five location columns `None` |
| Geocoding.GeocodeInstitutions | get_location.py:156-164 | each row with a truthy institution takes the five values of the forward lookup; the other rows are unchanged |
| Geocoding.FillFromCoordinates | get_location.py:168-178 | each row with both coordinates has its falsy name cells replaced by the reverse lookup's values; the other rows are unchanged |
| Geocoding.ReconcileFillsOnlyMissing | get_location.py:171-178 | the reverse lookup never overwrites a truthy name; it fills the falsy ones; it touches nothing else; applying it twice is the same as once |
| Geocoding.LocationPipeline | get_location.py:148-178 | from a fresh row, coordinates appear exactly when the institution is truthy and its lookup succeeded with a non-empty first result; the forward city wins when it is truthy; a row without an institution stays empty |
| Nominatim.GetCityFromInstitution | Nominatim.py:40-55 | a city comes back exactly when the geocoder found a location; it holds no comma and is stripped |
| Nominatim.CityOfThreePartAddress | Nominatim.py:45-48 | with exactly three parts, the city is the stripped first part |
| Nominatim.CityOfLongAddress | Nominatim.py:45-48 | with four or more parts, the city is the stripped third part from the end |
| Nominatim.CityOfTwoPartAddress | Nominatim.py:49-50 | with exactly two parts, the city is the stripped first part |
| Nominatim.CityOfOnePartAddress | Nominatim.py:51-52 | without a comma, the city is the stripped address |

## Left out

- The co-occurrence graph and the Lee (2015) indicator: they run inside the
  `novelpy` library, whose code is not part of this model. The scores are an
  input of `LeeMerge`.
- SHA-256 and UTF-8 encoding: `IntId.Sha256` is a parameter. Only the hex
  rendering, the base-16 parse and the reduction are modelled.
- The HTTP requests (`get_top_cited_openalex_data`, `get_openalex_data`, the
  Google geocoding calls, `geolocator.geocode`): their parsed results are
  inputs or function parameters. This includes the paging and the query-string
  filters on publication date.
- File I/O:
  - the JSON files `save_data_by_year` writes;
  - `load_data_from_files`, which re-reads the year files in year order to
    build the article table;
  - the CSV reads and writes;
  - the folder deletion.
  The per-query loop of get_novelty.py (lines 284-365) and the script body of
  NoveltyIndicator.py are sequences of these file steps around the modelled
  operations, so they are not composed end to end.
- The printed messages of `prepare_data_for_novelpy`, `validate_data` and the
  scripts, and the count of missing cities that Nominatim.py prints.
- pandas presentation and columns:
  - `describe`;
  - the `log_num_authors` columns of NoveltyIndicator.py;
  - TablesManagement.py, which only reshapes columns.
  `pd.DataFrame(data)` is the list of entries itself. A merged row is the
  entry paired with its novelty, not a flat set of columns.
- `convert_to_dataframe_1` of get_novelty.py is never called.
  NoveltyIndicator.py defines `convert_to_dataframe` three times. The first
  definition (lines 165-176, with a `Year` column) is replaced at line 191
  before any call. The one in effect at line 209 has the same two columns as
  `LeeMerge.ConvertLeeToDataframe`. The one in effect at line 240 is
  `pd.DataFrame(data)`, like `convert_to_dataframe_3` of get_novelty.py
  (lines 258-260, called at line 351), which the merge reads as the article
  table.
- The `dict` key order of `data_by_year`: it is a Dafny `map`, which has no
  order. Only the order inside each bucket is modelled.
- LeeMerge.ConvertLeeToDataframe: with an empty `data_lee` the script raises
  right after the conversion, because `describe()` on a table without columns raises a
  `ValueError` (get_novelty.py:337, NoveltyIndicator.py:210). The model
  returns the empty table; this error path is not modelled.
- LeeMerge.MergeAndDrop: with an empty `data` or `data_lee` the script raises
  before or at the merge: `describe()` raises a `ValueError`
  (get_novelty.py:352), and `merge(on='PMID')` on a table without a `PMID`
  column raises a `KeyError` (get_novelty.py:355, NoveltyIndicator.py:243).
  The model returns the empty table; this error path is not modelled.
- `pycountry_convert` is a pair of parameters.
- The `eval` parsing of the CSV list cells: `Geocoding.PaperRow` holds the
  parsed lists.
- The directory loop of get_location.py and the `apply` over `institution_1`
  in Nominatim.py: file and pandas plumbing around the modelled functions.
- Latitude and longitude are opaque `real` values. No floating-point
  behaviour is modelled. `pd.notna` is modelled as "the value is not `None`".
- JSON `null` is not told apart from a missing key. An OpenAlex record with
  `author: null` or a non-integer `publication_year` would make the Python
  raise a `TypeError` that is not caught. The model treats such keys as
  absent.
- TopCited.CollectTopCited: the V4 item dicts are updated in place and are
  shared with `data_sdg`, which is never read again. The model updates a copy
  of the kept list, so it does not capture that aliasing.
- Geocoding.GetCityFromCoordinates: the source's `for` loop over `results`
  returns during its first pass. The model reads `results[0]` directly instead
  of writing a loop that never reaches a second pass.
- Geocoding.GetCityState: the source assigns latitude and longitude on every
  pass of the component loop. The model assigns them once after the loop,
  when there is at least one component. The resulting values are the same.
