/** get_location.py: reading a geocoding response into city, region, state
    and coordinates, the continent lookup, and the location table built from
    the prepared articles (one row per author, geocoded by institution, then
    completed by a reverse lookup on the coordinates). The HTTP requests are
    function parameters returning the already-parsed response. */
module Geocoding {
  import opened Wrappers
  import opened PyStr
  import opened Works

  const Locality: string := "locality"
  const PostalTown: string := "postal_town"
  const AdminAreaLevel1: string := "administrative_area_level_1"
  const CountryType: string := "country"

  /** One element of `address_components`. */
  datatype AddressComponent = AddressComponent(longName: string, types: seq<string>)

  /** One element of `results`: its components and `geometry.location`. */
  datatype GeoResult = GeoResult(addressComponents: seq<AddressComponent>, lat: real, lng: real)

  /** The HTTP status and the decoded `results` list. */
  datatype GeoResponse = GeoResponse(statusCode: int, results: seq<GeoResult>)

  /** The 5-tuple of `get_city_state`. */
  datatype Place = Place(city: Option<string>, region: Option<string>, state: Option<string>,
                         latitude: Option<real>, longitude: Option<real>)

  /** The 3-tuple of `get_city_from_coordinates`. */
  datatype Area = Area(city: Option<string>, region: Option<string>, state: Option<string>)

  /** Python truthiness of a value that is `None` or a string. */
  predicate Truthy(v: Option<string>) {
    v.Some? && v.value != ""
  }

  /** The `long_name` of the last component carrying type `t`. */
  function LastOfType(cs: seq<AddressComponent>, t: string): (r: Option<string>)
    ensures r.None? <==> forall k :: 0 <= k < |cs| ==> t !in cs[k].types
    ensures r.Some? ==> exists j :: 0 <= j < |cs| && t in cs[j].types && cs[j].longName == r.value
                                    && forall k :: j < k < |cs| ==> t !in cs[k].types
  {
    if |cs| == 0 then None
    else if t in cs[|cs| - 1].types then Some(cs[|cs| - 1].longName)
    else
      var r := LastOfType(cs[..|cs| - 1], t);
      assert forall k :: 0 <= k < |cs| - 1 ==> cs[..|cs| - 1][k] == cs[k];
      r
  }

  /** The `long_name` of the first component carrying type `t`. */
  function FirstOfType(cs: seq<AddressComponent>, t: string): (r: Option<string>)
    ensures r.None? <==> forall k :: 0 <= k < |cs| ==> t !in cs[k].types
    ensures r.Some? ==> exists j :: 0 <= j < |cs| && t in cs[j].types && cs[j].longName == r.value
                                    && forall k :: 0 <= k < j ==> t !in cs[k].types
  {
    if |cs| == 0 then None
    else if t in cs[0].types then Some(cs[0].longName)
    else
      var r := FirstOfType(cs[1..], t);
      assert forall k :: 1 <= k < |cs| ==> cs[1..][k - 1] == cs[k];
      if r.Some? then
        var j :| 0 <= j < |cs[1..]| && t in cs[1..][j].types && cs[1..][j].longName == r.value
                 && forall k :: 0 <= k < j ==> t !in cs[1..][k].types;
        assert cs[j + 1] == cs[1..][j];
        r
      else r
  }

  /** One pass of the loop on `city`: a `locality` overwrites it, and a
      `postal_town` sets it only while it is still falsy. */
  function CityStep(city: Option<string>, c: AddressComponent): Option<string> {
    var afterLocality := if Locality in c.types then Some(c.longName) else city;
    if !Truthy(afterLocality) && PostalTown in c.types then Some(c.longName) else afterLocality
  }

  /** `city` after the loop over the components. */
  function CityOf(cs: seq<AddressComponent>): Option<string> {
    if |cs| == 0 then None else CityStep(CityOf(cs[..|cs| - 1]), cs[|cs| - 1])
  }

  /** What the loop over one result's components computes. */
  function AreaOf(cs: seq<AddressComponent>): Area {
    Area(CityOf(cs), LastOfType(cs, AdminAreaLevel1), LastOfType(cs, CountryType))
  }

  lemma {:induction false} FirstOfTypeSnoc(cs: seq<AddressComponent>, c: AddressComponent, t: string)
    ensures FirstOfType(cs + [c], t) ==
              if FirstOfType(cs, t).Some? then FirstOfType(cs, t)
              else if t in c.types then Some(c.longName) else None
  {
    if |cs| > 0 {
      assert (cs + [c])[1..] == cs[1..] + [c];
      FirstOfTypeSnoc(cs[1..], c, t);
    } else {
      assert ([c])[1..] == [];
    }
  }

  /** A name found among components with non-empty names is non-empty. */
  lemma FoundNamesNonEmpty(cs: seq<AddressComponent>, t: string)
    requires forall k :: 0 <= k < |cs| ==> cs[k].longName != ""
    ensures LastOfType(cs, t).Some? ==> LastOfType(cs, t).value != ""
    ensures FirstOfType(cs, t).Some? ==> FirstOfType(cs, t).value != ""
  {
  }

  /** One loop pass on a city that is the last locality `l` so far, or else
      the first postal town `f`. */
  lemma CityStepCases(l: Option<string>, f: Option<string>, c: AddressComponent)
    requires l.Some? ==> l.value != ""
    requires f.Some? ==> f.value != ""
    requires c.longName != ""
    ensures var l' := if Locality in c.types then Some(c.longName) else l;
            var f' := if f.Some? then f else if PostalTown in c.types then Some(c.longName) else None;
            CityStep(if l.Some? then l else f, c) == if l'.Some? then l' else f'
  {
  }

  /** When no `long_name` is empty, the city is the last `locality` if there
      is one, and otherwise the first `postal_town`. */
  lemma {:induction false} CityIsLastLocalityElseFirstPostalTown(cs: seq<AddressComponent>)
    requires forall k :: 0 <= k < |cs| ==> cs[k].longName != ""
    ensures CityOf(cs) == if LastOfType(cs, Locality).Some? then LastOfType(cs, Locality)
                          else FirstOfType(cs, PostalTown)
  {
    if |cs| > 0 {
      var p, c := cs[..|cs| - 1], cs[|cs| - 1];
      assert cs == p + [c];
      assert forall k :: 0 <= k < |p| ==> p[k] == cs[k];
      CityIsLastLocalityElseFirstPostalTown(p);
      FirstOfTypeSnoc(p, c, PostalTown);
      FoundNamesNonEmpty(p, Locality);
      FoundNamesNonEmpty(p, PostalTown);
      CityStepCases(LastOfType(p, Locality), FirstOfType(p, PostalTown), c);
    }
  }

  /** The loop over `address_components`, shared by `get_city_state` and
      `get_city_from_coordinates`. */
  method FoldAddressComponents(components: seq<AddressComponent>)
    returns (city: Option<string>, region: Option<string>, state: Option<string>)
    ensures Area(city, region, state) == AreaOf(components)
  {
    city, region, state := None, None, None;
    var n := 0;
    while n < |components|
      invariant 0 <= n <= |components|
      invariant city == CityOf(components[..n])
      invariant region == LastOfType(components[..n], AdminAreaLevel1)
      invariant state == LastOfType(components[..n], CountryType)
    {
      var component := components[n];
      assert components[..n + 1][..n] == components[..n];
      if Locality in component.types {
        city := Some(component.longName);
      }
      if !Truthy(city) && PostalTown in component.types {
        city := Some(component.longName);
      }
      if AdminAreaLevel1 in component.types {
        region := Some(component.longName);
      }
      if CountryType in component.types {
        state := Some(component.longName);
      }
      n := n + 1;
    }
    assert components[..n] == components;
  }

  /** What `get_city_state` returns for a response: all `None` unless the
      status is 200 and there is a result; then the first result's area, with
      its coordinates only when it has at least one component (they are
      assigned inside the loop). */
  function PlaceOf(response: GeoResponse): Place {
    if response.statusCode != 200 || |response.results| == 0 then Place(None, None, None, None, None)
    else
      var first := response.results[0];
      var area := AreaOf(first.addressComponents);
      var located := |first.addressComponents| > 0;
      Place(area.city, area.region, area.state,
            if located then Some(first.lat) else None,
            if located then Some(first.lng) else None)
  }

  /** `get_city_state`, given the response to the request. */
  method GetCityState(response: GeoResponse)
    returns (city: Option<string>, region: Option<string>, state: Option<string>,
             latitude: Option<real>, longitude: Option<real>)
    ensures Place(city, region, state, latitude, longitude) == PlaceOf(response)
  {
    city, region, state, latitude, longitude := None, None, None, None, None;
    if response.statusCode == 200 && |response.results| > 0 {
      var first := response.results[0];
      city, region, state := FoldAddressComponents(first.addressComponents);
      if |first.addressComponents| > 0 {
        latitude, longitude := Some(first.lat), Some(first.lng);
      }
    }
  }

  /** What `get_city_from_coordinates` returns: the loop over `results`
      returns during its first pass, so only the first result is read. */
  function AreaFromCoordinates(response: GeoResponse): Area {
    if response.statusCode != 200 || |response.results| == 0 then Area(None, None, None)
    else AreaOf(response.results[0].addressComponents)
  }

  /** `get_city_from_coordinates`, given the response to the request. */
  method GetCityFromCoordinates(response: GeoResponse)
    returns (city: Option<string>, region: Option<string>, state: Option<string>)
    ensures Area(city, region, state) == AreaFromCoordinates(response)
  {
    city, region, state := None, None, None;
    if response.statusCode == 200 && |response.results| > 0 {
      city, region, state := FoldAddressComponents(response.results[0].addressComponents);
    }
  }

  /** The two lookups read nothing beyond the first result, and their names
      agree on a successful response. */
  lemma OnlyFirstResultCounts(response: GeoResponse, others: seq<GeoResult>)
    requires |response.results| > 0
    ensures var cut := response.(results := [response.results[0]] + others);
            PlaceOf(cut) == PlaceOf(response) && AreaFromCoordinates(cut) == AreaFromCoordinates(response)
    ensures var p, a := PlaceOf(response), AreaFromCoordinates(response);
            p.city == a.city && p.region == a.region && p.state == a.state
    ensures PlaceOf(response).latitude.Some? <==>
              response.statusCode == 200 && |response.results[0].addressComponents| > 0
  {
  }

  /** The `continent_name` table of `get_continent_from_country`. */
  const ContinentNames: map<string, string> := map[
    "AF" := "Africa",
    "AS" := "Asia",
    "EU" := "Europe",
    "NA" := "North America",
    "SA" := "South America",
    "OC" := "Oceania",
    "AN" := "Antarctica"
  ]

  /** `get_continent_from_country`: `toAlpha2` and `toContinentCode` stand for
      the two `pycountry_convert` calls, `None` where they raise. */
  function GetContinentFromCountry(countryName: string, toAlpha2: string -> Option<string>,
                                   toContinentCode: string -> Option<string>): (r: Option<string>)
    ensures r.Some? <==> toAlpha2(countryName).Some?
                         && toContinentCode(toAlpha2(countryName).value).Some?
                         && toContinentCode(toAlpha2(countryName).value).value in ContinentNames
    ensures r.Some? ==> r.value == ContinentNames[toContinentCode(toAlpha2(countryName).value).value]
  {
    match toAlpha2(countryName)
    case None => None
    case Some(countryCode) =>
      match toContinentCode(countryCode)
      case None => None
      case Some(continentCode) =>
        if continentCode in ContinentNames then Some(ContinentNames[continentCode]) else None
  }

  /** The table is a bijection between the seven continent codes and seven
      distinct names. */
  lemma ContinentNamesBijective()
    ensures ContinentNames.Keys == {"AF", "AS", "EU", "NA", "SA", "OC", "AN"}
    ensures forall a, b :: a in ContinentNames && b in ContinentNames && ContinentNames[a] == ContinentNames[b] ==> a == b
  {
  }

  /** One CSV row of a prepared-articles file, after the `eval` of its list
      columns. */
  datatype PaperRow = PaperRow(pmid: int, year: int, authors: seq<string>, institutions: seq<string>)

  /** One row of `df_authors` before the location columns are added. */
  datatype AuthorRow = AuthorRow(pmid: int, year: int, author: string, institution: Option<string>)

  /** The institutions zipped with the authors: the list itself, or
      `[None] * len(authors)` when it is empty. */
  function PaddedInstitutions(p: PaperRow): seq<Option<string>> {
    if |p.institutions| == 0 then seq(|p.authors|, _ => None)
    else seq(|p.institutions|, k requires 0 <= k < |p.institutions| => Some(p.institutions[k]))
  }

  /** `institution.strip() if institution else None`. */
  function InstitutionCell(institution: Option<string>): Option<string> {
    if Truthy(institution) then Some(Strip(institution.value)) else None
  }

  /** The rows one paper contributes: `zip` stops at the shorter list, so
      there are `min(len(authors), len(institutions))` of them, or one per
      author when the institution list is empty. The `k`-th author is paired
      with the `k`-th institution. */
  function RowsOfPaper(p: PaperRow): seq<AuthorRow> {
    var padded := PaddedInstitutions(p);
    seq(Min(|p.authors|, |padded|), k requires 0 <= k < Min(|p.authors|, |padded|) =>
      AuthorRow(p.pmid, p.year, Strip(p.authors[k]), InstitutionCell(padded[k])))
  }

  lemma RowsOfPaperShape(p: PaperRow)
    ensures |RowsOfPaper(p)| == if |p.institutions| == 0 then |p.authors| else Min(|p.authors|, |p.institutions|)
    ensures forall k :: 0 <= k < |RowsOfPaper(p)| ==>
              && RowsOfPaper(p)[k].pmid == p.pmid && RowsOfPaper(p)[k].year == p.year
              && RowsOfPaper(p)[k].author == Strip(p.authors[k])
              && RowsOfPaper(p)[k].institution ==
                   if |p.institutions| == 0 || p.institutions[k] == "" then None
                   else Some(Strip(p.institutions[k]))
  {
  }

  /** `rows` after the loop over `df.iterrows()`. */
  function FlattenSpec(papers: seq<PaperRow>): seq<AuthorRow> {
    if |papers| == 0 then [] else FlattenSpec(papers[..|papers| - 1]) + RowsOfPaper(papers[|papers| - 1])
  }

  /** The inner loop over `zip(authors, institutions)` for one paper. */
  method ZipPaper(row: PaperRow) returns (paperRows: seq<AuthorRow>)
    ensures paperRows == RowsOfPaper(row)
  {
    var authors := row.authors;
    var institutions := PaddedInstitutions(row);
    ghost var contributed := RowsOfPaper(row);
    paperRows := [];
    var k := 0;
    while k < Min(|authors|, |institutions|)
      invariant 0 <= k <= Min(|authors|, |institutions|) == |contributed|
      invariant paperRows == contributed[..k]
    {
      var next := AuthorRow(row.pmid, row.year, Strip(authors[k]), InstitutionCell(institutions[k]));
      assert contributed[k] == next;
      PrefixSnoc(contributed, k);
      paperRows := paperRows + [next];
      k := k + 1;
    }
  }

  lemma PrefixSnoc<T>(s: seq<T>, k: nat)
    requires k < |s|
    ensures s[..k + 1] == s[..k] + [s[k]]
  {
  }

  /** The flattening loop of lines 133-144. */
  method FlattenAuthorships(papers: seq<PaperRow>) returns (rows: seq<AuthorRow>)
    ensures rows == FlattenSpec(papers)
  {
    rows := [];
    var n := 0;
    while n < |papers|
      invariant 0 <= n <= |papers|
      invariant rows == FlattenSpec(papers[..n])
    {
      assert papers[..n + 1][..n] == papers[..n];
      var paperRows := ZipPaper(papers[n]);
      rows := rows + paperRows;
      n := n + 1;
    }
    assert papers[..n] == papers;
  }

  /** Every flattened row belongs to one of the papers, with that paper's
      `PMID` and year, and its author and institution are stripped. */
  lemma {:induction false} FlattenedRowsFromPapers(papers: seq<PaperRow>)
    ensures forall r :: r in FlattenSpec(papers) ==>
              && (exists j :: 0 <= j < |papers| && r.pmid == papers[j].pmid && r.year == papers[j].year)
              && IsStripped(r.author)
              && (r.institution.Some? ==> IsStripped(r.institution.value))
  {
    if |papers| > 0 {
      var p, last := papers[..|papers| - 1], papers[|papers| - 1];
      FlattenedRowsFromPapers(p);
      forall r | r in FlattenSpec(papers)
        ensures && (exists j :: 0 <= j < |papers| && r.pmid == papers[j].pmid && r.year == papers[j].year)
                && IsStripped(r.author)
                && (r.institution.Some? ==> IsStripped(r.institution.value))
      {
        if r in FlattenSpec(p) {
          var j :| 0 <= j < |p| && r.pmid == p[j].pmid && r.year == p[j].year;
          assert papers[j] == p[j];
        } else {
          assert r in RowsOfPaper(last);
          RowOfPaperFacts(last, r);
          assert r.pmid == papers[|papers| - 1].pmid;
        }
      }
    }
  }

  /** A row of one paper carries that paper's `PMID` and year, and stripped
      names. */
  lemma RowOfPaperFacts(p: PaperRow, r: AuthorRow)
    requires r in RowsOfPaper(p)
    ensures r.pmid == p.pmid && r.year == p.year
    ensures IsStripped(r.author)
    ensures r.institution.Some? ==> IsStripped(r.institution.value)
  {
    var rows := RowsOfPaper(p);
    RowsOfPaperShape(p);
    var k :| 0 <= k < |rows| && rows[k] == r;
    StripShape(p.authors[k]);
    if r.institution.Some? {
      StripShape(p.institutions[k]);
    }
  }

  /** The CSV row written for a prepared entry. */
  function PaperOf(e: Entry): PaperRow {
    PaperRow(e.pmid, e.year, e.authors, e.institutions)
  }

  /** When every authorship names exactly one institution, the zip pairs each
      author with their own institution. */
  lemma OwnInstitutionWhenOneEach(e: Entry, authorships: seq<Authorship>)
    requires e.institutions == InstitutionNames(authorships)
    requires |e.authors| == |authorships| > 0
    requires forall k :: 0 <= k < |authorships| ==>
               authorships[k].institutions.Some? && |authorships[k].institutions.value| == 1
    ensures |RowsOfPaper(PaperOf(e))| == |authorships|
    ensures forall k :: 0 <= k < |authorships| ==>
              var own := authorships[k].institutions.value[0].displayName.GetOr("");
              RowsOfPaper(PaperOf(e))[k].institution == (if own == "" then None else Some(Strip(own)))
  {
    InstitutionNamesOnePerAuthor(authorships);
    RowsOfPaperShape(PaperOf(e));
  }

  /** Two authorships: the first at two institutions, the second at one. */
  const UnevenAuthorships: seq<Authorship> := [
    Authorship(Some(Author(Some("A"))), Some([Institution(Some("I1")), Institution(Some("I2"))])),
    Authorship(Some(Author(Some("B"))), Some([Institution(Some("J"))]))]

  lemma UnevenInstitutionNames()
    ensures InstitutionNames(UnevenAuthorships) == ["I1", "I2", "J"]
  {
    var insts1 := [Institution(Some("I1")), Institution(Some("I2"))];
    assert insts1[..1] == [Institution(Some("I1"))];
    assert InstNames(insts1) == ["I1", "I2"];
    assert UnevenAuthorships[..1] == [UnevenAuthorships[0]];
    assert InstitutionNames(UnevenAuthorships[..1]) == ["I1", "I2"];
  }

  /** Otherwise the pairing is by position, not per author: the second
      author is paired with the second entry of the flattened institution
      list, whoever that institution belongs to. */
  lemma ZipMisattributes(pmid: int, year: int, a1: string, a2: string, i1: string, i2: string, rest: seq<string>)
    requires i2 != ""
    ensures RowsOfPaper(PaperRow(pmid, year, [a1, a2], [i1, i2] + rest))[1]
              == AuthorRow(pmid, year, Strip(a2), Some(Strip(i2)))
  {
    var p := PaperRow(pmid, year, [a1, a2], [i1, i2] + rest);
    assert PaddedInstitutions(p)[1] == Some(i2);
    assert |RowsOfPaper(p)| == 2;
  }

  /** With a first author at two institutions and a second at one, the
      second author is paired with the first author's second institution. */
  lemma ZipMisattributesExample()
    ensures RowsOfPaper(PaperRow(1, 2020, ["A", "B"], InstitutionNames(UnevenAuthorships)))[1]
              == AuthorRow(1, 2020, "B", Some("I2"))
  {
    UnevenInstitutionNames();
    assert InstitutionNames(UnevenAuthorships) == ["I1", "I2"] + ["J"];
    ZipMisattributes(1, 2020, "A", "B", "I1", "I2", ["J"]);
    ExampleNamesStripped();
  }

  lemma ExampleNamesStripped()
    ensures Strip("B") == "B" && Strip("I2") == "I2"
  {
    StrippedUnchanged("B");
    StrippedUnchanged("I2");
  }

  /** A row of `df_authors` with its five location columns. */
  datatype LocatedRow = LocatedRow(row: AuthorRow, city: Option<string>, region: Option<string>,
                                   state: Option<string>, latitude: Option<real>, longitude: Option<real>)

  /** `pd.DataFrame(rows)` with the five columns set to `None`. */
  method MakeAuthorsTable(rows: seq<AuthorRow>) returns (table: array<LocatedRow>)
    ensures fresh(table)
    ensures table.Length == |rows|
    ensures forall i :: 0 <= i < |rows| ==> table[i] == LocatedRow(rows[i], None, None, None, None, None)
  {
    table := new LocatedRow[|rows|](i requires 0 <= i < |rows| => LocatedRow(rows[i], None, None, None, None, None));
  }

  /** A row after the first fill loop: rows with a truthy institution take
      the five values `get_city_state` returns for it. */
  function Geocoded(r: LocatedRow, geocode: string -> GeoResponse): LocatedRow {
    if Truthy(r.row.institution) then
      var p := PlaceOf(geocode(r.row.institution.value));
      r.(city := p.city, region := p.region, state := p.state, latitude := p.latitude, longitude := p.longitude)
    else r
  }

  /** The first fill loop (lines 156-164), in place; `geocode` stands for the
      request `get_city_state` sends. */
  method GeocodeInstitutions(table: array<LocatedRow>, geocode: string -> GeoResponse)
    modifies table
    ensures forall i :: 0 <= i < table.Length ==> table[i] == Geocoded(old(table[i]), geocode)
  {
    var i := 0;
    while i < table.Length
      invariant 0 <= i <= table.Length
      invariant forall j :: 0 <= j < i ==> table[j] == Geocoded(old(table[j]), geocode)
      invariant forall j :: i <= j < table.Length ==> table[j] == old(table[j])
    {
      if Truthy(table[i].row.institution) {
        var placeName := table[i].row.institution.value;
        var city, region, state, latitude, longitude := GetCityState(geocode(placeName));
        table[i] := table[i].(city := city, region := region, state := state,
                              latitude := latitude, longitude := longitude);
      }
      i := i + 1;
    }
  }

  /** `value if value else fallback`: fill a falsy cell. */
  function FillIfMissing(value: Option<string>, fallback: Option<string>): Option<string> {
    if Truthy(value) then value else fallback
  }

  /** A row after the second loop: with both coordinates present, each falsy
      name cell takes the reverse lookup's value. */
  function Reconciled(r: LocatedRow, reverse: (real, real) -> GeoResponse): LocatedRow {
    if r.latitude.Some? && r.longitude.Some? then
      var a := AreaFromCoordinates(reverse(r.latitude.value, r.longitude.value));
      r.(city := FillIfMissing(r.city, a.city), region := FillIfMissing(r.region, a.region),
         state := FillIfMissing(r.state, a.state))
    else r
  }

  /** The second fill loop (lines 168-178), in place; `reverse` stands for
      the request `get_city_from_coordinates` sends. */
  method FillFromCoordinates(table: array<LocatedRow>, reverse: (real, real) -> GeoResponse)
    modifies table
    ensures forall i :: 0 <= i < table.Length ==> table[i] == Reconciled(old(table[i]), reverse)
  {
    var i := 0;
    while i < table.Length
      invariant 0 <= i <= table.Length
      invariant forall j :: 0 <= j < i ==> table[j] == Reconciled(old(table[j]), reverse)
      invariant forall j :: i <= j < table.Length ==> table[j] == old(table[j])
    {
      var lat, lng := table[i].latitude, table[i].longitude;
      if lat.Some? && lng.Some? {
        var city, region, state := GetCityFromCoordinates(reverse(lat.value, lng.value));
        if !Truthy(table[i].city) {
          table[i] := table[i].(city := city);
        }
        if !Truthy(table[i].region) {
          table[i] := table[i].(region := region);
        }
        if !Truthy(table[i].state) {
          table[i] := table[i].(state := state);
        }
      }
      i := i + 1;
    }
  }

  /** The reverse lookup never overwrites a truthy name, fills the falsy ones
      from the lookup, leaves the author, institution and coordinates alone,
      and applying it again changes nothing. */
  lemma ReconcileFillsOnlyMissing(r: LocatedRow, reverse: (real, real) -> GeoResponse)
    ensures var s := Reconciled(r, reverse);
            && s.row == r.row && s.latitude == r.latitude && s.longitude == r.longitude
            && (Truthy(r.city) ==> s.city == r.city)
            && (Truthy(r.region) ==> s.region == r.region)
            && (Truthy(r.state) ==> s.state == r.state)
    ensures r.latitude.Some? && r.longitude.Some? ==>
              var a := AreaFromCoordinates(reverse(r.latitude.value, r.longitude.value));
              var s := Reconciled(r, reverse);
              && (!Truthy(r.city) ==> s.city == a.city)
              && (!Truthy(r.region) ==> s.region == a.region)
              && (!Truthy(r.state) ==> s.state == a.state)
    ensures r.latitude.None? || r.longitude.None? ==> Reconciled(r, reverse) == r
    ensures Reconciled(Reconciled(r, reverse), reverse) == Reconciled(r, reverse)
  {
  }

  /** Over a fresh table row, the two loops give coordinates exactly to the
      rows whose institution is truthy and whose geocoding succeeded with a
      non-empty first result, and those rows' names come from the forward
      lookup wherever it found one. */
  lemma LocationPipeline(row: AuthorRow, geocode: string -> GeoResponse, reverse: (real, real) -> GeoResponse)
    ensures var s := Reconciled(Geocoded(LocatedRow(row, None, None, None, None, None), geocode), reverse);
            && s.row == row
            && (s.latitude.Some? <==>
                  && Truthy(row.institution)
                  && geocode(row.institution.value).statusCode == 200
                  && |geocode(row.institution.value).results| > 0
                  && |geocode(row.institution.value).results[0].addressComponents| > 0)
            && (s.latitude.Some? <==> s.longitude.Some?)
            && (Truthy(row.institution) && Truthy(PlaceOf(geocode(row.institution.value)).city) ==>
                  s.city == PlaceOf(geocode(row.institution.value)).city)
            && (!Truthy(row.institution) ==> s == LocatedRow(row, None, None, None, None, None))
  {
  }
}
