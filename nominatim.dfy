/** Nominatim.py: the city guessed from the address string the geocoder
    returns for an institution name. */
module Nominatim {
  import opened Wrappers
  import opened PyStr

  /** What `geolocator.geocode(institution_name)` did: found a location with
      this `address`, found nothing, or raised. */
  datatype GeocodeOutcome = Located(address: string) | NotFound | Raised

  /** The index `get_city_from_institution` reads in a list of `n` parts
      (`-3`, `-2` or `-1` counted from the end). */
  function CityPartIndex(n: nat): nat
    requires n >= 1
  {
    if n >= 3 then n - 3 else if n >= 2 then n - 2 else n - 1
  }

  /** `get_city_from_institution`, given the geocoder's outcome. */
  function GetCityFromInstitution(outcome: GeocodeOutcome): (city: Option<string>)
    ensures city.Some? <==> outcome.Located?
    ensures city.Some? ==> ',' !in city.value && IsStripped(city.value)
  {
    match outcome
    case Located(address) =>
      var addressParts := Split(address, ',');
      var part := addressParts[CityPartIndex(|addressParts|)];
      StripShape(part);
      assert ',' !in Strip(part) by {
        if ',' in Strip(part) {
          StripChars(part, ',');
        }
      }
      Some(Strip(part))
    case NotFound => None
    case Raised => None
  }

  /** With four or more parts the city is the third part from the end. */
  lemma CityOfLongAddress(rest: string, town: string, region: string, country: string)
    requires ',' !in town && ',' !in region && ',' !in country
    ensures GetCityFromInstitution(Located(rest + "," + town + "," + region + "," + country)) == Some(Strip(town))
  {
    var tail := town + "," + region + "," + country;
    ThreeParts(town, region, country);
    var address := rest + "," + town + "," + region + "," + country;
    Regroup(rest, ",", town, region, country);
    SplitSuffix(rest, tail);
    var parts := Split(address, ',');
    assert parts[|parts| - 3..] == [town, region, country];
    assert parts[|parts| - 3] == town;
  }

  /** With exactly three parts the city is the first one. */
  lemma CityOfThreePartAddress(first: string, region: string, country: string)
    requires ',' !in first && ',' !in region && ',' !in country
    ensures GetCityFromInstitution(Located(first + "," + region + "," + country)) == Some(Strip(first))
  {
    ThreeParts(first, region, country);
  }

  lemma Regroup<T>(rest: seq<T>, sep: seq<T>, town: seq<T>, region: seq<T>, country: seq<T>)
    ensures rest + sep + town + sep + region + sep + country == rest + sep + (town + sep + region + sep + country)
  {
  }

  lemma ThreeParts(town: string, region: string, country: string)
    requires ',' !in town && ',' !in region && ',' !in country
    ensures Split(town + "," + region + "," + country, ',') == [town, region, country]
  {
    var rc := region + "," + country;
    var s := town + "," + region + "," + country;
    assert s == town + [','] + rc;
    TwoParts(region, country);
    SplitCons(town, ',', rc);
  }

  lemma TwoParts(first: string, second: string)
    requires ',' !in first && ',' !in second
    ensures Split(first + "," + second, ',') == [first, second]
  {
    SplitNone(second, ',');
    SplitCons(first, ',', second);
  }

  /** Splitting `rest + "," + tail` ends with the pieces of `tail`. */
  lemma {:induction false} SplitSuffix(rest: string, tail: string)
    ensures var parts := Split(rest + "," + tail, ',');
            |parts| >= |Split(tail, ',')| + 1
            && parts[|parts| - |Split(tail, ',')|..] == Split(tail, ',')
    decreases |rest|
  {
    var s := rest + "," + tail;
    var i := IndexOf(rest, ',');
    if i == |rest| {
      SplitCons(rest, ',', tail);
    } else {
      var after := rest[i + 1..];
      assert rest == rest[..i] + [','] + after;
      assert s == rest[..i] + [','] + (after + "," + tail);
      SplitCons(rest[..i], ',', after + "," + tail);
      SplitSuffix(after, tail);
    }
  }

  /** With exactly two parts the city is the first one. */
  lemma CityOfTwoPartAddress(first: string, second: string)
    requires ',' !in first && ',' !in second
    ensures GetCityFromInstitution(Located(first + "," + second)) == Some(Strip(first))
  {
    TwoParts(first, second);
  }

  /** Without a comma the city is the whole address. */
  lemma CityOfOnePartAddress(address: string)
    requires ',' !in address
    ensures GetCityFromInstitution(Located(address)) == Some(Strip(address))
  {
    SplitNone(address, ',');
  }
}
