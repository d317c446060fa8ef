/**
 * City-name normalisation, validation, suggestion and lookup over the static tables of
 * src/utils/cityValidator.ts.
 */
module CityValidator {
  import opened Types
  import opened Seqs
  import opened JsStrings

  /** `supportedCities`, already in normal form. */
  const SupportedCities: seq<string> := [
    "paris", "marseille", "lyon", "toulouse", "nice", "nantes", "strasbourg", "montpellier",
    "bordeaux", "lille", "rennes", "reims", "le havre", "saint-etienne", "toulon", "angers",
    "grenoble", "dijon", "nimes", "aix-en-provence"
  ]

  /** The suggestions offered when nothing resembles the input. */
  const FallbackCities: seq<string> := ["paris", "lyon", "marseille"]

  datatype CityRecord = CityRecord(city: string, lat: real, lon: real)

  datatype Coordinates = Coordinates(lat: real, lon: real)

  /** `cityDatabase`. */
  const CityDatabase: seq<CityRecord> := [
    CityRecord("Paris", 48.8566, 2.3522),
    CityRecord("Lyon", 45.764, 4.8357),
    CityRecord("Marseille", 43.2965, 5.3698),
    CityRecord("Lille", 50.6292, 3.0573),
    CityRecord("Toulouse", 43.6047, 1.4442),
    CityRecord("Bordeaux", 44.8378, -0.5792),
    CityRecord("Nice", 43.7102, 7.262),
    CityRecord("Nantes", 47.2184, -1.5536),
    CityRecord("Strasbourg", 48.5734, 7.7521),
    CityRecord("Montpellier", 43.6108, 3.8767),
    CityRecord("Rennes", 48.1173, -1.6778),
    CityRecord("Rouen", 49.4432, 1.0993),
    CityRecord("Caen", 49.1829, -0.3707),
    CityRecord("Le Havre", 49.4944, 0.1079),
    CityRecord("Montivilliers", 49.5458, 0.1917)
  ]

  // ----- normalizeCity -----

  /** The combining diacritical marks U+0300–U+036F, which the normaliser deletes. */
  predicate IsCombiningMark(c: char) {
    0x300 <= c as int <= 0x36F
  }

  /**
   * The base letter that canonical decomposition (NFD) leaves in front of the marks, for
   * the precomposed letters of Latin-1; every other code point is its own base.
   */
  function BaseLetter(c: char): (b: char)
    ensures !IsCombiningMark(c) ==> !IsCombiningMark(b)
    ensures c as int < 0x80 ==> b == c
  {
    var n := c as int;
    if 0xC0 <= n <= 0xC5 then 'A'
    else if n == 0xC7 then 'C'
    else if 0xC8 <= n <= 0xCB then 'E'
    else if 0xCC <= n <= 0xCF then 'I'
    else if n == 0xD1 then 'N'
    else if 0xD2 <= n <= 0xD6 then 'O'
    else if 0xD9 <= n <= 0xDC then 'U'
    else if n == 0xDD then 'Y'
    else if 0xE0 <= n <= 0xE5 then 'a'
    else if n == 0xE7 then 'c'
    else if 0xE8 <= n <= 0xEB then 'e'
    else if 0xEC <= n <= 0xEF then 'i'
    else if n == 0xF1 then 'n'
    else if 0xF2 <= n <= 0xF6 then 'o'
    else if 0xF9 <= n <= 0xFC then 'u'
    else if n == 0xFD || n == 0xFF then 'y'
    else c
  }

  /** `normalize("NFD").replace(/[̀-ͯ]/g, "")`: letters lose their accents, loose marks vanish. */
  function StripAccents(s: string): (r: string)
    ensures |r| <= |s|
    ensures forall i :: 0 <= i < |r| ==> !IsCombiningMark(r[i])
    ensures (forall i :: 0 <= i < |s| ==> s[i] as int < 0x80) ==> r == s
  {
    if s == [] then []
    else (if IsCombiningMark(s[0]) then [] else [BaseLetter(s[0])]) + StripAccents(s[1..])
  }

  /**
   * ASCII capitals to small letters, written independently of `ToLowerCase`: the reference
   * definition `LowerAscii` compares `toLowerCase` with on plain-ASCII input.
   */
  function AsciiLower(s: string): (r: string)
    ensures |r| == |s|
  {
    if s == [] then []
    else [if 'A' <= s[0] <= 'Z' then (s[0] as int + 32) as char else s[0]] + AsciiLower(s[1..])
  }

  /** `normalizeCity`: accents stripped, lower-cased, trimmed. */
  function NormalizeCity(city: string): (r: string)
    ensures r == [] || (!IsSpace(r[0]) && !IsSpace(r[|r| - 1]))
  {
    Trim(ToLowerCase(StripAccents(city)))
  }

  /** The normal form holds no capital that `toLowerCase` would lower. */
  lemma NormalFormIsLower(city: string)
    ensures forall i :: 0 <= i < |NormalizeCity(city)| ==> !IsCapital(NormalizeCity(city)[i])
  {
    var low := ToLowerCase(StripAccents(city));
    var r := NormalizeCity(city);
    var k := SkipSpaces(low, 0);
    forall i | 0 <= i < |r| ensures !IsCapital(r[i]) {
      assert r[i] == low[k + i];
    }
  }

  /** On plain ASCII, normalising is lower-casing and then trimming. */
  lemma {:induction false} NormalizeAscii(city: string)
    requires forall i :: 0 <= i < |city| ==> city[i] as int < 0x80
    ensures NormalizeCity(city) == Trim(AsciiLower(city))
  {
    assert StripAccents(city) == city;
    LowerAscii(city);
  }

  lemma {:induction false} LowerAscii(s: string)
    requires forall i :: 0 <= i < |s| ==> s[i] as int < 0x80
    ensures ToLowerCase(s) == AsciiLower(s)
    decreases |s|
  {
    if s != [] {
      LowerAscii(s[1..]);
      assert ToLowerCase(s) == [LowerChar(s[0])] + ToLowerCase(s[1..]);
    }
  }

  /** A string of white space only, or the empty string, normalises to the empty string. */
  lemma BlankNormalizesToEmpty(city: string)
    requires forall i :: 0 <= i < |city| ==> IsSpace(city[i])
    ensures NormalizeCity(city) == ""
  {
    assert forall i :: 0 <= i < |city| ==> city[i] as int < 0x80 || IsSpace(city[i]);
    BlankStripsToBlank(city);
  }

  lemma {:induction false} BlankStripsToBlank(s: string)
    requires forall i :: 0 <= i < |s| ==> IsSpace(s[i])
    ensures forall i :: 0 <= i < |ToLowerCase(StripAccents(s))| ==> IsSpace(ToLowerCase(StripAccents(s))[i])
    decreases |s|
  {
    if s != [] {
      BlankStripsToBlank(s[1..]);
      var t := StripAccents(s);
      assert !IsCombiningMark(s[0]);
      assert t == [BaseLetter(s[0])] + StripAccents(s[1..]);
      assert BaseLetter(s[0]) == s[0];
      forall i | 0 <= i < |t| ensures IsSpace(t[i]) {
        if i > 0 {
          assert t[i] == StripAccents(s[1..])[i - 1];
          assert IsSpace(ToLowerCase(StripAccents(s[1..]))[i - 1]);
        }
      }
    }
  }

  // ----- isCitySupported -----

  /** The second pass: some supported name equals the input once white space is removed from both. */
  function AnySpacelessMatch(squashed: string, cities: seq<string>): (r: bool)
    ensures r <==> exists i :: 0 <= i < |cities| && RemoveSpaces(cities[i]) == squashed
  {
    if cities == [] then false
    else if RemoveSpaces(cities[0]) == squashed then true
    else
      var r := AnySpacelessMatch(squashed, cities[1..]);
      assert forall i :: 1 <= i < |cities| ==> cities[1..][i - 1] == cities[i];
      r
  }

  /** The third pass: the input contains a supported name or is contained in one. */
  function AnyPartialMatch(n: string, cities: seq<string>): (r: bool)
    ensures r <==> exists i :: 0 <= i < |cities| && (Includes(n, cities[i]) || Includes(cities[i], n))
  {
    if cities == [] then false
    else if Includes(n, cities[0]) || Includes(cities[0], n) then true
    else
      var r := AnyPartialMatch(n, cities[1..]);
      assert forall i :: 1 <= i < |cities| ==> cities[1..][i - 1] == cities[i];
      r
  }

  /** The three passes of `isCitySupported` over a normalised input: exact, white-space-insensitive, partial. */
  predicate MatchesSomeCity(n: string, cities: seq<string>) {
    if n in cities then true
    else if AnySpacelessMatch(RemoveSpaces(n), cities) then true
    else AnyPartialMatch(n, cities)
  }

  /** `isCitySupported`: the empty string is rejected before any matching. */
  predicate IsCitySupported(city: string)
    ensures IsCitySupported(city) ==> city != ""
    // a non-empty input whose normal form is listed is accepted by the first pass
    ensures city != "" && NormalizeCity(city) in SupportedCities ==> IsCitySupported(city)
  {
    city != "" && MatchesSomeCity(NormalizeCity(city), SupportedCities)
  }

  /** How one normalised name can be accepted against one supported name. */
  predicate Accepts(n: string, supported: string) {
    n == supported || RemoveSpaces(n) == RemoveSpaces(supported) || Includes(n, supported) || Includes(supported, n)
  }

  /** The passes accept exactly the names some listed name accepts. */
  lemma MatchesSomeCityIff(n: string, cities: seq<string>)
    ensures MatchesSomeCity(n, cities) <==> exists i :: 0 <= i < |cities| && Accepts(n, cities[i])
  {
    if n in cities {
      var i :| 0 <= i < |cities| && cities[i] == n;
      assert Accepts(n, cities[i]);
    }
  }

  /** The validator accepts exactly the non-empty inputs whose normal form some supported name accepts. */
  lemma IsCitySupportedIff(city: string)
    ensures IsCitySupported(city) <==>
      city != "" && exists i :: 0 <= i < |SupportedCities| && Accepts(NormalizeCity(city), SupportedCities[i])
  {
    MatchesSomeCityIff(NormalizeCity(city), SupportedCities);
  }

  /** The empty string is rejected; an exact normal form is accepted. */
  lemma SupportedBasics(city: string)
    ensures !IsCitySupported("")
    ensures city != "" && NormalizeCity(city) in SupportedCities ==> IsCitySupported(city)
  {
  }

  /**
   * Any non-empty input of white space alone is accepted: it normalises to "", which every
   * supported name contains.
   */
  lemma BlankCityIsSupported(city: string)
    requires city != "" && forall i :: 0 <= i < |city| ==> IsSpace(city[i])
    ensures IsCitySupported(city)
  {
    BlankNormalizesToEmpty(city);
    IncludesEmptyAndSelf(SupportedCities[0]);
    assert Includes(SupportedCities[0], NormalizeCity(city));
  }

  // ----- getSimilarCities -----

  /** The two-character prefix test of `getSimilarCities`. */
  predicate Resembles(n: string, supported: string) {
    Includes(n, Substring(supported, 0, 2)) || Includes(supported, Substring(n, 0, 2))
  }

  function ResemblesInput(n: string): string -> bool {
    (c: string) => Resembles(n, c)
  }

  /** The supported names that resemble the normalised input, in table order. */
  function Resembling(n: string): (r: seq<string>)
    ensures Subseq(r, SupportedCities)
  {
    FilterSubseq(SupportedCities, ResemblesInput(n));
    Filter(SupportedCities, ResemblesInput(n))
  }

  /** No two supported names have both the same length and the same first letter. */
  predicate ShapesDiffer(cities: seq<string>)
  {
    forall i, j :: 0 <= i < j < |cities| ==>
      |cities[i]| != |cities[j]| || (cities[i] != [] && cities[j] != [] && cities[i][0] != cities[j][0])
  }

  lemma ShapesDifferDistinct(cities: seq<string>)
    requires ShapesDiffer(cities)
    ensures Distinct(cities)
  {
  }

  /** The supported list names each city once. */
  lemma SupportedCitiesDistinct()
    ensures Distinct(SupportedCities)
  {
    var lens := seq(|SupportedCities|, i requires 0 <= i < |SupportedCities| => |SupportedCities[i]|);
    assert lens == [5, 9, 4, 8, 4, 6, 10, 11, 8, 5, 6, 5, 8, 13, 6, 6, 8, 5, 5, 15];
    ShapesDifferDistinct(SupportedCities);
  }

  /**
   * The loop of `getSimilarCities`: it keeps the names that pass `p` and stops once it holds
   * `maxSuggestions` of them, checking the bound only after each name.
   */
  method CollectMatching(cities: seq<string>, p: string -> bool, maxSuggestions: int) returns (found: seq<string>)
    requires cities != []
    ensures maxSuggestions >= 1 ==>
      var m := Filter(cities, p);
      found == m[..if maxSuggestions < |m| then maxSuggestions else |m|]
    // with no positive bound, only the first name is looked at
    ensures maxSuggestions < 1 ==> found == if p(cities[0]) then [cities[0]] else []
    ensures |found| <= |Filter(cities, p)| && found == Filter(cities, p)[..|found|]
  {
    found := [];
    var i := 0;
    while i < |cities|
      invariant 0 <= i <= |cities|
      invariant found == Filter(cities[..i], p)
      invariant 0 < i ==> |found| < maxSuggestions
      decreases |cities| - i
    {
      FilterAppend(cities[..i], [cities[i]], p);
      assert cities[..i + 1] == cities[..i] + [cities[i]];
      if p(cities[i]) {
        found := found + [cities[i]];
      }
      i := i + 1;
      if |found| >= maxSuggestions {
        break;
      }
    }
    FilterAppend(cities[..i], cities[i..], p);
    assert cities[..i] + cities[i..] == cities;
    if maxSuggestions < 1 {
      assert i == 1 && cities[..1] == [cities[0]];
    }
  }

  /**
   * `getSimilarCities(city, maxSuggestions)`: the first `maxSuggestions` resembling names,
   * or a slice of the fallback when none resembles.
   */
  method GetSimilarCities(city: string, maxSuggestions: int) returns (suggestions: seq<string>)
    ensures city == "" ==> suggestions == []
    ensures city != "" && maxSuggestions >= 1 ==>
      var m := Resembling(NormalizeCity(city));
      suggestions == if m == [] then SliceTo(FallbackCities, maxSuggestions)
                     else m[..if maxSuggestions < |m| then maxSuggestions else |m|]
    // with no positive bound the loop still looks at the first name before it stops
    ensures city != "" && maxSuggestions < 1 ==>
      suggestions == if Resembles(NormalizeCity(city), SupportedCities[0]) then [SupportedCities[0]]
                     else SliceTo(FallbackCities, maxSuggestions)
    ensures WellOffered(suggestions, maxSuggestions)
  {
    if city == "" {
      return [];
    }
    var n := NormalizeCity(city);
    suggestions := CollectMatching(SupportedCities, ResemblesInput(n), maxSuggestions);
    if |suggestions| == 0 {
      suggestions := SliceTo(FallbackCities, maxSuggestions);
      FallbackIsSupported(maxSuggestions);
    } else {
      SupportedCitiesDistinct();
      PrefixOfSubseq(suggestions, Resembling(n), SupportedCities);
      assert WellOffered(suggestions, maxSuggestions);
    }
  }

  /**
   * What any list of suggestions satisfies: only supported names, each once, never more
   * than asked for, and in table order unless it is the fallback.
   */
  predicate WellOffered(s: seq<string>, maxSuggestions: int) {
    && Distinct(s)
    && (forall i :: 0 <= i < |s| ==> s[i] in SupportedCities)
    && (maxSuggestions >= 1 ==> |s| <= maxSuggestions)
    && (Subseq(s, SupportedCities) || s == SliceTo(FallbackCities, maxSuggestions))
  }

  /** Every slice of the fallback names distinct supported cities. */
  lemma FallbackIsSupported(maxSuggestions: int)
    ensures WellOffered(SliceTo(FallbackCities, maxSuggestions), maxSuggestions)
  {
    var f := SliceTo(FallbackCities, maxSuggestions);
    assert f == FallbackCities[..|f|];
    assert "paris" == SupportedCities[0] && "lyon" == SupportedCities[2] && "marseille" == SupportedCities[1];
  }

  lemma PrefixOfSubseq(found: seq<string>, m: seq<string>, cities: seq<string>)
    requires Subseq(m, cities) && Distinct(cities)
    requires |found| <= |m| && found == m[..|found|]
    ensures Subseq(found, cities) && Distinct(found)
    ensures forall i :: 0 <= i < |found| ==> found[i] in cities
  {
    SubseqPrefix(m, cities, |found|);
    SubseqDistinct(found, cities);
    SubseqMembers(found, cities);
  }

  // ----- getCityCoordinates -----

  /** The test `getCityCoordinates` hands to `find`: the record's normal form is `n`. */
  function NamedAs(n: string): CityRecord -> bool {
    (rec: CityRecord) => NormalizeCity(rec.city) == n
  }

  /** The coordinates of the first record of `db` that passes `p`, if any. */
  function LookUp(db: seq<CityRecord>, p: CityRecord -> bool): (r: Option<Coordinates>)
    ensures r.None? <==> forall i :: 0 <= i < |db| ==> !p(db[i])
    ensures r.Some? ==> exists i: nat :: IsFirst(db, p, i) && r.value == Coordinates(db[i].lat, db[i].lon)
  {
    match FindFirst(db, p, 0)
    case None => None
    case Some(i) =>
      assert IsFirst(db, p, i);
      Some(Coordinates(db[i].lat, db[i].lon))
  }

  /** `getCityCoordinates`: the database is searched for the input's normal form. */
  function GetCityCoordinates(city: string): (r: Option<Coordinates>)
    // found coordinates are those of a record whose normal form is the input's
    ensures r.Some? ==>
      exists i: nat :: i < |CityDatabase| && NormalizeCity(CityDatabase[i].city) == NormalizeCity(city)
        && r.value == Coordinates(CityDatabase[i].lat, CityDatabase[i].lon)
  {
    var p := NamedAs(NormalizeCity(city));
    var r := LookUp(CityDatabase, p);
    if r.Some? then
      var i: nat :| IsFirst(CityDatabase, p, i) && r.value == Coordinates(CityDatabase[i].lat, CityDatabase[i].lon);
      assert p(CityDatabase[i]);
      r
    else r
  }

  /** The lookup succeeds exactly when some record shares the input's normal form. */
  lemma GetCityCoordinatesIff(city: string)
    ensures GetCityCoordinates(city).Some? <==>
      exists i :: 0 <= i < |CityDatabase| && NormalizeCity(CityDatabase[i].city) == NormalizeCity(city)
  {
    var p := NamedAs(NormalizeCity(city));
    assert forall i :: 0 <= i < |CityDatabase| ==> (p(CityDatabase[i]) <==> NormalizeCity(CityDatabase[i].city) == NormalizeCity(city));
  }
}
