/** The country catalogue: two-letter codes in the style of ISO 3166-1
    alpha-2, registered into a map keyed by the code record. */
module Countries {
  import opened Wrappers
  import opened Text

  /** The continent catalogue entries (only ever passed along here). */
  datatype Continent = AF | AN | AS | EU | NA | OC | SA

  /** An alpha-2 code. Construction is validated by `MakeAlpha2`; map lookup
      uses the record's structural (case-sensitive) equality. */
  datatype Alpha2 = Alpha2(code: string)

  datatype Country = Country(englishName: string, continent: Option<Continent>, alpha2: Alpha2)

  /** The registration map, from alpha-2 record to country. */
  type Registry = map<Alpha2, Country>

  /** The validating record constructor: only a code of exactly two
      characters is accepted. */
  function MakeAlpha2(code: string): (r: Option<Alpha2>)
    ensures r.Some? <==> |code| == 2
    ensures r.Some? ==> r.value.code == code
  {
    if |code| == 2 then Some(Alpha2(code)) else None
  }

  /** The overload `equals(Alpha2)`, which ignores case. The registration map
      never calls it. */
  predicate SameCodeIgnoringCase(a: Alpha2, b: Alpha2) {
    EqualsIgnoreCase(a.code, b.code)
  }

  /** The country constructor: validates the code, then puts the country
      under it without checking for an earlier registration. */
  function Register(reg: Registry, name: string, code: string, continent: Option<Continent>): (r: Option<Registry>)
    ensures r.Some? <==> |code| == 2
    ensures r.Some? ==> Alpha2(code) in r.value && r.value[Alpha2(code)] == Country(name, continent, Alpha2(code))
    ensures r.Some? ==> forall a :: a in reg && a != Alpha2(code) ==> a in r.value && r.value[a] == reg[a]
    ensures r.Some? ==> r.value.Keys == reg.Keys + {Alpha2(code)}
  {
    var a :- MakeAlpha2(code);
    Some(reg[a := Country(name, continent, a)])
  }

  /** `isRegistered(String)`: false for any code whose length is not two,
      otherwise whether that exact code is a key. */
  function IsRegistered(reg: Registry, code: string): (r: bool)
    ensures |code| != 2 ==> !r
    ensures r <==> (|code| == 2 && exists a :: a in reg && a.code == code)
  {
    |code| == 2 && Alpha2(code) in reg
  }

  /** `grabCountry(String)`: empty for any code whose length is not two. */
  function GrabCountry(reg: Registry, code: string): (r: Option<Country>)
    ensures |code| != 2 ==> r.None?
    ensures r.Some? <==> IsRegistered(reg, code)
    ensures r.Some? ==> r.value == reg[Alpha2(code)]
  {
    if |code| == 2 && Alpha2(code) in reg then Some(reg[Alpha2(code)]) else None
  }

  /** Registering the same code twice leaves the later country in place,
      whatever came first. */
  lemma LastRegistrationWins(reg: Registry, code: string, first: string, second: string,
                             c1: Option<Continent>, c2: Option<Continent>)
    requires |code| == 2
    ensures var r1 := Register(reg, first, code, c1);
            r1.Some? && Register(r1.value, second, code, c2).Some? &&
            GrabCountry(Register(r1.value, second, code, c2).value, code) == Some(Country(second, c2, Alpha2(code)))
  {
  }

  /** Lookup is case-sensitive even though the record's own `equals(Alpha2)`
      overload ignores case: a country registered as "ES" is not found
      under "es". */
  lemma LookupIsCaseSensitive()
    ensures var reg := Register(map[], "Spain", "ES", Some(EU));
            reg.Some? && IsRegistered(reg.value, "ES") && !IsRegistered(reg.value, "es")
    ensures SameCodeIgnoringCase(Alpha2("ES"), Alpha2("es"))
  {
    var reg := Register(map[], "Spain", "ES", Some(EU)).value;
    assert Alpha2("es") !in reg.Keys;
    assert Lower("ES") == "es";
    assert Lower("es") == "es";
  }
}
