/** The country picker: a fixed table of dialling codes, a search box that
    keeps the countries whose lower-cased name includes the lower-cased
    query or whose code includes the query as typed, the check mark on the
    current country, and the parameters sent back to the share screen. */
module CountrySelectionScreen {
  import opened Wrappers
  import opened Strings
  import opened Seqs

  datatype Country = Country(id: string, name: string, code: string)

  const COUNTRIES: seq<Country> := [
    Country("es", "Espa\U{00F1}a", "+34"),
    Country("gq", "Equatorial Guinea", "+240"),
    Country("gr", "Grecia", "+30"),
    Country("gs", "South Georgia and the S...", "+500"),
    Country("gt", "Guatemala", "+502"),
    Country("gy", "Guyana", "+592"),
    Country("hk", "Hong Kong", "+852"),
    Country("hn", "Honduras", "+504")
  ]

  const DEFAULT_COUNTRY_ID: string := "es"

  /** The search predicate: the name is compared case-insensitively, the
      code as typed. */
  predicate CountryMatches(c: Country, query: string) {
    Contains(Lower(c.name), Lower(query)) || Contains(c.code, query)
  }

  /** `filteredCountries`: the whole table for an empty query, otherwise the
      matching countries in table order. */
  function FilteredCountries(query: string): (r: seq<Country>)
    ensures query == "" ==> r == COUNTRIES
    ensures forall c :: c in r ==> c in COUNTRIES && CountryMatches(c, query)
    ensures forall c :: c in COUNTRIES && CountryMatches(c, query) ==> c in r
    ensures IsSubsequence(r, COUNTRIES)
  {
    if query == "" then
      ContainsEmpty(Lower(COUNTRIES[0].name));
      EmptyQueryMatchesAll();
      COUNTRIES
    else
      FilterSpec(COUNTRIES, (c: Country) => CountryMatches(c, query));
      Filter(COUNTRIES, (c: Country) => CountryMatches(c, query))
  }

  lemma EmptyQueryMatchesAll()
    ensures forall c :: CountryMatches(c, "")
    ensures IsSubsequence(COUNTRIES, COUNTRIES)
  {
    forall c: Country ensures CountryMatches(c, "") {
      ContainsEmpty(Lower(c.name));
    }
    SubsequenceReflexive(COUNTRIES);
  }

  /** The empty-query shortcut agrees with filtering: every name includes
      the empty string, so the plain filter would also keep every country. */
  lemma EmptyQueryShortcutAgrees()
    ensures Filter(COUNTRIES, (c: Country) => CountryMatches(c, "")) == COUNTRIES
  {
    EmptyQueryMatchesAll();
    FilterKeepsAll(COUNTRIES, (c: Country) => CountryMatches(c, ""));
  }

  /** `route.params?.currentCountryId || 'es'`. */
  function CurrentCountryId(param: Option<string>): (id: string)
    ensures id != ""
    ensures Truthy(param) ==> id == param.value
    ensures !Truthy(param) ==> id == DEFAULT_COUNTRY_ID
  {
    OrElse(param, DEFAULT_COUNTRY_ID)
  }

  predicate IsSelected(item: Country, currentId: string) {
    item.id == currentId
  }

  /** No two entries of `xs` share an id. */
  predicate DistinctIds(xs: seq<Country>) {
    forall i, j :: 0 <= i < j < |xs| ==> xs[i].id != xs[j].id
  }

  lemma CountryIdsDistinct()
    ensures DistinctIds(COUNTRIES)
  {
  }

  /** Deleting entries cannot create a repeated id. */
  lemma {:induction false} SubsequenceKeepsDistinctIds(a: seq<Country>, b: seq<Country>)
    requires IsSubsequence(a, b) && DistinctIds(b)
    ensures DistinctIds(a)
    decreases |b|
  {
    if a != [] {
      assert DistinctIds(b[1..]) by {
        forall i, j | 0 <= i < j < |b[1..]| ensures b[1..][i].id != b[1..][j].id {
          assert b[1..][i] == b[i + 1] && b[1..][j] == b[j + 1];
        }
      }
      if a[0] == b[0] && IsSubsequence(a[1..], b[1..]) {
        SubsequenceKeepsDistinctIds(a[1..], b[1..]);
        SubsequenceMembers(a[1..], b[1..]);
        forall i, j | 0 <= i < j < |a| ensures a[i].id != a[j].id {
          assert a[j] == a[1..][j - 1];
          assert a[j] in b[1..];
          var k :| 0 <= k < |b[1..]| && b[1..][k] == a[j];
          assert b[k + 1] == a[j];
          if i > 0 {
            assert a[i] == a[1..][i - 1];
          }
        }
      } else {
        SubsequenceKeepsDistinctIds(a, b[1..]);
      }
    }
  }

  /** Whatever the query and the current id, at most one listed country
      carries the check mark. */
  lemma AtMostOneSelected(query: string, currentId: string)
    ensures var shown := FilteredCountries(query);
      forall i, j :: 0 <= i < j < |shown| ==> !(IsSelected(shown[i], currentId) && IsSelected(shown[j], currentId))
  {
    CountryIdsDistinct();
    SubsequenceKeepsDistinctIds(FilteredCountries(query), COUNTRIES);
  }

  /** The parameters `handleCountrySelect` navigates back with. */
  datatype ShareParams = ShareParams(selectedCountry: Country, showWhatsAppInput: bool)

  function HandleCountrySelect(c: Country): (p: ShareParams)
    ensures p.selectedCountry == c && p.showWhatsAppInput
  {
    ShareParams(c, true)
  }
}
