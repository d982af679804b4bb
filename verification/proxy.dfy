/**
 * The request proxy of src/proxy.ts: every API request is forwarded with two extra
 * headers, the visitor's country and the Wikipedia language chosen for it.
 *
 * Request headers are a map from lower-case header name to value; `set` replaces a
 * value, as `Headers.set` does.
 */
module Proxy {
  import opened Wrappers
  import opened JsStrings

  /** `COUNTRY_TO_LANG` */
  const CountryToLang: map<string, string> := map[
    "ID" := "id", "US" := "en", "GB" := "en", "JP" := "ja", "CN" := "zh", "FR" := "fr",
    "DE" := "de", "ES" := "es", "RU" := "ru", "IT" := "it", "BR" := "pt"]

  const CountryHeader: string := "x-vercel-ip-country"
  const WikiLangHeader: string := "x-wiki-lang"
  const UserCountryHeader: string := "x-user-country"

  /** `headers.get(name)` */
  function Get(headers: map<string, string>, name: string): Option<string> {
    if name in headers then Some(headers[name]) else None
  }

  /** `geo?.country || headers.get('x-vercel-ip-country') || 'US'` */
  function Country(geoCountry: Option<string>, headers: map<string, string>): (country: string)
    ensures Truthy(geoCountry) ==> country == geoCountry.value
    ensures !Truthy(geoCountry) && Truthy(Get(headers, CountryHeader)) ==> country == headers[CountryHeader]
    ensures !Truthy(geoCountry) && !Truthy(Get(headers, CountryHeader)) ==> country == "US"
    ensures country != ""
  {
    OrElse(geoCountry, OrElse(Get(headers, CountryHeader), "US"))
  }

  /** `COUNTRY_TO_LANG[country] || 'en'` */
  function Language(country: string): (lang: string)
    ensures country in CountryToLang ==> lang == CountryToLang[country]
    ensures country !in CountryToLang ==> lang == "en"
    ensures lang in CountryToLang.Values
  {
    assert CountryToLang["US"] == "en";
    if country in CountryToLang && CountryToLang[country] != "" then CountryToLang[country] else "en"
  }

  /**
   * `proxy(request)`: the headers the request is forwarded with, the incoming ones
   * plus the language and the country.
   */
  function Forward(geoCountry: Option<string>, headers: map<string, string>): (forwarded: map<string, string>)
    ensures var country := Country(geoCountry, headers);
      && WikiLangHeader in forwarded && forwarded[WikiLangHeader] == Language(country)
      && UserCountryHeader in forwarded && forwarded[UserCountryHeader] == country
    ensures forwarded.Keys == headers.Keys + {WikiLangHeader, UserCountryHeader}
    ensures forall name :: name in headers && name != WikiLangHeader && name != UserCountryHeader ==>
      forwarded[name] == headers[name]
  {
    var country := Country(geoCountry, headers);
    headers[WikiLangHeader := Language(country)][UserCountryHeader := country]
  }

  // ---------------------------------------------------------------------------
  // Properties

  /** Some of the mapped countries. */
  lemma MappedCountries()
    ensures Language("ID") == "id" && Language("JP") == "ja" && Language("BR") == "pt"
    ensures Language("CN") == "zh" && Language("GB") == "en"
  {
  }

  /** A country outside the table reads English Wikipedia. */
  lemma UnmappedCountry(country: string)
    requires country !in {"ID", "US", "GB", "JP", "CN", "FR", "DE", "ES", "RU", "IT", "BR"}
    ensures Language(country) == "en"
  {
  }

  /** With no location at all the visitor counts as being in the US and reads English Wikipedia. */
  lemma NoLocation(headers: map<string, string>)
    requires CountryHeader !in headers
    ensures Country(None, headers) == "US"
    ensures var f := Forward(None, headers); f[UserCountryHeader] == "US" && f[WikiLangHeader] == "en"
  {
  }

  /** The platform's geolocation wins over the country header. */
  lemma GeoWins(geo: string, headers: map<string, string>)
    requires geo != ""
    ensures Forward(Some(geo), headers)[UserCountryHeader] == geo
    ensures Forward(Some(geo), headers)[WikiLangHeader] == Language(geo)
  {
  }
}
