/**
 * `get_company_logo`: the ticker, upper-cased, is looked up in the static
 * ticker-to-domain mapping; a non-empty domain gives a logo CDN url, anything
 * else gives null.
 */
module Logo {
  import opened Wrappers
  import opened PyStr

  const CdnPrefix: string := "https://cdn.brandfetch.io/"
  const CdnSuffix: string := "/w/400/h/400?c=1id6x5GqB6-98lGs42x"

  /** The logo url for `ticker`, found exactly when its upper-case form maps to a non-empty domain. */
  function LogoUrl(domains: map<string, string>, ticker: string): (url: Option<string>)
    ensures url.Some? <==> Upper(ticker) in domains && domains[Upper(ticker)] != ""
    ensures url.Some? ==> DomainOf(url.value) == Some(domains[Upper(ticker)])
  {
    var domain := if Upper(ticker) in domains then domains[Upper(ticker)] else "";
    if domain != "" then
      var u := CdnPrefix + domain + CdnSuffix;
      assert u[..|CdnPrefix|] == CdnPrefix;
      assert u[|u| - |CdnSuffix|..] == CdnSuffix;
      assert u[|CdnPrefix|..|u| - |CdnSuffix|] == domain;
      Some(u)
    else None
  }

  /** The domain a logo url was built from: the text between the CDN prefix and the fixed suffix. */
  function DomainOf(url: string): Option<string> {
    if |url| >= |CdnPrefix| + |CdnSuffix| && url[..|CdnPrefix|] == CdnPrefix
       && url[|url| - |CdnSuffix|..] == CdnSuffix
    then Some(url[|CdnPrefix|..|url| - |CdnSuffix|])
    else None
  }

  /** Letter case of the ticker does not matter: a lower-case ticker finds the same logo. */
  lemma LogoIgnoresCase(domains: map<string, string>, ticker: string)
    ensures LogoUrl(domains, Lower(ticker)) == LogoUrl(domains, ticker)
    ensures LogoUrl(domains, Upper(ticker)) == LogoUrl(domains, ticker)
  {
    UpperOfLower(ticker);
    UpperIdempotent(ticker);
  }

  lemma UpperIdempotent(s: string)
    ensures Upper(Upper(s)) == Upper(s)
  {
  }
}
