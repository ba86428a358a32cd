/**
 * The per-domain configuration of the backend: the allow-list read from the
 * `ALLOWED_DOMAINS` setting (backend/server.js:13-16), the background tables
 * and their random pick (backend/server.js:68-79, 125-135), and the company
 * name used in the prompt (backend/server.js:84-92, 172-177).
 */
module Domains {
  import opened Text

  /** One allow-list entry: `domain.trim().toLowerCase()`. */
  function NormalizeDomain(piece: string): (d: string)
    ensures IsTrimmed(d) && IsLowerCase(d)
    ensures forall i :: 0 <= i < |d| ==> d[i] == ',' ==> ',' in piece
  {
    var t := Trim(piece);
    ToLowerKeepsTrimmed(t);
    ToLower(t)
  }

  /** `.filter((domain) => domain)`: the non-empty strings, in order. */
  function KeepNonEmpty(xs: seq<string>): (ys: seq<string>)
    ensures forall y :: y in ys <==> y in xs && y != []
  {
    if xs == [] then []
    else (if xs[0] == [] then [] else [xs[0]]) + KeepNonEmpty(xs[1..])
  }

  /** `.map((domain) => domain.trim().toLowerCase())`. */
  function NormalizeAll(pieces: seq<string>): (ds: seq<string>)
    ensures |ds| == |pieces|
    ensures forall i :: 0 <= i < |pieces| ==> ds[i] == NormalizeDomain(pieces[i])
  {
    seq(|pieces|, i requires 0 <= i < |pieces| => NormalizeDomain(pieces[i]))
  }

  lemma NormalizeAllMembers(pieces: seq<string>, d: string)
    ensures d in NormalizeAll(pieces) <==> exists piece :: piece in pieces && NormalizeDomain(piece) == d
    ensures d in NormalizeAll(pieces) && (forall i :: 0 <= i < |pieces| ==> ',' !in pieces[i]) ==> ',' !in d
  {
    var ds := NormalizeAll(pieces);
    if d in ds {
      var i :| 0 <= i < |ds| && ds[i] == d;
      assert pieces[i] in pieces;
    }
    if exists piece :: piece in pieces && NormalizeDomain(piece) == d {
      var piece :| piece in pieces && NormalizeDomain(piece) == d;
      var i :| 0 <= i < |pieces| && pieces[i] == piece;
      assert ds[i] == d;
    }
  }

  /**
   * The allow-list: the setting split on `,`, each piece trimmed and
   * lower-cased, empty pieces dropped. An absent setting reads as `""`.
   */
  function ParseAllowedDomains(setting: string): seq<string> {
    KeepNonEmpty(NormalizeAll(Split(setting, ',')))
  }

  /** Every allow-list entry is non-empty, trimmed, lower-case and free of commas. */
  lemma AllowedDomainsWellFormed(setting: string, d: string)
    requires d in ParseAllowedDomains(setting)
    ensures d != [] && IsTrimmed(d) && IsLowerCase(d) && ',' !in d
  {
    var pieces := Split(setting, ',');
    NormalizeAllMembers(pieces, d);
  }

  /** A string is allowed exactly when it is non-empty and some piece of the setting normalizes to it. */
  lemma AllowedDomainsFromPieces(setting: string, d: string)
    ensures d in ParseAllowedDomains(setting) <==>
              d != [] && exists piece :: piece in Split(setting, ',') && NormalizeDomain(piece) == d
  {
    NormalizeAllMembers(Split(setting, ','), d);
  }

  /** An empty or absent setting allows no domain at all. */
  lemma EmptySettingAllowsNothing()
    ensures ParseAllowedDomains("") == []
  {
    var pieces := Split("", ',');
    assert pieces == [[]];
    assert Trim([]) == [];
    var normalized := NormalizeAll(pieces);
    assert normalized == [[]];
    assert KeepNonEmpty(normalized) == [] + KeepNonEmpty([]);
  }

  /** `Math.random()`: a real number in [0, 1). */
  type UnitInterval = r: real | 0.0 <= r < 1.0

  /** `Math.floor(Math.random() * n)` is a valid index into a list of length `n`. */
  function RandomIndex(rnd: UnitInterval, n: nat): (i: nat)
    requires n > 0
    ensures i < n
  {
    var size := n as real;
    var x := rnd * size;
    assert 0.0 <= x < size by {
      var gap := 1.0 - rnd;
      assert gap > 0.0 && size > 0.0;
      assert gap * size > 0.0;
      assert x == size - gap * size;
    }
    x.Floor
  }

  /** The backgrounds of each company domain (`domainBackgrounds`). */
  const DomainBackgrounds: map<string, seq<string>> := map[
    "proxper.com.mx" := ["proxper_1", "proxper_2", "proxper_3"],
    "tolkogroup.com" := ["tolkogroup_1", "tolkogroup_2", "tolkogroup_3"],
    "naturgy.com" := ["naturgy_1", "naturgy_2", "naturgy_3"],
    "biopappel.com" := ["biopappel_1", "biopappel_2", "biopappel_3"],
    "crediclub.com" := ["crediclub_1", "crediclub_2", "crediclub_3"],
    "cydsa.com" := ["cydsa_1", "cydsa_2", "cydsa_3"],
    "nike.com" := ["nike_1", "nike_2", "nike_3"],
    "pluxeegroup.com" := ["pluxeegroup_1", "pluxeegroup_2", "pluxeegroup_3"],
    "novonordisk.com" := ["novonordisk_1", "novonordisk_2", "novonordisk_3"]
  ]

  /** The backgrounds used for a domain without its own. */
  const FallbackBackgrounds: seq<string> := ["default_1", "default_2", "default_3"]

  /** The list a background is drawn from: the domain's own when it has a non-empty one, else the fallbacks. */
  function BackgroundChoices(domain: string): (choices: seq<string>)
    ensures choices != []
    ensures domain in DomainBackgrounds && DomainBackgrounds[domain] != [] ==> choices == DomainBackgrounds[domain]
    ensures !(domain in DomainBackgrounds && DomainBackgrounds[domain] != []) ==> choices == FallbackBackgrounds
  {
    if domain !in DomainBackgrounds || |DomainBackgrounds[domain]| == 0 then FallbackBackgrounds
    else DomainBackgrounds[domain]
  }

  /**
   * `getRandomBackgroundIdForDomain`: one of the domain's own backgrounds
   * when it has a non-empty list, otherwise one of the fallbacks.
   */
  function ChooseBackground(domain: string, rnd: UnitInterval): (id: string)
    ensures id in BackgroundChoices(domain)
  {
    var choices := BackgroundChoices(domain);
    choices[RandomIndex(rnd, |choices|)]
  }

  /** Every company domain with backgrounds has a non-empty list of its own. */
  lemma CompanyDomainsUseOwnBackgrounds(domain: string)
    requires domain in DomainBackgrounds
    ensures BackgroundChoices(domain) == DomainBackgrounds[domain]
  {
  }

  /** The short names some companies go by (`domainColloquialNames`). */
  const ColloquialNames: map<string, string> := map[
    "tolkogroup.com" := "Tolko",
    "biopappel.com" := "Bio Pappel",
    "novonordisk.com" := "Novo Nordisk",
    "cydsa.com" := "Cydsa",
    "pluxeegroup.com" := "Pluxee"
  ]

  /**
   * `empresaNombreLimpio`: the domain with a trailing `.com.mx`, then
   * `.com`, then `.mx` removed, each ignoring case.
   */
  function CleanCompanyName(domain: string): string {
    var withoutComMx := StripSuffixIgnoreCase(domain, ".com.mx");
    var withoutCom := StripSuffixIgnoreCase(withoutComMx, ".com");
    StripSuffixIgnoreCase(withoutCom, ".mx")
  }

  /**
   * The cleaned name is a prefix of the domain; it is the domain itself
   * exactly when the domain ends with neither `.com` nor `.mx`; and a
   * `.com.mx` ending goes as a whole, not just its `.mx`.
   */
  lemma CleanCompanyNameStripsSuffixes(domain: string)
    ensures CleanCompanyName(domain) <= domain
    ensures CleanCompanyName(domain) == domain <==>
              !EndsWithIgnoreCase(domain, ".com") && !EndsWithIgnoreCase(domain, ".mx")
    ensures EndsWithIgnoreCase(domain, ".com.mx") ==> CleanCompanyName(domain) <= domain[..|domain| - 7]
  {
    if EndsWithIgnoreCase(domain, ".com.mx") {
      EndsWithIgnoreCaseTrans(domain, ".com.mx", ".mx");
    }
  }

  /**
   * `nombreEmpresaParaPrompt`: the colloquial name when the domain has a
   * non-empty one, otherwise the cleaned domain.
   */
  function CompanyName(domain: string): string {
    if domain in ColloquialNames && ColloquialNames[domain] != [] then ColloquialNames[domain]
    else CleanCompanyName(domain)
  }

  /** Every colloquial name is non-empty, so a domain that has one is always called by it. */
  lemma CompanyNamePrefersColloquial(domain: string)
    ensures domain in ColloquialNames ==> CompanyName(domain) == ColloquialNames[domain] != []
    ensures domain !in ColloquialNames ==> CompanyName(domain) == CleanCompanyName(domain)
  {
  }
}
