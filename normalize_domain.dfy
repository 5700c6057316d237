/**
 * Domain normalisation policy of Build/lib/normalize-domain.ts.
 *
 * A candidate domain is turned into a canonical host (`Some`) or rejected
 * (`None`, JavaScript's `null`). The suffix parser and the IP-literal
 * heuristics are foreign code: they enter every operation as the fields of
 * a `Collaborators` value, so that each property below holds whatever they
 * compute.
 */
module NormalizeDomain {
  import opened Wrappers

  /** What the suffix parser reports about a host (tldts' parse result). */
  datatype Parsed = Parsed(
    hostname: Option<string>,
    domain: Option<string>,
    subdomain: Option<string>,
    isIcann: bool,
    isPrivate: bool)

  /**
   * The external collaborators: `parse` is tldts.parse with the fixed
   * loose option set (IP detection switched off); the other two are the
   * heuristic IPv4 / IPv6 literal detectors.
   */
  datatype Collaborators = Collaborators(
    parse: string -> Parsed,
    isProbablyIpv4: string -> bool,
    isProbablyIpv6: string -> bool)

  /** Subdomains that are dropped as a whole: "www"-like access prefixes. */
  const WwwLikeSubdomains: set<string> := {"www", "xml-v4", "xml-eu", "xml-eu-v4"}

  /** The leading label that is dropped from a longer subdomain. */
  const WwwDot: string := "www."

  predicate IsProbablyIp(env: Collaborators, domain: string) {
    env.isProbablyIpv4(domain) || env.isProbablyIpv6(domain)
  }

  /** `parsed ??= tldts.parse(domain, normalizeTldtsOpt)`: a supplied parse, else a fresh one. */
  function EffectiveParse(env: Collaborators, domain: string, parsed: Option<Parsed>): Parsed {
    match parsed
    case Some(p) => p
    case None => env.parse(domain)
  }

  /** The suffix is listed in the ICANN or the PRIVATE section of the Public Suffix List. */
  predicate HasListedSuffix(p: Parsed) {
    p.isIcann || p.isPrivate
  }

  /** JavaScript truthiness of a `string | null`: present and non-empty. */
  predicate IsTruthy(s: Option<string>) {
    s.Some? && s.value != ""
  }

  /** `s.startsWith(prefix)`. */
  predicate StartsWith(s: string, prefix: string) {
    |prefix| <= |s| && s[..|prefix|] == prefix
  }

  /** How JavaScript's `+` renders a `string | null` operand. */
  function JsString(s: Option<string>): string {
    match s
    case Some(v) => v
    case None => "null"
  }

  /** The subdomain would be rewritten by the two-tier rule of `WithoutWww`. */
  predicate IsStrippable(subdomain: Option<string>) {
    IsTruthy(subdomain)
    && (subdomain.value in WwwLikeSubdomains || StartsWith(subdomain.value, WwwDot))
  }

  /**
   * The subdomain canonicalisation applied once the suffix is accepted:
   * a "www"-like subdomain collapses to the registrable domain, a leading
   * "www." label is dropped, anything else keeps the hostname.
   */
  function WithoutWww(p: Parsed): Option<string> {
    if IsTruthy(p.subdomain) then
      var sub := p.subdomain.value;
      if sub in WwwLikeSubdomains then p.domain
      else if StartsWith(sub, WwwDot) then Some(sub[|WwwDot|..] + "." + JsString(p.domain))
      else p.hostname
    else
      p.hostname
  }

  /**
   * fastNormalizeDomainWithoutWwwNoIP: suffix check and canonicalisation,
   * for callers that have already excluded IP literals and empty input.
   */
  function FastNormalizeDomainWithoutWwwNoIp(env: Collaborators, domain: string, parsed: Option<Parsed>): (r: Option<string>)
    requires domain != ""
    requires !IsProbablyIp(env, domain)
    ensures r.Some? ==> HasListedSuffix(EffectiveParse(env, domain, parsed))
    ensures !IsStrippable(EffectiveParse(env, domain, parsed).subdomain) ==>
              r == FastNormalizeDomain(env, domain, parsed)
  {
    var p := EffectiveParse(env, domain, parsed);
    if !p.isIcann && !p.isPrivate then None
    else WithoutWww(p)
  }

  /** fastNormalizeDomainWithoutWww: IP literals are rejected, then as above. */
  function FastNormalizeDomainWithoutWww(env: Collaborators, domain: string, parsed: Option<Parsed>): (r: Option<string>)
    requires domain != ""
    ensures IsProbablyIp(env, domain) ==> r == None
    ensures r.Some? ==> HasListedSuffix(EffectiveParse(env, domain, parsed))
    ensures !IsProbablyIp(env, domain) ==> r == FastNormalizeDomainWithoutWwwNoIp(env, domain, parsed)
  {
    if IsProbablyIp(env, domain) then None
    else FastNormalizeDomainWithoutWwwNoIp(env, domain, parsed)
  }

  /** fastNormalizeDomain: IP literals and unlisted suffixes are rejected, the hostname kept. */
  function FastNormalizeDomain(env: Collaborators, domain: string, parsed: Option<Parsed>): (r: Option<string>)
    requires domain != ""
    ensures IsProbablyIp(env, domain) ==> r == None
    ensures !HasListedSuffix(EffectiveParse(env, domain, parsed)) ==> r == None
    ensures r.Some? ==> r == EffectiveParse(env, domain, parsed).hostname
  {
    if IsProbablyIp(env, domain) then None
    else
      var p := EffectiveParse(env, domain, parsed);
      if !p.isIcann && !p.isPrivate then None
      else p.hostname
  }

  /** normalizeDomain: as fastNormalizeDomain, with empty input rejected first. */
  function NormalizeDomain(env: Collaborators, domain: string, parsed: Option<Parsed>): (r: Option<string>)
    ensures |domain| == 0 ==> r == None
    ensures IsProbablyIp(env, domain) ==> r == None
    ensures !HasListedSuffix(EffectiveParse(env, domain, parsed)) ==> r == None
    ensures r.Some? ==> r == EffectiveParse(env, domain, parsed).hostname
  {
    if |domain| == 0 then None
    else if IsProbablyIp(env, domain) then None
    else
      var p := EffectiveParse(env, domain, parsed);
      if !p.isIcann && !p.isPrivate then None
      else p.hostname
  }

  // ---------------------------------------------------------------------
  // Parse reuse
  // ---------------------------------------------------------------------

  /** A supplied parse is used as it is: the parser is never consulted. */
  lemma SuppliedParseIsUsedAsIs(env: Collaborators, other: string -> Parsed, domain: string, p: Parsed)
    ensures var env' := env.(parse := other);
      && NormalizeDomain(env, domain, Some(p)) == NormalizeDomain(env', domain, Some(p))
      && (domain != "" ==>
           && FastNormalizeDomain(env, domain, Some(p)) == FastNormalizeDomain(env', domain, Some(p))
           && FastNormalizeDomainWithoutWww(env, domain, Some(p)) == FastNormalizeDomainWithoutWww(env', domain, Some(p)))
      && (domain != "" && !IsProbablyIp(env, domain) ==>
           FastNormalizeDomainWithoutWwwNoIp(env, domain, Some(p)) == FastNormalizeDomainWithoutWwwNoIp(env', domain, Some(p)))
  {
  }

  /** Supplying the parse the function would compute itself changes nothing. */
  lemma SuppliedFreshParseMatchesOmittedParse(env: Collaborators, domain: string)
    ensures var p := Some(env.parse(domain));
      && NormalizeDomain(env, domain, p) == NormalizeDomain(env, domain, None)
      && (domain != "" ==>
           && FastNormalizeDomain(env, domain, p) == FastNormalizeDomain(env, domain, None)
           && FastNormalizeDomainWithoutWww(env, domain, p) == FastNormalizeDomainWithoutWww(env, domain, None))
      && (domain != "" && !IsProbablyIp(env, domain) ==>
           FastNormalizeDomainWithoutWwwNoIp(env, domain, p) == FastNormalizeDomainWithoutWwwNoIp(env, domain, None))
  {
  }

  // ---------------------------------------------------------------------
  // The two hostname-returning entry points
  // ---------------------------------------------------------------------

  /** On non-empty input normalizeDomain and fastNormalizeDomain agree; both yield the hostname once the checks pass. */
  lemma NormalizeDomainAgreesWithFastNormalizeDomain(env: Collaborators, domain: string, parsed: Option<Parsed>)
    requires domain != ""
    ensures NormalizeDomain(env, domain, parsed) == FastNormalizeDomain(env, domain, parsed)
    ensures !IsProbablyIp(env, domain) && HasListedSuffix(EffectiveParse(env, domain, parsed)) ==>
              NormalizeDomain(env, domain, parsed) == EffectiveParse(env, domain, parsed).hostname
  {
  }

  // ---------------------------------------------------------------------
  // Subdomain canonicalisation
  // ---------------------------------------------------------------------

  /** An exactly "www"-like subdomain collapses to the registrable domain (possibly null). */
  lemma WithoutWwwDropsWwwLikeSubdomain(env: Collaborators, domain: string, parsed: Option<Parsed>)
    requires domain != "" && !IsProbablyIp(env, domain)
    requires var p := EffectiveParse(env, domain, parsed);
      HasListedSuffix(p) && p.subdomain.Some? && p.subdomain.value in WwwLikeSubdomains
    ensures FastNormalizeDomainWithoutWww(env, domain, parsed) == EffectiveParse(env, domain, parsed).domain
  {
  }

  /** Any other subdomain with a leading "www." label loses only that label. */
  lemma WithoutWwwDropsLeadingWwwLabel(env: Collaborators, domain: string, parsed: Option<Parsed>)
    requires domain != "" && !IsProbablyIp(env, domain)
    requires var p := EffectiveParse(env, domain, parsed);
      HasListedSuffix(p) && p.subdomain.Some? && p.subdomain.value !in WwwLikeSubdomains
      && StartsWith(p.subdomain.value, WwwDot)
    ensures var p := EffectiveParse(env, domain, parsed);
      && FastNormalizeDomainWithoutWww(env, domain, parsed) == Some(p.subdomain.value[4..] + "." + JsString(p.domain))
      && (p.domain.Some? ==>
            FastNormalizeDomainWithoutWww(env, domain, parsed) == Some(p.subdomain.value[4..] + "." + p.domain.value))
  {
  }

  /** An absent, empty or unmatched subdomain leaves the hostname as fastNormalizeDomain returns it. */
  lemma WithoutWwwKeepsOtherHostnames(env: Collaborators, domain: string, parsed: Option<Parsed>)
    requires domain != "" && !IsProbablyIp(env, domain)
    requires var p := EffectiveParse(env, domain, parsed);
      HasListedSuffix(p) && !IsStrippable(p.subdomain)
    ensures FastNormalizeDomainWithoutWww(env, domain, parsed) == EffectiveParse(env, domain, parsed).hostname
    ensures FastNormalizeDomainWithoutWww(env, domain, parsed) == FastNormalizeDomain(env, domain, parsed)
  {
  }

  // ---------------------------------------------------------------------
  // Consequences under an assumption on the parser's output
  // ---------------------------------------------------------------------

  /**
   * An assumption on the parser, not something the code checks: the
   * hostname is the subdomain and the (non-empty) registrable domain
   * joined by a dot, or the registrable domain alone when there is no
   * subdomain.
   */
  predicate SplitsHostname(p: Parsed) {
    && p.hostname.Some? && p.domain.Some? && p.domain.value != ""
    && p.hostname.value == (if IsTruthy(p.subdomain) then p.subdomain.value + "." + p.domain.value else p.domain.value)
  }

  /** `r` is `h` with zero or more whole leading labels removed. */
  ghost predicate DropsLeadingLabels(h: string, r: string) {
    exists k :: 0 <= k <= |h| && r == h[k..] && (k == 0 || h[k - 1] == '.')
  }

  /** `s` ends with `suffix`. */
  predicate EndsWith(s: string, suffix: string) {
    |suffix| <= |s| && s[|s| - |suffix|..] == suffix
  }

  /**
   * With a parse that splits the hostname, canonicalisation yields a host,
   * keeps the registrable domain at its end and only removes whole
   * leading labels of the hostname.
   */
  lemma WithoutWwwDropsOnlyLeadingLabels(p: Parsed)
    requires SplitsHostname(p)
    ensures WithoutWww(p).Some?
    ensures DropsLeadingLabels(p.hostname.value, WithoutWww(p).value)
    ensures EndsWith(WithoutWww(p).value, p.domain.value)
  {
    var h, d := p.hostname.value, p.domain.value;
    if IsTruthy(p.subdomain) {
      var sub := p.subdomain.value;
      assert h == sub + "." + d;
      if sub in WwwLikeSubdomains {
        var k := |sub| + 1;
        assert h[k..] == d;
        assert h[k - 1] == '.';
      } else if StartsWith(sub, WwwDot) {
        var rest := sub[4..];
        assert sub == WwwDot + rest;
        assert h == WwwDot + (rest + "." + d);
        assert h[4..] == rest + "." + d;
        assert h[3] == '.';
        assert (rest + "." + d)[|rest| + 1..] == d;
      } else {
        assert h[0..] == h;
        assert h[|h| - |d|..] == d;
      }
    } else {
      assert h[0..] == h;
    }
  }

  /** The subdomain labels a canonical host still carries. */
  function ResidualSubdomain(p: Parsed): Option<string> {
    if IsTruthy(p.subdomain) then
      var sub := p.subdomain.value;
      if sub in WwwLikeSubdomains then None
      else if StartsWith(sub, WwwDot) then Some(sub[|WwwDot|..])
      else p.subdomain
    else
      p.subdomain
  }

  /**
   * What a parser consistent with `p` reports for the canonical host:
   * the same registrable domain and suffix classification, and only the
   * remaining subdomain labels.
   */
  function ReparseOfCanonical(p: Parsed): Parsed {
    Parsed(WithoutWww(p), p.domain, ResidualSubdomain(p), p.isIcann, p.isPrivate)
  }

  /**
   * Canonicalising a canonical host again changes it exactly when the
   * remaining subdomain is itself strippable: the rule is applied once,
   * not to a fixed point.
   */
  lemma WithoutWwwStableIff(p: Parsed)
    requires SplitsHostname(p)
    ensures WithoutWww(ReparseOfCanonical(p)) == WithoutWww(p) <==> !IsStrippable(ResidualSubdomain(p))
  {
    var d := p.domain.value;
    var q := ReparseOfCanonical(p);
    if IsTruthy(p.subdomain) {
      var sub := p.subdomain.value;
      if sub !in WwwLikeSubdomains && StartsWith(sub, WwwDot) {
        var rest := sub[4..];
        assert q.hostname.value == rest + "." + d;
        if IsStrippable(q.subdomain) {
          // a second strip shortens the host
          if rest in WwwLikeSubdomains {
            assert |WithoutWww(q).value| < |q.hostname.value|;
          } else {
            assert |WithoutWww(q).value| == |rest| - 4 + 1 + |d|;
          }
        }
      }
    }
  }

  /**
   * The entry-point form of `WithoutWwwStableIff`: if the parser, given the
   * canonical host, reports it consistently, then normalising that host
   * again returns it unchanged exactly when nothing strippable is left.
   */
  lemma FastNormalizeDomainWithoutWwwStableIff(env: Collaborators, domain: string, parsed: Option<Parsed>)
    requires domain != "" && !IsProbablyIp(env, domain)
    requires HasListedSuffix(EffectiveParse(env, domain, parsed)) && SplitsHostname(EffectiveParse(env, domain, parsed))
    requires var c := WithoutWww(EffectiveParse(env, domain, parsed));
      c.Some? && c.value != "" && !IsProbablyIp(env, c.value)
      && env.parse(c.value) == ReparseOfCanonical(EffectiveParse(env, domain, parsed))
    ensures var r := FastNormalizeDomainWithoutWww(env, domain, parsed);
      && r.Some? && r.value != ""
      && (FastNormalizeDomainWithoutWww(env, r.value, None) == r
          <==> !IsStrippable(ResidualSubdomain(EffectiveParse(env, domain, parsed))))
  {
  }

  /**
   * "www.www.example.com" shows that the without-www form is not
   * idempotent: a consistent parser strips one "www." per call.
   */
  lemma DoubleWwwIsStrippedTwice(env: Collaborators)
    requires !IsProbablyIp(env, "www.www.example.com") && !IsProbablyIp(env, "www.example.com")
    requires env.parse("www.www.example.com") ==
      Parsed(Some("www.www.example.com"), Some("example.com"), Some("www.www"), true, false)
    requires env.parse("www.example.com") ==
      Parsed(Some("www.example.com"), Some("example.com"), Some("www"), true, false)
    ensures FastNormalizeDomainWithoutWww(env, "www.www.example.com", None) == Some("www.example.com")
    ensures FastNormalizeDomainWithoutWww(env, "www.example.com", None) == Some("example.com")
  {
    var p := env.parse("www.www.example.com");
    assert StartsWith("www.www", WwwDot);
    assert "www.www"[4..] == "www";
    assert "www" + "." + "example.com" == "www.example.com";
  }
}
