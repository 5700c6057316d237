# Domain normalisation policy

A model of the domain-normalisation decisions in `Build/lib/normalize-domain.ts`. The code takes a candidate domain string and either rejects it (`null`) or returns a canonical host. It does this in four functions that share the same steps:

- rejection of empty input (`normalizeDomain` only);
- rejection of IPv4 and IPv6 literals;
- reuse of a parse result supplied by the caller, or a fresh parse with tldts;
- rejection of suffixes that are in neither the ICANN nor the PRIVATE section of the Public Suffix List;
- in the without-www variants, canonicalisation of the subdomain. A subdomain that is exactly `www`, `xml-v4`, `xml-eu` or `xml-eu-v4` is dropped whole. Otherwise a leading `www.` label is dropped.

The model is in two modules:

- `Wrappers` (`wrappers.dfy`) holds `Option`, which stands for `T | null`.
- `NormalizeDomain` (`normalize_domain.dfy`) holds the four operations as Dafny functions, and lemmas about them.

The tldts parser and the `isProbablyIpv4` / `isProbablyIpv6` heuristics are foreign code. They enter every function as the fields of a `Collaborators` value (`parse`, `isProbablyIpv4`, `isProbablyIpv6`), so every lemma holds whatever they compute.

`parse` stands for `tldts.parse(·, normalizeTldtsOpt)` with its options fixed. `Parsed` carries the fields the code reads: `hostname`, `domain` and `subdomain`, each possibly null, plus `isIcann` and `isPrivate`.

Three JavaScript details are kept:

- `if (parsed.subdomain)` is false both for `null` and for the empty string (`IsTruthy`).
- A null `domain` or `hostname` is returned as `null`.
- `subdomain.slice(4) + '.' + domain` with a null `domain` produces the text `"null"` (`JsString`).

The without-www form is not idempotent, and the model follows the code on this. A natural expectation is that canonicalising a canonical host again changes nothing. The code strips at most one `www.` label per call, however. `WithoutWwwStableIff` proves exactly when a second call changes the host. `DoubleWwwIsStrippedTwice` shows that `www.www.example.com` becomes `www.example.com` and then `example.com`.

## Model

| member | source | states |
|---|---|---|
| `NormalizeDomain.NormalizeDomain` | Build/lib/normalize-domain.ts:68-83 | Empty input gives null. An IP literal gives null. A suffix that is neither ICANN nor private gives null. Any non-null result is the effective parse's hostname. |
| `NormalizeDomain.FastNormalizeDomain` | Build/lib/normalize-domain.ts:54-66 | For non-empty input: an IP literal gives null, whatever parse is supplied. An unlisted suffix gives null. Any non-null result is the effective parse's hostname. |
| `NormalizeDomain.FastNormalizeDomainWithoutWww` | Build/lib/normalize-domain.ts:41-49 | An IP literal gives null, whatever parse is supplied. A non-null result implies a listed suffix. On non-IP input it is exactly the no-IP helper. |
| `NormalizeDomain.FastNormalizeDomainWithoutWwwNoIp` | Build/lib/normalize-domain.ts:13-36 | A non-null result implies an ICANN or private suffix. When the subdomain is not strippable, the result equals fastNormalizeDomain's result for the same input. |
| `NormalizeDomain.SuppliedParseIsUsedAsIs` | Build/lib/normalize-domain.ts:13-17 | When a parse is supplied, all four functions give the same result whatever the parser would compute: the parser is not consulted. |
| `NormalizeDomain.SuppliedFreshParseMatchesOmittedParse` | Build/lib/normalize-domain.ts:61 | For all four functions, passing `parse(domain)` gives the same result as passing null. |
| `NormalizeDomain.NormalizeDomainAgreesWithFastNormalizeDomain` | Build/lib/normalize-domain.ts:54-83 | On non-empty input normalizeDomain and fastNormalizeDomain agree. Once the IP and suffix checks pass, both return the parse's hostname, possibly null. |
| `NormalizeDomain.WithoutWwwDropsWwwLikeSubdomain` | Build/lib/normalize-domain.ts:21-29 | With a listed suffix and a subdomain exactly `www`, `xml-v4`, `xml-eu` or `xml-eu-v4`, the without-www result is the parse's `domain`, possibly null. |
| `NormalizeDomain.WithoutWwwDropsLeadingWwwLabel` | Build/lib/normalize-domain.ts:30-31 | With a listed suffix and a subdomain outside that set that starts with `www.`, the result is `subdomain[4..] + "." + domain`. A null domain is rendered as JavaScript renders it. |
| `NormalizeDomain.WithoutWwwKeepsOtherHostnames` | Build/lib/normalize-domain.ts:21-35 | With a listed suffix and an absent, empty or unmatched subdomain, the result is the hostname unchanged. This equals fastNormalizeDomain's result. |
| `NormalizeDomain.WithoutWwwDropsOnlyLeadingLabels` | Build/lib/normalize-domain.ts:21-35 | Assume the parse splits the hostname into subdomain and domain. Then canonicalisation returns a host. That host only removes whole leading labels of the hostname and still ends with the registrable domain. |
| `NormalizeDomain.WithoutWwwStableIff` | Build/lib/normalize-domain.ts:21-35 | Canonicalising the reparse of a canonical host returns the same host if and only if the remaining subdomain is not strippable. |
| `NormalizeDomain.FastNormalizeDomainWithoutWwwStableIff` | Build/lib/normalize-domain.ts:13-49 | Assume the parser reports the canonical host consistently. Then normalising the without-www result again returns it unchanged exactly when nothing strippable remains. |
| `NormalizeDomain.DoubleWwwIsStrippedTwice` | Build/lib/normalize-domain.ts:30-31 | With a tldts-like parser, `www.www.example.com` normalises to `www.example.com`, which normalises to `example.com`. |

## Left out

- The internals of `tldts.parse` are not modelled. These are the Public Suffix List lookup, hostname extraction and the single-label suffix behaviour noted at the top of the file. The parser is foreign code and is the `parse` field of `Collaborators`.
- The heuristics of `isProbablyIpv4` / `isProbablyIpv6` are not modelled. They are foreign code and are the `isProbablyIpv4` / `isProbablyIpv6` fields.
- The contents of `normalizeTldtsOpt` are not part of this model. That option object is taken as fixed and folded into `parse`.
- tldts may report `isIcann` / `isPrivate` as `null`. Such a value is modelled as `false`, which is how `!` treats it in the suffix check.
- Relations between the parser's output fields are not guaranteed by the code. One such relation is the hostname being subdomain + "." + domain. It appears only as an explicit assumption (`SplitsHostname`, `ReparseOfCanonical`) of the lemmas that need it.
- Case folding and punycode are not modelled, because the code does neither.
- FastNormalizeDomain, FastNormalizeDomainWithoutWww and FastNormalizeDomainWithoutWwwNoIp require non-empty input. Their doc comments demand this of callers, but the code itself does not check it.
- FastNormalizeDomainWithoutWwwNoIp also requires input that is not an IP literal. Its comment says it never runs on one; its only caller checks this first.
