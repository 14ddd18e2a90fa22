/** Provider resolution and canonicalisation: `getProvider` and `normalizeEmail`.

    The DNS query is not part of the model. Its place is taken by a resolver function passed in
    by the caller: for a domain it gives the answer records, in the order the query returned
    them, or the error it failed with. */
module Normalizer {
  import opened Wrappers
  import opened Text
  import opened CutRules
  import opened Registry
  import opened MxTable

  /** One MX answer record. Only the exchange hostname is consulted; the preference value is
      carried but never used. */
  datatype MxRecord = MxRecord(priority: nat, exchange: string)

  /** What the MX query reports for one domain: its records, or the error that rejects it. */
  datatype MxAnswer = Records(records: seq<MxRecord>) | LookupError(code: string)

  /** The first-match search over the answer: the provider of the first record whose exchange
      matches some signature of the table; later records are not looked at. */
  function MxProvider(records: seq<MxRecord>): Option<Provider>
  {
    if records == [] then None
    else match FindEntry(MxMap, records[0].exchange)
      case Some(entry) => Some(entry.provider)
      case None => MxProvider(records[1..])
  }

  /** What `getProvider` settles with: the registry entry when the domain is a key, otherwise the
      MX-derived provider if any; a failed query rejects. */
  function ProviderFor(domain: string, resolveMx: string -> MxAnswer): Result<Option<Provider>>
  {
    if domain in Providers then Ok(Some(Providers[domain]))
    else match resolveMx(domain)
      case LookupError(code) => Err(code)
      case Records(records) => Ok(MxProvider(records))
  }

  /** `getProvider`: look the domain up in the registry and, when it is absent, query its MX
      records and scan them in order until one matches a signature. */
  method GetProvider(domain: string, resolveMx: string -> MxAnswer) returns (r: Result<Option<Provider>>)
    ensures r == ProviderFor(domain, resolveMx)
  {
    var prov: Option<Provider> := if domain in Providers then Some(Providers[domain]) else None;
    if prov.None? {
      var mx := resolveMx(domain);
      if mx.LookupError? {
        // the rejected lookup is not caught: the whole call rejects with it
        return Err(mx.code);
      }
      var records := mx.records;
      var mxProv: Option<Provider> := None;
      for i := 0 to |records|
        invariant mxProv.None?
        invariant MxProvider(records[i..]) == MxProvider(records)
      {
        var entry := FindEntry(MxMap, records[i].exchange);
        assert records[i..][0] == records[i] && records[i..][1..] == records[i + 1..];
        if entry.Some? {
          mxProv := Some(entry.value.provider);
          break;
        }
      }
      if mxProv.Some? {
        prov := mxProv;
      }
    }
    return Ok(prov);
  }

  /** The local part after the provider's rule, if a provider was found. */
  function RewrittenLocal(username: string, provider: Option<Provider>): string
  {
    match provider
    case None => username
    case Some(p) => Apply(p.cut, username)
  }

  /** The domain after the provider's alias, if a provider with an alias was found. */
  function RewrittenDomain(domain: string, provider: Option<Provider>): string
  {
    if provider.Some? && provider.value.aliasOf.Some? then provider.value.aliasOf.value else domain
  }

  /** The address built from a local part, a domain and the provider found for that domain. */
  function Canonical(username: string, domain: string, provider: Option<Provider>): string
  {
    RewrittenLocal(username, provider) + "@" + RewrittenDomain(domain, provider)
  }

  /** What `normalizeEmail` settles with. */
  function Normalized(eMail: string, resolveMx: string -> MxAnswer): Result<string>
  {
    var emailParts := Split(Lower(eMail));
    if |emailParts| != 2 then Ok(eMail)
    else match ProviderFor(emailParts[1], resolveMx)
      case Err(code) => Err(code)
      case Ok(provider) => Ok(Canonical(emailParts[0], emailParts[1], provider))
  }

  /** `normalizeEmail`: lower-case, split on `@`, give back the input unchanged unless there are
      exactly two parts, then rewrite the local part and alias the domain by the provider. */
  method NormalizeEmail(eMail: string, resolveMx: string -> MxAnswer) returns (r: Result<string>)
    ensures r == Normalized(eMail, resolveMx)
  {
    var email := Lower(eMail);
    var emailParts := Split(email);
    if |emailParts| != 2 {
      return Ok(eMail);
    }
    var username := emailParts[0];
    var domain := emailParts[1];
    var provider := GetProvider(domain, resolveMx);
    if provider.Err? {
      return Err(provider.error);
    }
    if provider.value.Some? {
      var p := provider.value.value;
      username := Apply(p.cut, username);
      if p.aliasOf.Some? {
        domain := p.aliasOf.value;
      }
    }
    return Ok(username + "@" + domain);
  }

  // ----- the MX scan -----

  lemma {:induction false} MxProviderSkips(records: seq<MxRecord>, n: nat)
    requires n <= |records|
    requires forall m :: 0 <= m < n ==> FindEntry(MxMap, records[m].exchange).None?
    ensures MxProvider(records) == MxProvider(records[n..])
  {
    if n > 0 {
      assert records[1..][n - 1..] == records[n..];
      MxProviderSkips(records[1..], n - 1);
    }
  }

  /** The record that decides is the first whose exchange matches some signature, and the
      provider is the one of the first matching table entry. */
  lemma MxProviderFirstMatch(records: seq<MxRecord>, n: nat)
    requires n < |records|
    requires FindEntry(MxMap, records[n].exchange).Some?
    requires forall m :: 0 <= m < n ==> FindEntry(MxMap, records[m].exchange).None?
    ensures MxProvider(records) == Some(FindEntry(MxMap, records[n].exchange).value.provider)
  {
    MxProviderSkips(records, n);
    assert records[n..][0] == records[n];
  }

  /** No provider comes out of an empty answer or of one where no exchange matches. */
  lemma {:induction false} MxProviderNone(records: seq<MxRecord>)
    ensures MxProvider(records) == None <==>
      forall m :: 0 <= m < |records| ==> FindEntry(MxMap, records[m].exchange).None?
  {
    if records != [] {
      MxProviderNone(records[1..]);
      assert forall m :: 1 <= m < |records| ==> records[m] == records[1..][m - 1];
    }
  }

  /** Once a record has decided, appending more records changes nothing. */
  lemma {:induction false} LaterRecordsIgnored(records: seq<MxRecord>, more: seq<MxRecord>)
    requires MxProvider(records).Some?
    ensures MxProvider(records + more) == MxProvider(records)
  {
    assert (records + more)[0] == records[0];
    if FindEntry(MxMap, records[0].exchange).None? {
      assert (records + more)[1..] == records[1..] + more;
      LaterRecordsIgnored(records[1..], more);
    }
  }

  /** Records are taken in answer order; their preference values play no part. */
  lemma {:induction false} PriorityIgnored(a: seq<MxRecord>, b: seq<MxRecord>)
    requires |a| == |b|
    requires forall m :: 0 <= m < |a| ==> a[m].exchange == b[m].exchange
    ensures MxProvider(a) == MxProvider(b)
  {
    if a != [] {
      PriorityIgnored(a[1..], b[1..]);
    }
  }

  /** An MX-derived provider is the Gmail or the Fastmail rule, and has no alias. */
  lemma {:induction false} MxProviderHasNoAlias(records: seq<MxRecord>)
    requires MxProvider(records).Some?
    ensures MxProvider(records).value.aliasOf == None
    ensures MxProvider(records).value in {Providers["gmail.com"], Providers["fastmail.com"]}
  {
    MxMapLookup(records[0].exchange);
    if FindEntry(MxMap, records[0].exchange).None? {
      MxProviderHasNoAlias(records[1..]);
    }
  }

  // ----- provider resolution -----

  /** A registered domain resolves to its entry, whatever the resolver would answer: no query is
      made. An unregistered domain depends on the resolver only through its answer for that
      very domain. */
  lemma ResolverConsulted(domain: string, resolveMx: string -> MxAnswer, other: string -> MxAnswer)
    requires domain in Providers || resolveMx(domain) == other(domain)
    ensures ProviderFor(domain, resolveMx) == ProviderFor(domain, other)
    ensures domain in Providers ==> ProviderFor(domain, resolveMx) == Ok(Some(Providers[domain]))
  {
  }

  /** A failed query for an unregistered domain rejects; it is not turned into "no provider". */
  lemma LookupFailureRejects(domain: string, resolveMx: string -> MxAnswer)
    requires domain !in Providers && resolveMx(domain).LookupError?
    ensures ProviderFor(domain, resolveMx) == Err(resolveMx(domain).code)
  {
  }

  /** Whatever settles the provider, an alias is only set for a registered domain, and it names
      a registered domain with the same rule and no alias. */
  lemma ProviderAlias(domain: string, resolveMx: string -> MxAnswer)
    requires ProviderFor(domain, resolveMx).Ok? && ProviderFor(domain, resolveMx).value.Some?
    ensures var p := ProviderFor(domain, resolveMx).value.value;
      p.aliasOf.Some? ==>
        domain in Providers && p == Providers[domain] &&
        p.aliasOf.value in Providers && Providers[p.aliasOf.value] == Provider(p.cut, None)
  {
    var p := ProviderFor(domain, resolveMx).value.value;
    if domain !in Providers {
      MxProviderHasNoAlias(resolveMx(domain).records);
    } else if p.aliasOf.Some? {
      AliasesClosed(domain);
    }
  }

  // ----- the rewritten address -----

  /** The cut rules remove characters and never add one. */
  lemma CutKeepsAt(rule: CutRule, s: string)
    ensures '@' in Apply(rule, s) ==> '@' in s
    ensures IsLowercase(s) ==> IsLowercase(Apply(rule, s))
  {
    ApplyIdempotent(rule, s);
  }

  lemma LowerKeepsSeparator(s: string)
    ensures ('@' in Lower(s)) == ('@' in s)
  {
    LowerKeepsCount(s, '@');
  }

  /** For an address `local@domain`, normalisation works on the lower-cased parts and the
      provider found for the lower-cased domain. */
  lemma NormalizedAddress(local: string, domain: string, resolveMx: string -> MxAnswer)
    requires '@' !in local && '@' !in domain
    ensures Normalized(local + "@" + domain, resolveMx) ==
      match ProviderFor(Lower(domain), resolveMx)
      case Err(code) => Err(code)
      case Ok(provider) => Ok(Canonical(Lower(local), Lower(domain), provider))
  {
    LowerAddress(local, domain);
    LowerKeepsSeparator(local);
    LowerKeepsSeparator(domain);
    SplitAddress(Lower(local), Lower(domain));
  }

  /** Without exactly one `@` the input comes back as it was given, upper case included. */
  lemma MalformedUnchanged(eMail: string, resolveMx: string -> MxAnswer)
    requires Count(eMail, '@') != 1
    ensures Normalized(eMail, resolveMx) == Ok(eMail)
  {
    LowerKeepsCount(eMail, '@');
  }

  /** The address splits into its local part and domain exactly when it has one `@`. */
  lemma AddressParts(eMail: string)
    requires Count(eMail, '@') == 1
    ensures eMail == Split(eMail)[0] + "@" + Split(eMail)[1]
    ensures '@' !in Split(eMail)[0] && '@' !in Split(eMail)[1]
  {
  }

  /** With one `@` and no provider found, the result is the lower-cased input. */
  lemma NoProviderLowercases(local: string, domain: string, resolveMx: string -> MxAnswer)
    requires '@' !in local && '@' !in domain
    requires ProviderFor(Lower(domain), resolveMx) == Ok(None)
    ensures Normalized(local + "@" + domain, resolveMx) == Ok(Lower(local) + "@" + Lower(domain))
    ensures Normalized(local + "@" + domain, resolveMx) == Ok(Lower(local + "@" + domain))
  {
    NormalizedAddress(local, domain, resolveMx);
    LowerAddress(local, domain);
  }

  /** The rewritten local part and domain of a lower-case address are lower case and free of
      `@`, and resolving the rewritten domain again leaves both as they are. */
  lemma RewriteSettles(u: string, d: string, resolveMx: string -> MxAnswer)
    requires '@' !in u && '@' !in d && IsLowercase(u) && IsLowercase(d)
    requires ProviderFor(d, resolveMx).Ok?
    ensures var provider := ProviderFor(d, resolveMx).value;
      var u', d' := RewrittenLocal(u, provider), RewrittenDomain(d, provider);
      '@' !in u' && '@' !in d' && IsLowercase(u') && IsLowercase(d') &&
      ProviderFor(d', resolveMx).Ok? &&
      RewrittenLocal(u', ProviderFor(d', resolveMx).value) == u' &&
      RewrittenDomain(d', ProviderFor(d', resolveMx).value) == d'
  {
    var provider := ProviderFor(d, resolveMx).value;
    if provider.Some? {
      var p := provider.value;
      CutKeepsAt(p.cut, u);
      ApplyIdempotent(p.cut, u);
      ProviderAlias(d, resolveMx);
      if p.aliasOf.Some? {
        AliasesClosed(d);
      }
    }
  }

  /** The result has one `@`; after it stands the lower-cased domain or the provider's alias, and
      before it the lower-cased local part, as it is or rewritten by one of the two rules. */
  lemma ResultShape(eMail: string, resolveMx: string -> MxAnswer, r: string)
    requires Count(eMail, '@') == 1 && Normalized(eMail, resolveMx) == Ok(r)
    ensures Count(r, '@') == 1
    ensures var local, domain := Lower(Split(eMail)[0]), Lower(Split(eMail)[1]);
      var out := Split(r);
      r == out[0] + "@" + out[1] &&
      (out[0] == local || out[0] == CutPlus(local) || out[0] == CutPlusDot(local)) &&
      (out[1] == domain ||
       (domain in Providers && Providers[domain].aliasOf == Some(out[1])))
  {
    AddressParts(eMail);
    ResultShapeAddress(Split(eMail)[0], Split(eMail)[1], resolveMx, r);
  }

  lemma ResultShapeAddress(local: string, domain: string, resolveMx: string -> MxAnswer, r: string)
    requires '@' !in local && '@' !in domain
    requires Normalized(local + "@" + domain, resolveMx) == Ok(r)
    ensures Count(r, '@') == 1
    ensures var out := Split(r);
      r == out[0] + "@" + out[1] &&
      (out[0] == Lower(local) || out[0] == CutPlus(Lower(local)) || out[0] == CutPlusDot(Lower(local))) &&
      (out[1] == Lower(domain) ||
       (Lower(domain) in Providers && Providers[Lower(domain)].aliasOf == Some(out[1])))
  {
    NormalizedAddress(local, domain, resolveMx);
    var u, d := Lower(local), Lower(domain);
    LowerKeepsSeparator(local);
    LowerKeepsSeparator(domain);
    LowerIsLowercase(local);
    LowerIsLowercase(domain);
    RewriteSettles(u, d, resolveMx);
    var provider := ProviderFor(d, resolveMx).value;
    SplitAddress(RewrittenLocal(u, provider), RewrittenDomain(d, provider));
    if provider.Some? {
      ProviderAlias(d, resolveMx);
    }
  }

  /** hotmail.com, outlook.com, fastmail.com and fastmail.fm keep the dots and drop the `+` tail;
      the domain is kept. */
  lemma PlusOnlyProviders(local: string, domain: string, resolveMx: string -> MxAnswer)
    requires '@' !in local && '@' !in domain
    requires Lower(domain) in ["hotmail.com", "outlook.com", "fastmail.com", "fastmail.fm"]
    ensures Normalized(local + "@" + domain, resolveMx) == Ok(CutPlus(Lower(local)) + "@" + Lower(domain))
  {
    NormalizedAddress(local, domain, resolveMx);
    PlusOnlyDomains(Lower(domain));
    OnlyAlias(Lower(domain));
  }

  /** google.com, gmail.com, googlemail.com and live.com drop the `+` tail and every dot;
      googlemail.com becomes gmail.com. */
  lemma PlusAndDotProviders(local: string, domain: string, resolveMx: string -> MxAnswer)
    requires '@' !in local && '@' !in domain
    requires Lower(domain) in ["google.com", "gmail.com", "googlemail.com", "live.com"]
    ensures Normalized(local + "@" + domain, resolveMx) ==
      Ok(CutPlusDot(Lower(local)) + "@" +
         (if Lower(domain) == "googlemail.com" then "gmail.com" else Lower(domain)))
  {
    NormalizedAddress(local, domain, resolveMx);
    PlusAndDotDomains(Lower(domain));
    OnlyAlias(Lower(domain));
  }

  /** For a registered domain the resolver is never consulted. */
  lemma RegisteredIgnoresResolver(local: string, domain: string,
                                  resolveMx: string -> MxAnswer, other: string -> MxAnswer)
    requires '@' !in local && '@' !in domain && Lower(domain) in Providers
    ensures Normalized(local + "@" + domain, resolveMx) == Normalized(local + "@" + domain, other)
    ensures Normalized(local + "@" + domain, resolveMx).Ok?
  {
    NormalizedAddress(local, domain, resolveMx);
    NormalizedAddress(local, domain, other);
  }

  /** An unregistered domain whose exchanges match a signature gets that rule applied to its
      local part and keeps its domain. */
  lemma MxMatchKeepsDomain(local: string, domain: string, resolveMx: string -> MxAnswer)
    requires '@' !in local && '@' !in domain && Lower(domain) !in Providers
    requires resolveMx(Lower(domain)).Records? && MxProvider(resolveMx(Lower(domain)).records).Some?
    ensures var p := MxProvider(resolveMx(Lower(domain)).records).value;
      Normalized(local + "@" + domain, resolveMx) == Ok(Apply(p.cut, Lower(local)) + "@" + Lower(domain))
  {
    NormalizedAddress(local, domain, resolveMx);
    MxProviderHasNoAlias(resolveMx(Lower(domain)).records);
  }

  /** When the MX query for an unregistered domain fails, normalisation rejects with its error. */
  lemma LookupFailurePropagates(local: string, domain: string, resolveMx: string -> MxAnswer)
    requires '@' !in local && '@' !in domain && Lower(domain) !in Providers
    requires resolveMx(Lower(domain)).LookupError?
    ensures Normalized(local + "@" + domain, resolveMx) == Err(resolveMx(Lower(domain)).code)
  {
    NormalizedAddress(local, domain, resolveMx);
  }

  /** Normalising a normalised address changes nothing: the rewritten local part has nothing left
      to cut, and an alias names a registered domain with the same rule and no alias. */
  lemma Idempotent(eMail: string, resolveMx: string -> MxAnswer, r: string)
    requires Normalized(eMail, resolveMx) == Ok(r)
    ensures Normalized(r, resolveMx) == Ok(r)
  {
    if Count(eMail, '@') == 1 {
      AddressParts(eMail);
      IdempotentAddress(Split(eMail)[0], Split(eMail)[1], resolveMx, r);
    } else {
      MalformedUnchanged(eMail, resolveMx);
    }
  }

  lemma IdempotentAddress(local: string, domain: string, resolveMx: string -> MxAnswer, r: string)
    requires '@' !in local && '@' !in domain
    requires Normalized(local + "@" + domain, resolveMx) == Ok(r)
    ensures Normalized(r, resolveMx) == Ok(r)
  {
    NormalizedAddress(local, domain, resolveMx);
    var u, d := Lower(local), Lower(domain);
    LowerKeepsSeparator(local);
    LowerKeepsSeparator(domain);
    LowerIsLowercase(local);
    LowerIsLowercase(domain);
    RewriteSettles(u, d, resolveMx);
    var provider := ProviderFor(d, resolveMx).value;
    var u', d' := RewrittenLocal(u, provider), RewrittenDomain(d, provider);
    assert r == u' + "@" + d';
    LowerFixesLowercase(u');
    LowerFixesLowercase(d');
    NormalizedAddress(u', d', resolveMx);
  }
}
