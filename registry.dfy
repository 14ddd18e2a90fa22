/** The built-in provider registry: lower-case domain to local-part rule and optional alias. */
module Registry {
  import opened Wrappers
  import opened Text
  import opened CutRules

  /** A mailbox provider: how it rewrites local parts and, when set, the canonical domain that
      replaces the address's domain. */
  datatype Provider = Provider(cut: CutRule, aliasOf: Option<string>)

  /** The registry, keyed by lower-case domain. */
  const Providers: map<string, Provider> := map[
    "google.com" := Provider(PlusAndDot, None),
    "gmail.com" := Provider(PlusAndDot, None),
    "googlemail.com" := Provider(PlusAndDot, Some("gmail.com")),
    "hotmail.com" := Provider(PlusOnly, None),
    "live.com" := Provider(PlusAndDot, None),
    "outlook.com" := Provider(PlusOnly, None),
    "fastmail.com" := Provider(PlusOnly, None),
    "fastmail.fm" := Provider(PlusOnly, None)
  ]

  /** The registry holds exactly these eight domains. */
  lemma RegisteredDomains()
    ensures Providers.Keys == {"google.com", "gmail.com", "googlemail.com", "hotmail.com",
                               "live.com", "outlook.com", "fastmail.com", "fastmail.fm"}
  {
  }

  /** The domains whose rule keeps dots and only removes the `+` tail. */
  lemma PlusOnlyDomains(d: string)
    ensures d in Providers && Providers[d].cut == PlusOnly
        <==> d in ["hotmail.com", "outlook.com", "fastmail.com", "fastmail.fm"]
  {
  }

  /** The domains whose rule also removes dots. */
  lemma PlusAndDotDomains(d: string)
    ensures d in Providers && Providers[d].cut == PlusAndDot
        <==> d in ["google.com", "gmail.com", "googlemail.com", "live.com"]
  {
  }

  /** The only alias is googlemail.com to gmail.com. */
  lemma OnlyAlias(d: string)
    requires d in Providers
    ensures Providers[d].aliasOf.Some? <==> d == "googlemail.com"
    ensures Providers[d].aliasOf.Some? ==> Providers[d].aliasOf.value == "gmail.com"
  {
  }

  /** Every alias target is itself registered, with the same rule and no alias of its own, and is
      a lower-case domain without `@`: resolving the canonical domain again lands on itself. */
  lemma AliasesClosed(d: string)
    requires d in Providers && Providers[d].aliasOf.Some?
    ensures Providers[d].aliasOf.value in Providers
    ensures Providers[Providers[d].aliasOf.value] == Provider(Providers[d].cut, None)
    ensures '@' !in Providers[d].aliasOf.value
    ensures IsLowercase(Providers[d].aliasOf.value)
  {
    assert d == "googlemail.com";
    assert forall c :: c in "gmail.com" ==> c in "gmailco.";
  }
}
