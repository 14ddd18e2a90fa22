/** Concrete addresses worked through the model. Each address is written as local part, `@` and
    domain joined together; the lower-casing and cutting of each literal part is stated beside it. */
module Scenarios {
  import opened Wrappers
  import opened Text
  import opened CutRules
  import opened Registry
  import opened MxTable
  import opened Normalizer

  lemma GmailParts()
    ensures Lower("Gmail.com") == "gmail.com"
    ensures CutPlusDot(Lower("User+Tag")) == "user"
  {
    assert Lower("User+Tag") == "user+tag";
    assert CutsAt("user+tag", 4);
  }

  /** The tag and the case go; gmail.com has no alias. */
  lemma GmailTagAndCase(resolveMx: string -> MxAnswer)
    ensures Normalized("User+Tag" + "@" + "Gmail.com", resolveMx) == Ok("user" + "@" + "gmail.com")
  {
    GmailParts();
    PlusAndDotProviders("User+Tag", "Gmail.com", resolveMx);
  }

  lemma GooglemailParts()
    ensures Lower("googlemail.com") == "googlemail.com"
    ensures CutPlusDot(Lower("a.b.c+x")) == "abc"
  {
    assert Lower("a.b.c+x") == "a.b.c+x";
    assert CutsAt("+x", 0);
  }

  /** Dots and the tag go, and googlemail.com becomes gmail.com. */
  lemma GooglemailAlias(resolveMx: string -> MxAnswer)
    ensures Normalized("a.b.c+x" + "@" + "googlemail.com", resolveMx) == Ok("abc" + "@" + "gmail.com")
  {
    GooglemailParts();
    PlusAndDotProviders("a.b.c+x", "googlemail.com", resolveMx);
  }

  lemma HotmailParts()
    ensures Lower("hotmail.com") == "hotmail.com"
    ensures CutPlus(Lower("a.b+x")) == "a.b"
  {
    assert Lower("a.b+x") == "a.b+x";
    assert CutsAt("a.b+x", 3);
  }

  /** hotmail.com keeps the dots. */
  lemma HotmailKeepsDots(resolveMx: string -> MxAnswer)
    ensures Normalized("a.b+x" + "@" + "hotmail.com", resolveMx) == Ok("a.b" + "@" + "hotmail.com")
  {
    HotmailParts();
    PlusOnlyProviders("a.b+x", "hotmail.com", resolveMx);
  }

  lemma OutlookParts()
    ensures Lower("Outlook.com") == "outlook.com"
    ensures CutPlus(Lower("User")) == "user"
  {
    assert Lower("User") == "user";
  }

  /** Without a tag only the case changes. */
  lemma OutlookCase(resolveMx: string -> MxAnswer)
    ensures Normalized("User" + "@" + "Outlook.com", resolveMx) == Ok("user" + "@" + "outlook.com")
  {
    OutlookParts();
    PlusOnlyProviders("User", "Outlook.com", resolveMx);
  }

  lemma CustomDomainParts()
    ensures Lower("MyCompany.com") == "mycompany.com"
    ensures CutPlusDot(Lower("Name+x")) == "name"
  {
    assert Lower("Name+x") == "name+x";
    assert CutsAt("name+x", 4);
  }

  lemma GoogleExchangeParts(resolveMx: string -> MxAnswer)
    requires resolveMx("mycompany.com") == Records([MxRecord(10, "alt1.aspmx.l.google.com")])
    ensures ProviderFor("mycompany.com", resolveMx) == Ok(Some(Provider(PlusAndDot, None)))
  {
    var records := [MxRecord(10, "alt1.aspmx.l.google.com")];
    GoogleMxExample();
    MxMapLookup(records[0].exchange);
    assert FindEntry(MxMap, records[0].exchange) == Some(MxEntry(GoogleAspmx, Provider(PlusAndDot, None)));
  }

  /** A custom domain whose first exchange is Google's gets the Gmail rule and keeps its domain. */
  lemma CustomDomainOnGoogle(resolveMx: string -> MxAnswer)
    requires resolveMx("mycompany.com") == Records([MxRecord(10, "alt1.aspmx.l.google.com")])
    ensures Normalized("Name+x" + "@" + "MyCompany.com", resolveMx) == Ok("name" + "@" + "mycompany.com")
  {
    CustomDomainParts();
    GoogleExchangeParts(resolveMx);
    NormalizedAddress("Name+x", "MyCompany.com", resolveMx);
  }

  lemma UnknownDomainParts()
    ensures Lower("unknown-domain.example") == "unknown-domain.example"
    ensures Lower("User") == "user"
  {
  }

  /** An unregistered domain whose answer matches no signature is only lower-cased. */
  lemma UnknownDomain(resolveMx: string -> MxAnswer)
    requires resolveMx("unknown-domain.example") == Records([])
    ensures Normalized("User" + "@" + "unknown-domain.example", resolveMx) ==
      Ok("user" + "@" + "unknown-domain.example")
  {
    UnknownDomainParts();
    NoProviderLowercases("User", "unknown-domain.example", resolveMx);
  }

  /** A failed query rejects the whole normalisation. */
  lemma UnknownDomainLookupFails(resolveMx: string -> MxAnswer)
    requires resolveMx("unknown-domain.example") == LookupError("ENOTFOUND")
    ensures Normalized("User" + "@" + "unknown-domain.example", resolveMx) == Err("ENOTFOUND")
  {
    UnknownDomainParts();
    LookupFailurePropagates("User", "unknown-domain.example", resolveMx);
  }

  /** Two `@` make the address opaque: it comes back exactly as given, capitals included. */
  lemma TwoSeparators(resolveMx: string -> MxAnswer)
    ensures Normalized("A" + "@" + "B" + "@" + "C", resolveMx) == Ok("A" + "@" + "B" + "@" + "C")
  {
    assert Count("A" + "@" + "B" + "@" + "C", '@') == 2 by {
      CountAppend("A" + "@" + "B" + "@", "C", '@');
      CountAppend("A" + "@" + "B", "@", '@');
      CountAppend("A" + "@", "B", '@');
      CountAppend("A", "@", '@');
    }
    MalformedUnchanged("A" + "@" + "B" + "@" + "C", resolveMx);
  }
}
