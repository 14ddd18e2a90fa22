# normalize-email in Dafny

A model of `normalizeEmail` from the `normalize-email` package, with proofs about it. The function
maps an e-mail address to one canonical form, so that aliases of one mailbox compare equal:

- the address is lower-cased;
- it is split on `@`, and anything other than exactly one `@` is handed back unchanged;
- the domain's provider is looked up in a fixed registry of eight domains;
- for a domain outside the registry, the domain's MX records are scanned against a table of two
  host-name signatures (Google Workspace and Fastmail);
- the provider's cut rule then rewrites the local part:
  - `PLUS_ONLY` drops everything from the `+` on;
  - `PLUS_AND_DOT` also drops every `.`;
- the provider's alias, if set, replaces the domain (`googlemail.com` becomes `gmail.com`).

Modules:

- `Wrappers`: `Option` and `Result`.
- `Text`: the string operations the source relies on, written out with JavaScript's meaning:
  - ASCII `toLowerCase`;
  - `split(/@/)`;
  - the regular-expression line terminators, which `.` does not match;
  - substring search.
- `CutRules`: the two cut regular expressions, `/\+.*$/` and `/\.|\+.*$/g`, as the string
  functions `replace(…, '')` computes with them (`CutPlus`, `CutPlusDot`).
- `Registry`: the `providers` map.
- `MxTable`: the `mxMap` table.
  - Each MX pattern is given twice: once as an existential statement of what the regular
    expression matches, and once as an executable matcher (a left-to-right search for the Google
    pattern, a suffix test for the Fastmail one).
  - A lemma proves the two equal.
- `Normalizer`:
  - `getProvider` as the method `GetProvider`, with the source's `for` loop and its `break`;
  - `normalizeEmail` as the method `NormalizeEmail`;
  - `GetProvider`'s loop is proved equal to the recursive first-match function `MxProvider`,
    through `ProviderFor`;
  - `NormalizeEmail` is proved equal to `Normalized`;
  - the properties are proved about those functions.
- `Scenarios`: concrete addresses worked through the model.

The DNS query is not modelled. Its place is taken by a resolver parameter,
`resolveMx: string -> MxAnswer`. The resolver answers with either the list of MX records or a
lookup error.

Two behaviours of the code are worth stating, because a reader might expect otherwise:

- An address without exactly one `@` comes back as it was given. It is not lower-cased
  (`src/index.ts:47-49` returns `eMail`, not `email`).
- A failed MX lookup is not turned into "no provider". `resolveMxAsync` rejects
  (`src/index.ts:88-89`), and nothing catches the rejection, so `normalizeEmail` rejects with
  the same error (`Err(code)` here).

## Model

| member | source | states |
|---|---|---|
| Text.Split | src/index.ts:45 | `split(/@/)`: one more part than there are `@`s, no part holds an `@`, and joining the parts with `@` gives back the input |
| Text.SplitJoin | src/index.ts:45 | splitting the join of `@`-free parts gives back those parts |
| Text.SplitAddress | src/index.ts:45-52 | `local@domain` with `@`-free sides splits into exactly `[local, domain]` |
| Text.Lower | src/index.ts:44 | `toLowerCase` on ASCII: the length is kept, exactly the upper-case letters change, and no character of the result is upper case |
| Text.LowerFixesLowercase | src/index.ts:44 | lower-casing leaves a string unchanged exactly when it holds no upper-case letter |
| Text.LowerIsLowercase | src/index.ts:44 | a lower-cased string holds no upper-case letter |
| Text.LowerKeepsCount | src/index.ts:44-47 | lower-casing keeps the number of every non-letter character, so the `@` count is decided on the original address |
| Text.LowerAddress | src/index.ts:44-52 | lower-casing `local@domain` lower-cases each side and keeps the `@` |
| Text.LineStart | src/index.ts:39 | the start of the last line, where the Google matcher begins its search for `aspmx`: no line terminator from there on, and a line terminator just before it |
| Text.TerminatorFreeFrom | src/index.ts:39 | a suffix has no line terminator exactly when it starts at or after the start of the last line, so `aspmx.*…$` can only match from there |
| Text.FindFrom | src/index.ts:39 | the leftmost occurrence of a word at or after a position, or none at all |
| CutRules.CutsAt | src/index.ts:7 | the match of `\+.*$` at an index: a `+` there, and no line terminator after it, since `.` does not match one and `$` is the end of the input |
| CutRules.CutPlus | src/index.ts:7 | `replace(/\+.*$/, '')`: the result is the prefix before the leftmost `+` that has no line terminator after it, or the whole string when there is no such `+` |
| CutRules.CutPlusDot | src/index.ts:8 | `replace(/\.\|\+.*$/g, '')`: the result holds no `.`, is no longer than the input and uses only the input's characters |
| CutRules.Apply | src/index.ts:56 | `username.replace(provider.cut, '')`: the result holds no cut point, is no longer than the input and uses only its characters; the plus-only rule keeps a prefix, the global rule leaves no dot |
| CutRules.CutPlusDotIsCutThenRemoveDots | src/index.ts:7-8 | the global rule is the plus cut followed by the removal of every dot |
| CutRules.CutPlusNoCut | src/index.ts:7 | after the plus cut, no cut point is left |
| CutRules.CutPlusDotNoCut | src/index.ts:8 | after the plus-and-dot cut, no cut point is left |
| CutRules.FixedWhenNothingToCut | src/index.ts:7-8 | a string with no cut point (and, for the global rule, no dot) is left unchanged |
| CutRules.ApplyIdempotent | src/index.ts:56 | a cut leaves no cut point, uses only the input's characters, and a second application changes nothing |
| CutRules.PlusOnlyOnOneLine | src/index.ts:7 | on a one-line string, the plus cut ends just before the first `+`, and the result holds no `+` |
| CutRules.PlusAndDotOnOneLine | src/index.ts:8 | on a one-line string, the plus-and-dot cut leaves neither `+` nor `.` |
| Registry.RegisteredDomains | src/index.ts:10-36 | the `providers` registry (the constant `Providers`) has exactly the eight keys google.com, gmail.com, googlemail.com, hotmail.com, live.com, outlook.com, fastmail.com and fastmail.fm |
| Registry.PlusOnlyDomains | src/index.ts:21-35 | the domains with the plus-only rule are exactly hotmail.com, outlook.com, fastmail.com and fastmail.fm |
| Registry.PlusAndDotDomains | src/index.ts:11-26 | the domains with the plus-and-dot rule are exactly google.com, gmail.com, googlemail.com and live.com |
| Registry.OnlyAlias | src/index.ts:17-20 | googlemail.com is the only domain with an alias, and its alias is gmail.com |
| Registry.AliasesClosed | src/index.ts:14-20 | an alias names a registered, lower-case, `@`-free domain with the same rule and no alias of its own |
| MxTable.GoogleMxPattern | src/index.ts:39 | the language of `/aspmx.*google.*\.com\.?$/`: `aspmx`, later `google`, later a `.com` followed by the end of the input or by one `.` and the end, with no line terminator from `aspmx` on |
| MxTable.FastmailMxPattern | src/index.ts:40 | the language of `/\.messagingengine\.com\.?$/`: `.messagingengine.com` followed by the end of the input or by one `.` and the end |
| MxTable.IsGoogleMx | src/index.ts:39 | `/aspmx.*google.*\.com\.?$/.test(host)`, defined as a left-to-right search for `aspmx` on the last line, then `google`, before a final `.com` with an optional root dot; GoogleMxCorrect proves it accepts exactly the pattern's language |
| MxTable.IsFastmailMx | src/index.ts:40 | `/\.messagingengine\.com\.?$/.test(host)`, defined as a suffix test with an optional root dot; FastmailMxCorrect proves it accepts exactly the pattern's language |
| MxTable.GoogleMxCorrect | src/index.ts:39 | the matcher accepts a host exactly when `/aspmx.*google.*\.com\.?$/` matches it |
| MxTable.FastmailMxCorrect | src/index.ts:40 | the matcher accepts a host exactly when `/\.messagingengine\.com\.?$/` matches it |
| MxTable.Matches | src/index.ts:71 | `entry.match.test(host)`: an entry's signature chooses IsGoogleMx or IsFastmailMx, applied to the exchange as reported, without lower-casing |
| MxTable.FindEntry | src/index.ts:71 | `mxMap.find`: none exactly when no entry matches; otherwise the first matching entry |
| MxTable.MxMapLookup | src/index.ts:38-41 | on the table `mxMap` (the constant `MxMap`), a Google host gives the gmail.com provider, otherwise a Fastmail host gives the fastmail.com provider, otherwise nothing; neither has an alias |
| MxTable.TableOrderDecides | src/index.ts:38-41 | when the Google signature matches, the Google entry wins, whatever the Fastmail signature says |
| MxTable.SignaturesOverlap | src/index.ts:39-40 | some host names match both signatures |
| MxTable.GoogleMxExample | src/index.ts:39 | `alt1.aspmx.l.google.com` is a Google host |
| MxTable.GoogleMxRootDotExample | src/index.ts:39 | `aspmx.l.google.com.` (with the root dot) is a Google host |
| MxTable.GoogleMxCaseSensitive | src/index.ts:39 | the signature is case-sensitive: `ASPMX.L.GOOGLE.COM` does not match |
| Normalizer.MxProvider | src/index.ts:68-79 | the scan over the MX answer, defined recursively: the provider of the first record whose exchange matches a table entry, or none; GetProvider's loop is proved equal to it, and MxProviderSkips, MxProviderFirstMatch, MxProviderNone, LaterRecordsIgnored and PriorityIgnored state its properties |
| Normalizer.ProviderFor | src/index.ts:64-83 | what `getProvider` settles with, as a function of the domain and the resolver: the registry entry; otherwise `Err` with the lookup's code, or the MX scan's result |
| Normalizer.GetProvider | src/index.ts:64-83 | the registry entry if there is one; otherwise the provider of the first MX record that matches the table, none when no record matches, and the lookup's error when it fails |
| Normalizer.NormalizeEmail | src/index.ts:43-62 | settles with `Normalized`: the original address when it has not exactly one `@`, the lookup's error, or the rewritten address |
| Normalizer.Normalized | src/index.ts:43-62 | what `normalizeEmail` settles with, as a function of the address and the resolver: the address as given unless splitting its lower-cased form yields two parts; otherwise the lookup's error, or the rewritten local part, `@` and the rewritten domain |
| Normalizer.RewrittenLocal | src/index.ts:55-56 | the local part after `username.replace(provider.cut, '')`, or unchanged when no provider was found |
| Normalizer.RewrittenDomain | src/index.ts:57-59 | the provider's `aliasOf` when it is set, otherwise the domain unchanged (also when no provider was found) |
| Normalizer.Canonical | src/index.ts:55-61 | the address `normalizeEmail` builds from the split parts and the provider: the rewritten local part, `@`, the rewritten domain |
| Normalizer.MxProviderSkips | src/index.ts:70-76 | records that match no entry do not affect the result of the scan |
| Normalizer.MxProviderFirstMatch | src/index.ts:70-76 | the scan yields the provider of the first record that matches some entry |
| Normalizer.MxProviderNone | src/index.ts:68-79 | the scan yields nothing exactly when no record matches any entry |
| Normalizer.LaterRecordsIgnored | src/index.ts:72-75 | once a record has matched, records after it change nothing (the `break`) |
| Normalizer.PriorityIgnored | src/index.ts:71 | only the exchange names matter: two record lists with the same exchanges in the same order give the same result, whatever their priorities |
| Normalizer.MxProviderHasNoAlias | src/index.ts:39-40 | a provider found through MX is the gmail.com or the fastmail.com entry, and neither has an alias |
| Normalizer.ResolverConsulted | src/index.ts:65-67 | the resolver is consulted only for domains outside the registry |
| Normalizer.LookupFailureRejects | src/index.ts:66-67 | a failed lookup for an unregistered domain rejects with the lookup's error |
| Normalizer.ProviderAlias | src/index.ts:57-58 | a provider with an alias comes from the registry itself, and its alias names a registered domain with the same rule and no alias |
| Normalizer.CutKeepsAt | src/index.ts:56 | a cut never introduces an `@` and keeps a lower-case string lower-case |
| Normalizer.LowerKeepsSeparator | src/index.ts:44-45 | lower-casing neither adds nor removes an `@` |
| Normalizer.NormalizedAddress | src/index.ts:43-62 | for `local@domain`, normalisation lower-cases both sides, resolves the lower-cased domain and rewrites with the provider found, or rejects with the lookup's error |
| Normalizer.MalformedUnchanged | src/index.ts:44-49 | an address without exactly one `@` comes back unchanged, not lower-cased, and the resolver is not consulted |
| Normalizer.AddressParts | src/index.ts:45-52 | an address with one `@` is the join of its two `@`-free parts |
| Normalizer.NoProviderLowercases | src/index.ts:55-61 | without a provider the result is just the lower-cased address |
| Normalizer.RewriteSettles | src/index.ts:56-59 | rewriting keeps both sides `@`-free and lower-case, and the rewritten domain resolves to a provider whose rule and alias change nothing more |
| Normalizer.ResultShape | src/index.ts:51-61 | a normalised address has exactly one `@`; its local part is the lower-cased local part with no cut, the plus cut or the plus-and-dot cut, and its domain is the lower-cased domain or that domain's registered alias |
| Normalizer.ResultShapeAddress | src/index.ts:51-61 | the same shape for an address given as `local@domain` |
| Normalizer.PlusOnlyProviders | src/index.ts:51-61 | at hotmail.com, outlook.com, fastmail.com and fastmail.fm, the local part loses its plus tag and keeps its dots |
| Normalizer.PlusAndDotProviders | src/index.ts:51-61 | at google.com, gmail.com, googlemail.com and live.com, the local part loses its plus tag and its dots, and googlemail.com becomes gmail.com |
| Normalizer.RegisteredIgnoresResolver | src/index.ts:65-66 | for a registered domain, normalisation succeeds and does not depend on DNS |
| Normalizer.MxMatchKeepsDomain | src/index.ts:56-59 | a provider found through MX rewrites the local part and keeps the domain |
| Normalizer.LookupFailurePropagates | src/index.ts:54 | a failed lookup makes normalisation reject with the lookup's error |
| Normalizer.Idempotent | src/index.ts:43-62 | normalising a normalised address changes nothing (with the same resolver) |
| Normalizer.IdempotentAddress | src/index.ts:43-62 | the same for an address given as `local@domain` |
| Scenarios.GmailTagAndCase | src/index.ts:14-16 | `User+Tag@Gmail.com` becomes `user@gmail.com` |
| Scenarios.GooglemailAlias | src/index.ts:17-20 | `a.b.c+x@googlemail.com` becomes `abc@gmail.com` |
| Scenarios.HotmailKeepsDots | src/index.ts:21-23 | `a.b+x@hotmail.com` becomes `a.b@hotmail.com` |
| Scenarios.OutlookCase | src/index.ts:27-29 | `User@Outlook.com` becomes `user@outlook.com` |
| Scenarios.CustomDomainOnGoogle | src/index.ts:67-78 | a domain whose MX host is `alt1.aspmx.l.google.com` gets the Gmail rule and keeps its own domain |
| Scenarios.UnknownDomain | src/index.ts:67-82 | an unregistered domain whose MX answer is an empty list of records is only lower-cased; a resolver that reports a missing MX record as an error takes the failed-lookup path instead |
| Scenarios.UnknownDomainLookupFails | src/index.ts:54 | a domain whose lookup fails rejects with the lookup's error |
| Scenarios.TwoSeparators | src/index.ts:47-49 | `A@B@C` comes back unchanged |

## Left out

- `resolveMxAsync` and the `dns` module's `resolveMx`: these are network I/O. The resolver
  parameter takes their place. A DNS error becomes `LookupError(code)`, and a successful answer
  becomes `Records(records)`.
- `async`/`Promise`: the methods run to completion. A rejected promise is `Err(code)`.
- `toLowerCase` is modelled on ASCII letters only. JavaScript also lower-cases non-ASCII letters,
  and a few of them change length.
- JavaScript strings are sequences of UTF-16 code units. Here they are sequences of Unicode
  characters. None of the patterns' literal characters or the line terminators is a surrogate,
  so the cut rules and signatures give the same answers on either reading.
- `providers[domain]` is a lookup in a plain object. In the source, keys such as `constructor`
  reach `Object.prototype`. The model looks only at the eight declared keys.
- `MxRecord.priority` is carried but never read, as in the source. Records are scanned in the
  order the resolver returns them.
