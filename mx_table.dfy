/** The ordered MX signature table: hostnames of mail exchanges that identify a provider
    operating a domain that is not in the registry. */
module MxTable {
  import opened Wrappers
  import opened Text
  import opened Registry

  /** The two hostname patterns: `aspmx.*google.*\.com\.?$` and `\.messagingengine\.com\.?$`. */
  datatype Signature = GoogleAspmx | MessagingEngine

  datatype MxEntry = MxEntry(signature: Signature, provider: Provider)

  /** The table, in the order it is searched. */
  const MxMap: seq<MxEntry> := [
    MxEntry(GoogleAspmx, Providers["gmail.com"]),
    MxEntry(MessagingEngine, Providers["fastmail.com"])
  ]

  /** The tail `\.?$` after a literal that ends at index `e`: the string ends there, or one
      `.` follows and then the string ends. */
  predicate EndsAfter(h: string, e: int)
  {
    e == |h| || (e + 1 == |h| && 0 <= e && h[e] == '.')
  }

  /** The language of `aspmx.*google.*\.com\.?$` with its search semantics: somewhere in `h`
      `aspmx` occurs, `google` occurs after it, `.com` occurs after that and ends the string
      up to one final dot, and nothing from the start of `aspmx` on is a line terminator
      (which `.` cannot match). */
  ghost predicate GoogleMxPattern(h: string)
  {
    exists i: nat, j: nat, k: nat ::
      OccursAt("aspmx", h, i) && OccursAt("google", h, j) && OccursAt(".com", h, k) &&
      i + 5 <= j && j + 6 <= k && EndsAfter(h, k + 4) && NoTerminator(h[i..])
  }

  /** The language of `\.messagingengine\.com\.?$`. */
  ghost predicate FastmailMxPattern(h: string)
  {
    exists k: nat :: OccursAt(".messagingengine.com", h, k) && EndsAfter(h, k + 20)
  }

  /** Where the final `.com` must start for `\.com\.?$` to match. */
  function ComStart(h: string): int
  {
    if EndsWith(h, ".com") then |h| - 4 else |h| - 5
  }

  /** `/aspmx.*google.*\.com\.?$/.test(h)`: searching left to right for the first `aspmx` on the
      last line and for the first `google` after it, both before the final `.com`. */
  predicate IsGoogleMx(h: string)
  {
    (EndsWith(h, ".com") || EndsWith(h, ".com.")) &&
    match FindFrom("aspmx", h[..ComStart(h)], LineStart(h))
    case None => false
    case Some(i) => FindFrom("google", h[..ComStart(h)], i + 5).Some?
  }

  /** `/\.messagingengine\.com\.?$/.test(h)`: the hostname ends with the suffix, up to one final
      dot. */
  predicate IsFastmailMx(h: string)
  {
    EndsWith(h, ".messagingengine.com") || EndsWith(h, ".messagingengine.com.")
  }

  /** The final `.com` of a match can only start at ComStart. */
  lemma ComTail(h: string, k: nat)
    requires OccursAt(".com", h, k) && EndsAfter(h, k + 4)
    ensures EndsWith(h, ".com") || EndsWith(h, ".com.")
    ensures k == ComStart(h)
  {
    if k + 4 == |h| {
      assert h[|h| - 4..] == h[k..k + 4];
    } else {
      assert h[|h| - 5..] == h[k..k + 4] + [h[k + 4]];
      assert h[|h| - 1] == '.';
      assert !EndsWith(h, ".com") by {
        assert h[|h| - 4..][3] == h[|h| - 1];
      }
    }
  }

  /** The `.com` that ComStart points at is an occurrence ending the string up to a final dot. */
  lemma ComStartOccurs(h: string)
    requires EndsWith(h, ".com") || EndsWith(h, ".com.")
    ensures 0 <= ComStart(h) && OccursAt(".com", h, ComStart(h)) && EndsAfter(h, ComStart(h) + 4)
  {
    if EndsWith(h, ".com") {
      assert h[|h| - 4..] == h[|h| - 4..|h|];
    } else {
      assert h[|h| - 5..|h| - 1] == h[|h| - 5..][..4];
      assert h[|h| - 1] == h[|h| - 5..][4];
    }
  }

  /** The matcher decides exactly the language of the Google signature. */
  lemma GoogleMxCorrect(h: string)
    ensures IsGoogleMx(h) <==> GoogleMxPattern(h)
  {
    if GoogleMxPattern(h) {
      var i: nat, j: nat, k: nat :|
        OccursAt("aspmx", h, i) && OccursAt("google", h, j) && OccursAt(".com", h, k) &&
        i + 5 <= j && j + 6 <= k && EndsAfter(h, k + 4) && NoTerminator(h[i..]);
      ComTail(h, k);
      TerminatorFreeFrom(h, i);
      OccursInPrefix("aspmx", h, k, i);
      OccursInPrefix("google", h, k, j);
      var found := FindFrom("aspmx", h[..k], LineStart(h));
      assert found.Some? && found.value <= i;
    }
    if IsGoogleMx(h) {
      var k := ComStart(h);
      ComStartOccurs(h);
      var i := FindFrom("aspmx", h[..k], LineStart(h)).value;
      var j := FindFrom("google", h[..k], i + 5).value;
      OccursInPrefix("aspmx", h, k, i);
      OccursInPrefix("google", h, k, j);
      TerminatorFreeFrom(h, i);
      assert OccursAt("aspmx", h, i) && OccursAt("google", h, j) && OccursAt(".com", h, k) &&
        i + 5 <= j && j + 6 <= k && EndsAfter(h, k + 4) && NoTerminator(h[i..]);
    }
  }

  /** The matcher decides exactly the language of the Fastmail signature. */
  lemma FastmailMxCorrect(h: string)
    ensures IsFastmailMx(h) <==> FastmailMxPattern(h)
  {
    var w := ".messagingengine.com";
    if FastmailMxPattern(h) {
      var k: nat :| OccursAt(w, h, k) && EndsAfter(h, k + 20);
      if k + 20 == |h| {
        assert h[|h| - 20..] == h[k..k + 20];
      } else {
        assert h[|h| - 21..] == h[k..k + 20] + [h[k + 20]];
      }
    }
    if EndsWith(h, w) {
      assert h[|h| - 20..] == h[|h| - 20..|h|];
      assert OccursAt(w, h, |h| - 20) && EndsAfter(h, |h|);
    } else if EndsWith(h, w + ".") {
      assert h[|h| - 21..|h| - 1] == h[|h| - 21..][..20];
      assert h[|h| - 1] == h[|h| - 21..][20];
      assert OccursAt(w, h, |h| - 21) && EndsAfter(h, |h| - 1);
    }
  }

  predicate Matches(sig: Signature, host: string)
  {
    match sig
    case GoogleAspmx => IsGoogleMx(host)
    case MessagingEngine => IsFastmailMx(host)
  }

  /** `mxMap.find(entry => entry.match.test(host))`: the first entry, in table order, whose
      signature matches the hostname. */
  function FindEntry(table: seq<MxEntry>, host: string): (r: Option<MxEntry>)
    ensures r.None? <==> forall n :: 0 <= n < |table| ==> !Matches(table[n].signature, host)
    ensures r.Some? ==>
      exists n :: (0 <= n < |table| && table[n] == r.value &&
        Matches(table[n].signature, host) &&
        forall m :: 0 <= m < n ==> !Matches(table[m].signature, host))
  {
    if table == [] then None
    else if Matches(table[0].signature, host) then Some(table[0])
    else
      var r := FindEntry(table[1..], host);
      assert forall n :: 1 <= n < |table| ==> table[n] == table[1..][n - 1];
      if r.Some? then
        var n :| 0 <= n < |table[1..]| && table[1..][n] == r.value &&
          Matches(table[1..][n].signature, host) &&
          forall m :: 0 <= m < n ==> !Matches(table[1..][m].signature, host);
        assert table[n + 1] == r.value;
        r
      else r
  }

  /** With this table, a hostname is attributed to the Gmail rule when the Google signature
      matches, else to the Fastmail rule when the Fastmail signature matches, else to nothing.
      Neither rule has an alias, so an MX-derived provider never changes the domain. */
  lemma MxMapLookup(host: string)
    ensures FindEntry(MxMap, host) ==
      if IsGoogleMx(host) then Some(MxEntry(GoogleAspmx, Provider(CutRules.PlusAndDot, None)))
      else if IsFastmailMx(host) then Some(MxEntry(MessagingEngine, Provider(CutRules.PlusOnly, None)))
      else None
    ensures FindEntry(MxMap, host).Some? ==> FindEntry(MxMap, host).value.provider.aliasOf == None
  {
    assert MxMap[1..][1..] == [];
  }

  /** The table is searched in order: an exchange that the Google signature matches goes to the
      Gmail rule even when the Fastmail signature matches it too. */
  lemma TableOrderDecides(h: string)
    requires IsGoogleMx(h)
    ensures FindEntry(MxMap, h) == Some(MxMap[0])
  {
    MxMapLookup(h);
  }

  /** The two signatures overlap: every single-line hostname `aspmx…google….messagingengine.com`
      fits both, so the order of the table matters. */
  lemma SignaturesOverlap(x: string, y: string)
    requires NoTerminator(x) && NoTerminator(y)
    ensures IsGoogleMx("aspmx" + x + "google" + y + ".messagingengine.com")
    ensures IsFastmailMx("aspmx" + x + "google" + y + ".messagingengine.com")
  {
    var h := "aspmx" + x + "google" + y + ".messagingengine.com";
    OverlapOccurrences(x, y);
    OverlapOneLine(x, y);
    GoogleMxWitness(h, 0, 5 + |x|, |h| - 4);
    FastmailSuffix("aspmx" + x + "google" + y);
  }

  lemma OverlapOccurrences(x: string, y: string)
    ensures var h := "aspmx" + x + "google" + y + ".messagingengine.com";
      OccursAt("aspmx", h, 0) && OccursAt("google", h, 5 + |x|) && OccursAt(".com", h, |h| - 4) &&
      EndsAfter(h, |h|)
  {
    var h := "aspmx" + x + "google" + y + ".messagingengine.com";
    var tail := ".messagingengine.com";
    OccursAfter([], "aspmx", x + "google" + y + tail);
    assert [] + "aspmx" + (x + "google" + y + tail) == h;
    OccursAfter("aspmx" + x, "google", y + tail);
    assert "aspmx" + x + "google" + (y + tail) == h;
    OccursAfter("aspmx" + x + "google" + y + ".messagingengine", ".com", []);
    assert "aspmx" + x + "google" + y + ".messagingengine" + ".com" + [] == h;
  }

  lemma OverlapOneLine(x: string, y: string)
    requires NoTerminator(x) && NoTerminator(y)
    ensures var h := "aspmx" + x + "google" + y + ".messagingengine.com"; NoTerminator(h[0..])
  {
    var h := "aspmx" + x + "google" + y + ".messagingengine.com";
    NoTerminatorAppend("aspmx", x);
    NoTerminatorAppend("aspmx" + x, "google");
    NoTerminatorAppend("aspmx" + x + "google", y);
    NoTerminatorAppend("aspmx" + x + "google" + y, ".messagingengine.com");
    assert h[0..] == h;
  }

  lemma FastmailSuffix(a: string)
    ensures IsFastmailMx(a + ".messagingengine.com")
  {
    var h := a + ".messagingengine.com";
    assert h[|h| - 20..] == ".messagingengine.com";
  }

  lemma GoogleMxWitness(h: string, i: nat, j: nat, k: nat)
    requires OccursAt("aspmx", h, i) && OccursAt("google", h, j) && OccursAt(".com", h, k)
    requires i + 5 <= j && j + 6 <= k && EndsAfter(h, k + 4) && NoTerminator(h[i..])
    ensures IsGoogleMx(h)
  {
    GoogleMxCorrect(h);
  }

  /** A hostname of the Google signature as the resolver reports it. */
  lemma GoogleMxExample()
    ensures IsGoogleMx("alt1.aspmx.l.google.com")
  {
    var h := "alt1.aspmx.l.google.com";
    OccursAfter("alt1.", "aspmx", ".l.google.com");
    assert "alt1." + "aspmx" + ".l.google.com" == h;
    OccursAfter("alt1.aspmx.l.", "google", ".com");
    assert "alt1.aspmx.l." + "google" + ".com" == h;
    OccursAfter("alt1.aspmx.l.google", ".com", "");
    assert "alt1.aspmx.l.google" + ".com" + "" == h;
    assert OccursAt("aspmx", h, 5) && OccursAt("google", h, 13) && OccursAt(".com", h, 19);
    assert EndsAfter(h, 23) && NoTerminator(h[5..]);
    GoogleMxWitness(h, 5, 13, 19);
  }

  /** The same signature with the root dot that `\.?` allows. */
  lemma GoogleMxRootDotExample()
    ensures IsGoogleMx("aspmx.l.google.com.")
  {
    var h := "aspmx.l.google.com.";
    OccursAfter("", "aspmx", ".l.google.com.");
    assert "" + "aspmx" + ".l.google.com." == h;
    OccursAfter("aspmx.l.", "google", ".com.");
    assert "aspmx.l." + "google" + ".com." == h;
    OccursAfter("aspmx.l.google", ".com", ".");
    assert "aspmx.l.google" + ".com" + "." == h;
    assert OccursAt("aspmx", h, 0) && OccursAt("google", h, 8) && OccursAt(".com", h, 14);
    assert EndsAfter(h, 18) && NoTerminator(h[0..]);
    GoogleMxWitness(h, 0, 8, 14);
  }

  /** The pattern is case-sensitive and the exchange is not lower-cased first. */
  lemma GoogleMxCaseSensitive()
    ensures !IsGoogleMx("ASPMX.L.GOOGLE.COM")
  {
  }
}
