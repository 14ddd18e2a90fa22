/** The string operations the normaliser is built from: ASCII lower-casing, counting and
    splitting on a separator, line terminators and substring search. */
module Text {
  import opened Wrappers

  /** An ASCII upper-case letter. */
  predicate IsUpper(c: char)
  {
    'A' <= c <= 'Z'
  }

  /** `toLowerCase` on one character, restricted to ASCII letters. */
  function LowerChar(c: char): (d: char)
    ensures !IsUpper(d)
    ensures IsUpper(c) ==> d as int == c as int + 32
    ensures !IsUpper(c) ==> d == c
  {
    if IsUpper(c) then (c as int + 32) as char else c
  }

  /** `toLowerCase` on a string: the length is kept, and exactly the upper-case letters change,
      each into its lower-case letter, 32 code points further on. */
  function Lower(s: string): (r: string)
    ensures |r| == |s|
    ensures forall i :: 0 <= i < |s| ==> (r[i] == s[i] <==> !IsUpper(s[i])) && !IsUpper(r[i])
    ensures forall i :: 0 <= i < |s| && IsUpper(s[i]) ==> r[i] as int == s[i] as int + 32
  {
    seq(|s|, i requires 0 <= i < |s| => LowerChar(s[i]))
  }

  /** A string in which no character is an upper-case letter. */
  predicate IsLowercase(s: string)
  {
    forall c :: c in s ==> !IsUpper(c)
  }

  /** Lower-casing keeps the length and yields a lower-case string. */
  lemma LowerIsLowercase(s: string)
    ensures |Lower(s)| == |s|
    ensures IsLowercase(Lower(s))
  {
    forall c | c in Lower(s) ensures !IsUpper(c) {
      var i :| 0 <= i < |s| && Lower(s)[i] == c;
    }
  }

  /** Lower-casing leaves a string unchanged exactly when it is already lower case. */
  lemma LowerFixesLowercase(s: string)
    ensures Lower(s) == s <==> IsLowercase(s)
  {
    if IsLowercase(s) {
      forall i | 0 <= i < |s| ensures Lower(s)[i] == s[i] {
        assert s[i] in s;
      }
    } else {
      var c :| c in s && IsUpper(c);
      var i :| 0 <= i < |s| && s[i] == c;
      assert Lower(s)[i] != s[i];
    }
  }

  /** Lower-casing distributes over concatenation. */
  lemma LowerAppend(a: string, b: string)
    ensures Lower(a + b) == Lower(a) + Lower(b)
  {
    assert forall i :: 0 <= i < |a| ==> (a + b)[i] == a[i];
    assert forall i :: |a| <= i < |a| + |b| ==> (a + b)[i] == b[i - |a|];
  }

  /** Lower-casing an address lower-cases both its parts and keeps the separator. */
  lemma LowerAddress(local: string, domain: string)
    ensures Lower(local + "@" + domain) == Lower(local) + "@" + Lower(domain)
  {
    LowerAppend(local + "@", domain);
    LowerAppend(local, "@");
    assert Lower("@") == "@" by {
      assert Lower("@")[0] == LowerChar('@');
    }
  }

  /** The number of occurrences of `c` in `s`. */
  function Count(s: string, c: char): (n: nat)
    ensures n == 0 <==> c !in s
    ensures n <= |s|
  {
    if s == [] then 0 else (if s[0] == c then 1 else 0) + Count(s[1..], c)
  }

  lemma {:induction false} CountAppend(a: string, b: string, c: char)
    ensures Count(a + b, c) == Count(a, c) + Count(b, c)
  {
    if a != [] {
      assert (a + b)[1..] == a[1..] + b;
      CountAppend(a[1..], b, c);
    } else {
      assert a + b == b;
    }
  }

  /** Lower-casing neither adds nor removes a character that is not a letter, so the number of
      `@` separators is the same before and after. */
  lemma {:induction false} LowerKeepsCount(s: string, c: char)
    requires !IsUpper(c) && !('a' <= c <= 'z')
    ensures Count(Lower(s), c) == Count(s, c)
  {
    if s != [] {
      assert Lower(s) == [LowerChar(s[0])] + Lower(s[1..]);
      CountAppend([LowerChar(s[0])], Lower(s[1..]), c);
      assert Lower(s)[1..] == Lower(s[1..]);
      LowerKeepsCount(s[1..], c);
      assert (LowerChar(s[0]) == c) == (s[0] == c);
    }
  }

  /** The parts separated by `@`, joined back with `@` between them. */
  function Join(parts: seq<string>): string
    requires |parts| >= 1
  {
    if |parts| == 1 then parts[0] else parts[0] + "@" + Join(parts[1..])
  }

  /** `s.split(/@/)`: the maximal `@`-free pieces of `s`, in order, including empty ones. */
  function Split(s: string): (parts: seq<string>)
    ensures |parts| == Count(s, '@') + 1
    ensures forall k :: 0 <= k < |parts| ==> '@' !in parts[k]
    ensures Join(parts) == s
  {
    if s == [] then [[]]
    else
      var rest := Split(s[1..]);
      if s[0] == '@' then [[]] + rest
      else [[s[0]] + rest[0]] + rest[1..]
  }

  /** Splitting a string without `@` yields that one string. */
  lemma {:induction false} SplitNoSeparator(p: string)
    requires '@' !in p
    ensures Split(p) == [p]
  {
    if p != [] {
      SplitNoSeparator(p[1..]);
      assert [p[0]] + p[1..] == p;
    }
  }

  /** An `@`-free piece followed by `@` splits off as the first part. */
  lemma {:induction false} SplitCons(p: string, t: string)
    requires '@' !in p
    ensures Split(p + "@" + t) == [p] + Split(t)
  {
    if p == [] {
      assert (p + "@" + t)[1..] == t;
    } else {
      assert (p + "@" + t)[1..] == p[1..] + "@" + t;
      SplitCons(p[1..], t);
      assert [p[0]] + p[1..] == p;
    }
  }

  /** Split undoes Join whenever the parts contain no `@`. */
  lemma {:induction false} SplitJoin(parts: seq<string>)
    requires |parts| >= 1
    requires forall k :: 0 <= k < |parts| ==> '@' !in parts[k]
    ensures Split(Join(parts)) == parts
  {
    if |parts| == 1 {
      SplitNoSeparator(parts[0]);
    } else {
      SplitJoin(parts[1..]);
      SplitCons(parts[0], Join(parts[1..]));
      assert [parts[0]] + parts[1..] == parts;
    }
  }

  /** An address of the form `local@domain` splits into exactly those two parts. */
  lemma SplitAddress(local: string, domain: string)
    requires '@' !in local && '@' !in domain
    ensures Split(local + "@" + domain) == [local, domain]
  {
    SplitJoin([local, domain]);
  }

  /** The line terminators of ECMAScript regular expressions; `.` matches any other character. */
  predicate IsLineTerminator(c: char)
  {
    c == '\n' || c == '\r' || c == '\U{2028}' || c == '\U{2029}'
  }

  predicate NoTerminator(s: string)
  {
    forall i :: 0 <= i < |s| ==> !IsLineTerminator(s[i])
  }

  lemma NoTerminatorAppend(a: string, b: string)
    ensures NoTerminator(a + b) <==> NoTerminator(a) && NoTerminator(b)
  {
    if NoTerminator(a + b) {
      assert forall i :: 0 <= i < |a| ==> a[i] == (a + b)[i];
      assert forall i :: 0 <= i < |b| ==> b[i] == (a + b)[|a| + i];
    }
  }

  /** A string made of characters of a single line is itself on a single line. */
  lemma NoTerminatorSubset(s: string, t: string)
    requires NoTerminator(s)
    requires forall c :: c in t ==> c in s
    ensures NoTerminator(t)
  {
    forall i | 0 <= i < |t| ensures !IsLineTerminator(t[i]) {
      assert t[i] in t;
      var j :| 0 <= j < |s| && s[j] == t[i];
    }
  }

  /** The index just after the last line terminator of `s` (0 when there is none): the
      earliest position from which `.*` can reach the end of `s`. */
  function LineStart(s: string): (n: nat)
    ensures n <= |s|
    ensures NoTerminator(s[n..])
    ensures n > 0 ==> IsLineTerminator(s[n - 1])
  {
    if s == [] then 0
    else if IsLineTerminator(s[|s| - 1]) then |s|
    else
      var n := LineStart(s[..|s| - 1]);
      assert s[n..] == s[..|s| - 1][n..] + [s[|s| - 1]];
      n
  }

  /** The suffix of `s` from `i` holds no line terminator exactly when `i` is at or after LineStart. */
  lemma TerminatorFreeFrom(s: string, i: int)
    requires 0 <= i <= |s|
    ensures NoTerminator(s[i..]) <==> LineStart(s) <= i
  {
    var n := LineStart(s);
    if i < n {
      assert s[i..][n - 1 - i] == s[n - 1];
    } else {
      assert forall p :: 0 <= p < |s[i..]| ==> s[i..][p] == s[n..][p + i - n];
    }
  }

  /** `w` occurs in `s` starting at index `p`. */
  predicate OccursAt(w: string, s: string, p: nat)
  {
    p + |w| <= |s| && s[p..p + |w|] == w
  }

  /** `w` occurs in `a + w + b` right after `a`. */
  lemma OccursAfter(a: string, w: string, b: string)
    ensures OccursAt(w, a + w + b, |a|)
  {
    var s := a + w + b;
    assert forall i :: 0 <= i < |w| ==> s[|a|..|a| + |w|][i] == w[i];
  }

  /** An occurrence inside a prefix of `s` is an occurrence in `s` that ends within the prefix. */
  lemma OccursInPrefix(w: string, s: string, k: nat, p: nat)
    requires k <= |s|
    ensures OccursAt(w, s[..k], p) <==> p + |w| <= k && OccursAt(w, s, p)
  {
    if p + |w| <= k {
      assert s[..k][p..p + |w|] == s[p..p + |w|];
    }
  }

  /** The leftmost occurrence of `w` in `s` at or after `from`. */
  function FindFrom(w: string, s: string, from: nat): (r: Option<nat>)
    decreases |s| - from
    ensures r.Some? ==> from <= r.value && OccursAt(w, s, r.value)
    ensures r.Some? ==> forall p :: from <= p < r.value ==> !OccursAt(w, s, p)
    ensures r.None? ==> forall p :: from <= p ==> !OccursAt(w, s, p)
  {
    if from + |w| > |s| then None
    else if s[from..from + |w|] == w then Some(from)
    else FindFrom(w, s, from + 1)
  }

  /** `s` ends with `w`. */
  predicate EndsWith(s: string, w: string)
  {
    |w| <= |s| && s[|s| - |w|..] == w
  }
}
