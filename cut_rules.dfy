/** The two local-part rewrite rules of the registry, written out as string functions.

    PLUS_ONLY is the pattern `\+.*$` replaced once: the leftmost `+` from which `.*` reaches
    the end of the string is removed together with everything after it. PLUS_AND_DOT is
    `\.|\+.*$` with the global flag: scanning left to right, every `.` is removed, and the same
    `+`-tail is removed when it is reached. In both, `.` matches no line terminator, so a `+`
    followed later by a line terminator is not a match and stays. */
module CutRules {
  import opened Text

  datatype CutRule = PlusOnly | PlusAndDot

  /** The pattern `\+.*$` matches at index `i` of `s`. */
  predicate CutsAt(s: string, i: int)
  {
    0 <= i < |s| && s[i] == '+' && NoTerminator(s[i + 1..])
  }

  /** `\+.*$` matches nowhere in `s`. */
  predicate NoCut(s: string)
  {
    forall i :: 0 <= i < |s| ==> !CutsAt(s, i)
  }

  lemma CutsAtTail(s: string, i: int)
    requires |s| > 0 && 0 <= i
    ensures CutsAt(s[1..], i) <==> CutsAt(s, i + 1)
  {
    if 0 <= i < |s| - 1 {
      assert s[1..][i + 1..] == s[i + 2..];
    }
  }

  lemma CutsAtShift(s: string)
    requires |s| > 0
    ensures forall i :: 1 <= i ==> (CutsAt(s, i) <==> CutsAt(s[1..], i - 1))
  {
    forall i | 1 <= i ensures CutsAt(s, i) <==> CutsAt(s[1..], i - 1) {
      CutsAtTail(s, i - 1);
    }
  }

  /** `s.replace(PLUS_ONLY, '')`: the result is the prefix of `s` before the leftmost match, or
      all of `s` when there is no match. */
  function CutPlus(s: string): (r: string)
    ensures |r| <= |s| && r == s[..|r|]
    ensures forall i :: 0 <= i < |r| ==> !CutsAt(s, i)
    ensures |r| < |s| ==> CutsAt(s, |r|)
  {
    if s == [] then []
    else if CutsAt(s, 0) then []
    else
      CutsAtShift(s);
      [s[0]] + CutPlus(s[1..])
  }

  /** `s.replace(PLUS_AND_DOT, '')`. */
  function CutPlusDot(s: string): (r: string)
    ensures |r| <= |s|
    ensures '.' !in r
    ensures forall c :: c in r ==> c in s
  {
    if s == [] then []
    else if s[0] == '.' then CutPlusDot(s[1..])
    else if CutsAt(s, 0) then []
    else [s[0]] + CutPlusDot(s[1..])
  }

  /** `s` with every `.` removed. */
  function RemoveDots(s: string): (r: string)
    ensures '.' !in r
  {
    if s == [] then []
    else if s[0] == '.' then RemoveDots(s[1..])
    else [s[0]] + RemoveDots(s[1..])
  }

  /** The global rule is the one-shot rule followed by deleting the dots: a `.` is never a `+`,
      so deleting dots does not move the leftmost match, and nothing survives after it. */
  lemma {:induction false} CutPlusDotIsCutThenRemoveDots(s: string)
    ensures CutPlusDot(s) == RemoveDots(CutPlus(s))
  {
    if s != [] && !CutsAt(s, 0) {
      CutPlusDotIsCutThenRemoveDots(s[1..]);
      assert ([s[0]] + CutPlus(s[1..]))[1..] == CutPlus(s[1..]);
    }
  }

  /** `username.replace(provider.cut, '')`: what is left holds no match of the rule, is made of
      the input's characters, and holds no dot under the global rule; the plus-only rule keeps a
      prefix. */
  function Apply(rule: CutRule, s: string): (r: string)
    ensures NoCut(r) && |r| <= |s|
    ensures forall c :: c in r ==> c in s
    ensures rule == PlusOnly ==> r == s[..|r|]
    ensures rule == PlusAndDot ==> '.' !in r
  {
    match rule
    case PlusOnly =>
      CutPlusNoCut(s);
      assert forall c :: c in CutPlus(s) ==> c in s;
      CutPlus(s)
    case PlusAndDot =>
      CutPlusDotNoCut(s);
      CutPlusDot(s)
  }

  /** A line terminator in `s` precedes any match, so it survives the global rule. */
  lemma {:induction false} TerminatorSurvivesCutPlusDot(s: string)
    requires !NoTerminator(s)
    ensures !NoTerminator(CutPlusDot(s))
  {
    if IsLineTerminator(s[0]) {
      assert CutPlusDot(s)[0] == s[0];
    } else {
      assert !NoTerminator(s[1..]) by {
        var i :| 0 <= i < |s| && IsLineTerminator(s[i]);
        assert s[1..][i - 1] == s[i];
      }
      TerminatorSurvivesCutPlusDot(s[1..]);
      if s[0] != '.' {
        var i :| 0 <= i < |CutPlusDot(s[1..])| && IsLineTerminator(CutPlusDot(s[1..])[i]);
        assert CutPlusDot(s)[i + 1] == CutPlusDot(s[1..])[i];
      }
    }
  }

  /** A match inside a prefix that is cut off at a match of `s` (or is all of `s`) is a match
      of `s`: the characters after the prefix hold no line terminator. */
  lemma PrefixCutLifts(s: string, n: int, i: int)
    requires 0 <= i < n <= |s|
    requires n < |s| ==> CutsAt(s, n)
    ensures CutsAt(s[..n], i) ==> CutsAt(s, i)
  {
    if CutsAt(s[..n], i) {
      if n == |s| {
        assert s[..n] == s;
      } else {
        assert s[i + 1..] == s[..n][i + 1..] + ([s[n]] + s[n + 1..]);
        NoTerminatorAppend([s[n]], s[n + 1..]);
        NoTerminatorAppend(s[..n][i + 1..], [s[n]] + s[n + 1..]);
      }
    }
  }

  /** After the one-shot rule, the pattern matches nowhere. */
  lemma CutPlusNoCut(s: string)
    ensures NoCut(CutPlus(s))
  {
    var n := |CutPlus(s)|;
    forall i | 0 <= i < n ensures !CutsAt(CutPlus(s), i) {
      PrefixCutLifts(s, n, i);
    }
  }

  /** After the global rule, the `+`-pattern matches nowhere. */
  lemma {:induction false} CutPlusDotNoCut(s: string)
    ensures NoCut(CutPlusDot(s))
  {
    if s != [] && !CutsAt(s, 0) {
      CutPlusDotNoCut(s[1..]);
      var t := CutPlusDot(s[1..]);
      if s[0] != '.' {
        var r := [s[0]] + t;
        assert r[1..] == t;
        forall i | 0 <= i < |r| ensures !CutsAt(r, i) {
          if i == 0 {
            if s[0] == '+' {
              TerminatorSurvivesCutPlusDot(s[1..]);
            }
          } else {
            CutsAtTail(r, i - 1);
          }
        }
      }
    }
  }

  /** A string the rule has nothing to remove from is left as it is. */
  lemma {:induction false} FixedWhenNothingToCut(rule: CutRule, t: string)
    requires NoCut(t)
    requires rule == PlusAndDot ==> '.' !in t
    ensures Apply(rule, t) == t
  {
    if t != [] {
      assert !CutsAt(t, 0);
      forall i | 0 <= i < |t| - 1 ensures !CutsAt(t[1..], i) {
        CutsAtTail(t, i);
      }
      FixedWhenNothingToCut(rule, t[1..]);
      assert [t[0]] + t[1..] == t;
    }
  }

  /** Each rule removes only characters of its input, removes every match, and applying it a
      second time changes nothing. */
  lemma ApplyIdempotent(rule: CutRule, s: string)
    ensures NoCut(Apply(rule, s))
    ensures forall c :: c in Apply(rule, s) ==> c in s
    ensures Apply(rule, Apply(rule, s)) == Apply(rule, s)
  {
    FixedWhenNothingToCut(rule, Apply(rule, s));
  }

  /** On a single line, PLUS_ONLY keeps exactly the prefix before the first `+`, dots included,
      and the whole string when it has no `+`. */
  lemma PlusOnlyOnOneLine(s: string, i: int)
    requires NoTerminator(s)
    requires 0 <= i <= |s| && '+' !in s[..i]
    requires i < |s| ==> s[i] == '+'
    ensures CutPlus(s) == s[..i]
    ensures '+' !in CutPlus(s)
  {
    if i < |s| {
      assert s == s[..i + 1] + s[i + 1..];
      NoTerminatorAppend(s[..i + 1], s[i + 1..]);
      assert CutsAt(s, i);
    }
    assert forall p :: 0 <= p < i ==> s[p] == s[..i][p];
  }

  /** On a single line, neither `+` nor `.` is left by PLUS_AND_DOT. */
  lemma PlusAndDotOnOneLine(s: string)
    requires NoTerminator(s)
    ensures '+' !in CutPlusDot(s) && '.' !in CutPlusDot(s)
  {
    var r := CutPlusDot(s);
    CutPlusDotNoCut(s);
    NoTerminatorSubset(s, r);
    if '+' in r {
      var i :| 0 <= i < |r| && r[i] == '+';
      NoTerminatorAppend(r[..i + 1], r[i + 1..]);
      assert r == r[..i + 1] + r[i + 1..];
      assert CutsAt(r, i);
    }
  }
}
