/** The java.lang.String operations the core relies on, over seq<char>. */
module Strings {

  /** String.startsWith. */
  predicate StartsWith(s: string, prefix: string)
  {
    prefix <= s
  }

  /** ASCII letter folding; see the README for the Unicode cases left out. */
  function LowerAscii(c: char): char
  {
    if 'A' <= c <= 'Z' then (c as int + 32) as char else c
  }

  /** String.equalsIgnoreCase, with ASCII case folding. */
  predicate EqualsIgnoreCase(a: string, b: string)
  {
    |a| == |b| && forall k | 0 <= k < |a| :: LowerAscii(a[k]) == LowerAscii(b[k])
  }

  /** `target` occurs in `s` starting at position `k`. */
  predicate OccursAt(s: string, target: string, k: nat)
  {
    k + |target| <= |s| && s[k..k + |target|] == target
  }

  predicate Occurs(s: string, target: string)
  {
    exists k: nat | k <= |s| :: OccursAt(s, target, k)
  }

  /** String.replace(target, replacement) for a non-empty target: every
      occurrence, scanning left to right and resuming after each match, is
      replaced; the replacement text itself is not scanned again. */
  function Replace(s: string, target: string, replacement: string): string
    requires |target| > 0
    decreases |s|
  {
    if |s| < |target| then s
    else if s[..|target|] == target then replacement + Replace(s[|target|..], target, replacement)
    else [s[0]] + Replace(s[1..], target, replacement)
  }

  /** Collectors.joining(separator). */
  function Join(parts: seq<string>, separator: string): string
    decreases |parts|
  {
    if |parts| == 0 then ""
    else if |parts| == 1 then parts[0]
    else parts[0] + separator + Join(parts[1..], separator)
  }

  /** Without an occurrence of the target, replacing changes nothing. */
  lemma {:induction false} ReplaceAbsent(s: string, target: string, replacement: string)
    requires |target| > 0
    requires !Occurs(s, target)
    ensures Replace(s, target, replacement) == s
  {
    if |s| >= |target| {
      assert !OccursAt(s, target, 0);
      assert !Occurs(s[1..], target) by {
        if Occurs(s[1..], target) {
          var k: nat :| k <= |s[1..]| && OccursAt(s[1..], target, k);
          assert s[1..][k..k + |target|] == s[k + 1..k + 1 + |target|];
          assert OccursAt(s, target, k + 1);
        }
      }
      ReplaceAbsent(s[1..], target, replacement);
    }
  }

  /** A prefix free of the target's first character is copied unchanged. */
  lemma {:induction false} ReplaceSkips(a: string, s: string, target: string, replacement: string)
    requires |target| > 0
    requires target[0] !in a
    ensures Replace(a + s, target, replacement) == a + Replace(s, target, replacement)
  {
    if a == [] {
      assert a + s == s;
    } else if |a + s| < |target| {
      assert Replace(s, target, replacement) == s;
    } else {
      assert (a + s)[..|target|][0] == a[0];
      assert (a + s)[1..] == a[1..] + s;
      ReplaceSkips(a[1..], s, target, replacement);
    }
  }

  /** An occurrence at the front is replaced and scanning resumes after it. */
  lemma ReplaceHit(s: string, target: string, replacement: string)
    requires |target| > 0
    ensures Replace(target + s, target, replacement) == replacement + Replace(s, target, replacement)
  {
    assert (target + s)[..|target|] == target;
    assert (target + s)[|target|..] == s;
  }

  /** A character that cannot start an occurrence is copied unchanged. */
  lemma ReplaceMiss(c: char, s: string, target: string, replacement: string)
    requires |target| > 0
    requires !StartsWith([c] + s, target)
    ensures Replace([c] + s, target, replacement) == [c] + Replace(s, target, replacement)
  {
    assert ([c] + s)[1..] == s;
    if |[c] + s| >= |target| {
      assert ([c] + s)[..|target|] <= [c] + s;
    } else {
      assert Replace(s, target, replacement) == s;
    }
  }
}
