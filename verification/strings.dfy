/**
 The string facts the catalog relies on: the position of the first
 occurrence of a character (what getline looks for), the ordering of
 std::string::operator>, and std::string::find used as a substring test.
 */
module Strings {

  /** Index of the first occurrence of `c` in `s`. */
  function IndexOf(s: string, c: char): (k: nat)
    requires c in s
    ensures k < |s| && s[k] == c && c !in s[..k]
  {
    if s[0] == c then 0
    else
      var k' := IndexOf(s[1..], c);
      assert s[..k' + 1] == [s[0]] + s[1..][..k'];
      k' + 1
  }

  /** A string is the part before position `k`, the character at `k`, and the part after. */
  lemma SplitAround(s: string, k: nat)
    requires k < |s|
    ensures s == s[..k] + [s[k]] + s[k + 1..]
  {
  }

  /** A position holding `c` with no earlier `c` is the one IndexOf finds. */
  lemma IndexOfUnique(s: string, c: char, k: nat)
    requires k < |s| && s[k] == c && c !in s[..k]
    ensures IndexOf(s, c) == k
  {
  }

  /**
   Lexicographic "strictly before" on strings, comparing characters by
   their code; a proper prefix comes first. This is the order that
   std::string comparison uses (char_traits<char> compares as unsigned).
   */
  predicate Less(a: string, b: string)
    decreases |a|
  {
    if |a| == 0 then |b| > 0
    else if |b| == 0 then false
    else if a[0] != b[0] then a[0] < b[0]
    else Less(a[1..], b[1..])
  }

  /** "Not after": the negation of `Less(b, a)`. */
  predicate LessEq(a: string, b: string) {
    !Less(b, a)
  }

  lemma {:induction false} LessIrreflexive(a: string)
    ensures !Less(a, a)
    decreases |a|
  {
    if |a| > 0 {
      LessIrreflexive(a[1..]);
    }
  }

  lemma {:induction false} LessTransitive(a: string, b: string, c: string)
    requires Less(a, b) && Less(b, c)
    ensures Less(a, c)
    decreases |a|
  {
    if |a| > 0 && |b| > 0 && |c| > 0 && a[0] == b[0] && b[0] == c[0] {
      LessTransitive(a[1..], b[1..], c[1..]);
    }
  }

  /** Any two strings are ordered one way or the other, or are equal. */
  lemma {:induction false} LessTrichotomy(a: string, b: string)
    ensures Less(a, b) || a == b || Less(b, a)
    decreases |a|
  {
    if |a| > 0 && |b| > 0 && a[0] == b[0] {
      LessTrichotomy(a[1..], b[1..]);
      if a[1..] == b[1..] {
        assert a == [a[0]] + a[1..] && b == [b[0]] + b[1..];
      }
    }
  }

  lemma LessAsymmetric(a: string, b: string)
    requires Less(a, b)
    ensures LessEq(a, b)
  {
  }

  lemma LessEqTransitive(a: string, b: string, c: string)
    requires LessEq(a, b) && LessEq(b, c)
    ensures LessEq(a, c)
  {
    LessTrichotomy(a, b);
    LessTrichotomy(b, c);
    if Less(a, b) && Less(b, c) {
      LessTransitive(a, b, c);
      LessAsymmetric(a, c);
    } else if Less(a, b) {
      LessAsymmetric(a, c);
    } else if Less(b, c) {
      LessAsymmetric(a, c);
    } else {
      LessIrreflexive(a);
    }
  }

  /** `k` occurs in `t` starting at position `p`. */
  predicate OccursAt(k: string, t: string, p: int) {
    0 <= p && p + |k| <= |t| && t[p..p + |k|] == k
  }

  /** `t.find(k) != npos`: `k` occurs somewhere in `t`. */
  predicate Contains(t: string, k: string) {
    exists p | 0 <= p <= |t| - |k| :: OccursAt(k, t, p)
  }

  /** The empty keyword is found at position 0 of every string. */
  lemma EmptyIsContained(t: string)
    ensures Contains(t, "")
  {
    assert OccursAt("", t, 0);
  }
}
