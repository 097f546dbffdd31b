/**
 * The three C string routines the catalog relies on, over `seq<char>`:
 * `strstr` (director search), `strcasecmp` (genre filter) and `strcmp`
 * (title order when listing).
 */
module Strings {
  import opened Options

  /** `needle` occurs in `hay` starting at position `i`. */
  predicate OccursAt(hay: string, needle: string, i: nat) {
    i + |needle| <= |hay| && hay[i..i + |needle|] == needle
  }

  /** The first position at or after `from` where `needle` occurs in `hay`. */
  function FindFrom(hay: string, needle: string, from: nat): (r: Option<nat>)
    decreases |hay| + 1 - from
    ensures r.Some? ==> from <= r.value && OccursAt(hay, needle, r.value)
    ensures r.Some? ==> forall j :: from <= j < r.value ==> !OccursAt(hay, needle, j)
    ensures r.None? ==> forall j :: from <= j ==> !OccursAt(hay, needle, j)
  {
    if from + |needle| > |hay| then None
    else if hay[from..from + |needle|] == needle then Some(from)
    else FindFrom(hay, needle, from + 1)
  }

  /** `strstr(hay, needle)`: the position of the first occurrence, if any. */
  function StrStr(hay: string, needle: string): (r: Option<nat>)
    ensures r.Some? ==> OccursAt(hay, needle, r.value)
    ensures r.Some? ==> forall j :: 0 <= j < r.value ==> !OccursAt(hay, needle, j)
    ensures r.None? <==> forall j :: 0 <= j ==> !OccursAt(hay, needle, j)
  {
    FindFrom(hay, needle, 0)
  }

  /** `strstr(hay, needle) != NULL`: a contiguous, case-sensitive match. */
  function Contains(hay: string, needle: string): (b: bool)
    ensures b <==> exists i :: OccursAt(hay, needle, i)
  {
    StrStr(hay, needle).Some?
  }

  /** `tolower` in the C locale: only 'A'..'Z' change. */
  function Lower(c: char): (l: char)
    ensures 'A' <= c <= 'Z' ==> l as int == c as int + 32
    ensures !('A' <= c <= 'Z') ==> l == c
  {
    if 'A' <= c <= 'Z' then (c as int + 32) as char else c
  }

  /**
   * `strcasecmp(a, b) == 0`, walking both strings together as the C
   * routine does: the whole of each string must match, ignoring ASCII case.
   */
  predicate SameIgnoringCase(a: string, b: string)
  {
    if |a| == 0 || |b| == 0 then |a| == |b|
    else Lower(a[0]) == Lower(b[0]) && SameIgnoringCase(a[1..], b[1..])
  }

  /** The walk agrees with the position-by-position reading of the comparison. */
  lemma {:induction false} SameIgnoringCaseIff(a: string, b: string)
    ensures SameIgnoringCase(a, b) <==>
      |a| == |b| && forall i :: 0 <= i < |a| ==> Lower(a[i]) == Lower(b[i])
  {
    if |a| > 0 && |b| > 0 {
      SameIgnoringCaseIff(a[1..], b[1..]);
      if |a| == |b| && forall i :: 0 <= i < |a| ==> Lower(a[i]) == Lower(b[i]) {
        forall i | 0 <= i < |a| - 1
          ensures Lower(a[1..][i]) == Lower(b[1..][i])
        {
          assert Lower(a[i + 1]) == Lower(b[i + 1]);
        }
      }
      if SameIgnoringCase(a, b) {
        forall i | 0 <= i < |a|
          ensures Lower(a[i]) == Lower(b[i])
        {
          if i > 0 {
            assert a[i] == a[1..][i - 1] && b[i] == b[1..][i - 1];
          }
        }
      }
    }
  }

  /** `strcmp(a, b) < 0`: byte-wise lexicographic order. */
  predicate Below(a: string, b: string)
  {
    if |a| == 0 then |b| > 0
    else if |b| == 0 then false
    else if a[0] != b[0] then a[0] < b[0]
    else Below(a[1..], b[1..])
  }

  /**
   * The textbook lexicographic order: `a` is a proper prefix of `b`, or at
   * the first position where they differ `a` holds the smaller character.
   */
  predicate LexBelow(a: string, b: string) {
    (|a| < |b| && b[..|a|] == a) ||
    (exists k :: 0 <= k < |a| && k < |b| && a[..k] == b[..k] && a[k] < b[k])
  }

  /** The walk of `Below` agrees with the textbook definition. */
  lemma {:induction false} BelowIff(a: string, b: string)
    ensures Below(a, b) <==> LexBelow(a, b)
  {
    if |a| > 0 && |b| > 0 {
      if a[0] != b[0] {
        LexBelowHeadsDiffer(a, b);
      } else {
        BelowIff(a[1..], b[1..]);
        if LexBelow(a[1..], b[1..]) {
          LexBelowSameHead(a, b);
        }
        if LexBelow(a, b) {
          LexBelowDropHead(a, b);
        }
      }
    } else if |a| == 0 {
      assert b[..0] == a;
    }
  }

  lemma LexBelowHeadsDiffer(a: string, b: string)
    requires |a| > 0 && |b| > 0 && a[0] != b[0]
    ensures LexBelow(a, b) <==> a[0] < b[0]
  {
    if a[0] < b[0] {
      assert a[..0] == b[..0];
    }
    forall k | 0 < k < |a| && k < |b|
      ensures a[..k] != b[..k]
    {
      assert a[..k][0] == a[0];
    }
  }

  /** With equal heads, the order of the tails carries over to the whole. */
  lemma LexBelowSameHead(a: string, b: string)
    requires |a| > 0 && |b| > 0 && a[0] == b[0]
    requires LexBelow(a[1..], b[1..])
    ensures LexBelow(a, b)
  {
    if exists k :: 0 <= k < |a| - 1 && k < |b| - 1 && a[1..][..k] == b[1..][..k] && a[1..][k] < b[1..][k] {
      var k :| 0 <= k < |a| - 1 && k < |b| - 1 && a[1..][..k] == b[1..][..k] && a[1..][k] < b[1..][k];
      assert a[..k + 1] == [a[0]] + a[1..][..k];
      assert b[..k + 1] == [b[0]] + b[1..][..k];
    } else {
      assert b[..|a|] == [b[0]] + b[1..][..|a| - 1];
    }
  }

  /** With equal heads, the order of the whole carries over to the tails. */
  lemma LexBelowDropHead(a: string, b: string)
    requires |a| > 0 && |b| > 0 && a[0] == b[0]
    requires LexBelow(a, b)
    ensures LexBelow(a[1..], b[1..])
  {
    if exists k :: 0 <= k < |a| && k < |b| && a[..k] == b[..k] && a[k] < b[k] {
      var k :| 0 <= k < |a| && k < |b| && a[..k] == b[..k] && a[k] < b[k];
      assert k > 0;
      assert a[1..][..k - 1] == a[..k][1..];
      assert b[1..][..k - 1] == b[..k][1..];
      assert a[1..][k - 1] < b[1..][k - 1];
    } else {
      assert b[1..][..|a| - 1] == b[..|a|][1..];
    }
  }

  lemma {:induction false} BelowIrreflexive(a: string)
    ensures !Below(a, a)
  {
    if |a| > 0 {
      BelowIrreflexive(a[1..]);
    }
  }

  /** Two different strings are ordered one way or the other. */
  lemma {:induction false} BelowTotal(a: string, b: string)
    requires a != b
    ensures Below(a, b) || Below(b, a)
  {
    if |a| > 0 && |b| > 0 && a[0] == b[0] {
      assert a == [a[0]] + a[1..] && b == [b[0]] + b[1..];
      BelowTotal(a[1..], b[1..]);
    }
  }

  lemma {:induction false} BelowAsymmetric(a: string, b: string)
    ensures Below(a, b) ==> !Below(b, a)
  {
    if |a| > 0 && |b| > 0 && a[0] == b[0] {
      BelowAsymmetric(a[1..], b[1..]);
    }
  }

  lemma {:induction false} BelowTransitive(a: string, b: string, c: string)
    requires Below(a, b) && Below(b, c)
    ensures Below(a, c)
  {
    if |a| > 0 && a[0] == b[0] && b[0] == c[0] {
      BelowTransitive(a[1..], b[1..], c[1..]);
    }
  }
}
