/**
  String operations that the ingestion code takes from Python's `str`:
  one-character `replace`, the substring test `needle in haystack`, and
  the lexicographic comparison `a < b` on code points.
*/
module Strings {

  /** `s.replace(target, replacement)` for one-character arguments: every occurrence of
      `target` becomes `replacement`, every other character is kept, the length is kept. */
  function ReplaceAll(s: string, target: char, replacement: char): (r: string)
    ensures |r| == |s|
    ensures forall k :: 0 <= k < |s| ==> r[k] == (if s[k] == target then replacement else s[k])
  {
    if s == [] then [] else [if s[0] == target then replacement else s[0]] + ReplaceAll(s[1..], target, replacement)
  }

  /** `needle` sits in `haystack` starting at position `i`. */
  predicate OccursAt(haystack: string, needle: string, i: nat)
  {
    i + |needle| <= |haystack| && haystack[i..i + |needle|] == needle
  }

  /** A left-to-right scan over the start positions that decides Python's
      `needle in haystack` on strings. */
  function Contains(haystack: string, needle: string): bool
    decreases |haystack|
  {
    if needle <= haystack then true
    else if |haystack| <= |needle| then false
    else Contains(haystack[1..], needle)
  }

  /** The scan finds `needle` exactly when it occurs at some position. */
  lemma {:induction false} ContainsIffOccurs(haystack: string, needle: string)
    ensures Contains(haystack, needle) <==> exists i: nat :: OccursAt(haystack, needle, i)
    decreases |haystack|
  {
    if needle <= haystack {
      assert haystack[0..|needle|] == needle;
      assert OccursAt(haystack, needle, 0);
    } else if |haystack| <= |needle| {
      forall i: nat | OccursAt(haystack, needle, i)
        ensures false
      {
      }
    } else {
      var tail := haystack[1..];
      ContainsIffOccurs(tail, needle);
      if Contains(tail, needle) {
        var i: nat :| OccursAt(tail, needle, i);
        assert haystack[i + 1..i + 1 + |needle|] == tail[i..i + |needle|];
        assert OccursAt(haystack, needle, i + 1);
      } else {
        forall i: nat | OccursAt(haystack, needle, i)
          ensures false
        {
          if i > 0 {
            assert tail[i - 1..i - 1 + |needle|] == haystack[i..i + |needle|];
            assert OccursAt(tail, needle, i - 1);
          }
        }
      }
    }
  }

  /** Python's `a < b` on strings: code point by code point, and a proper
      prefix is smaller than the longer string. */
  predicate LexLess(a: string, b: string)
  {
    if a == [] then b != []
    else if b == [] then false
    else if a[0] != b[0] then a[0] < b[0]
    else LexLess(a[1..], b[1..])
  }

  /** A common prefix does not change the order of two strings. */
  lemma {:induction false} LexLessCommonPrefix(p: string, x: string, y: string)
    ensures LexLess(p + x, p + y) <==> LexLess(x, y)
  {
    if p != [] {
      assert p + x != [] && p + y != [];
      assert (p + x)[0] == (p + y)[0];
      assert (p + x)[1..] == p[1..] + x;
      assert (p + y)[1..] == p[1..] + y;
      LexLessCommonPrefix(p[1..], x, y);
    } else {
      assert p + x == x && p + y == y;
    }
  }
}
