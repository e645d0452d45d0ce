/**
 Python's `needle in haystack` on `str`: case-sensitive containment of a
 contiguous run of characters. The empty string is contained in every string.
 */
module Substring {

  /** `needle in haystack`, computed by trying every start position in turn. */
  function Contains(needle: string, haystack: string): (r: bool)
    ensures r ==> |needle| <= |haystack|
    decreases |haystack|
  {
    needle <= haystack || (|haystack| > 0 && Contains(needle, haystack[1..]))
  }

  /** `needle` occupies positions `i .. i + |needle|` of `haystack`. */
  ghost predicate OccursAt(needle: string, haystack: string, i: int)
  {
    0 <= i && i + |needle| <= |haystack| && haystack[i..i + |needle|] == needle
  }

  /** The reference meaning of containment: some start position works. */
  ghost predicate Occurs(needle: string, haystack: string)
  {
    exists i :: OccursAt(needle, haystack, i)
  }

  lemma {:induction false} ContainsIffOccurs(needle: string, haystack: string)
    ensures Contains(needle, haystack) <==> Occurs(needle, haystack)
  {
    if Contains(needle, haystack) {
      ContainsGivesPosition(needle, haystack);
    }
    if Occurs(needle, haystack) {
      var i :| OccursAt(needle, haystack, i);
      PositionGivesContains(needle, haystack, i);
    }
  }

  lemma {:induction false} ContainsGivesPosition(needle: string, haystack: string)
    requires Contains(needle, haystack)
    ensures Occurs(needle, haystack)
    decreases |haystack|
  {
    if needle <= haystack {
      assert haystack[0..|needle|] == needle;
      assert OccursAt(needle, haystack, 0);
    } else {
      var rest := haystack[1..];
      ContainsGivesPosition(needle, rest);
      var i :| OccursAt(needle, rest, i);
      assert haystack[i + 1..i + 1 + |needle|] == rest[i..i + |needle|];
      assert OccursAt(needle, haystack, i + 1);
    }
  }

  lemma {:induction false} PositionGivesContains(needle: string, haystack: string, i: int)
    requires OccursAt(needle, haystack, i)
    ensures Contains(needle, haystack)
    decreases i
  {
    if i == 0 {
      assert needle == haystack[..|needle|];
    } else {
      var rest := haystack[1..];
      assert rest[i - 1..i - 1 + |needle|] == haystack[i..i + |needle|];
      PositionGivesContains(needle, rest, i - 1);
    }
  }
}
