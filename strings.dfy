/** Text helpers: Python's substring test `sub in s`. */
module Strings {

  /** `sub in s` for Python strings: `sub` occurs in `s` at some offset. */
  predicate Contains(s: string, sub: string)
  {
    exists i | 0 <= i <= |s| :: sub <= s[i..]
  }

  /** A witness offset is enough to show that `sub` occurs in `s`. */
  lemma ContainsAt(s: string, sub: string, i: nat)
    requires i + |sub| <= |s| && s[i..i + |sub|] == sub
    ensures Contains(s, sub)
  {
    assert sub <= s[i..];
  }

  /** A string shorter than `sub` cannot contain it. */
  lemma ShortNotContains(s: string, sub: string)
    requires |s| < |sub|
    ensures !Contains(s, sub)
  {
  }

  /** `sub` sits in `s` at offset `i`. */
  ghost predicate OccursAt(s: string, sub: string, i: nat)
  {
    i + |sub| <= |s| && s[i..i + |sub|] == sub
  }

  /** The test agrees with the usual slice reading: some window of `s` as long as `sub` equals `sub`. */
  lemma ContainsSlice(s: string, sub: string)
    ensures Contains(s, sub) <==> exists i: nat :: OccursAt(s, sub, i)
  {
    if Contains(s, sub) {
      var i :| 0 <= i <= |s| && sub <= s[i..];
      assert s[i..i + |sub|] == s[i..][..|sub|];
      assert OccursAt(s, sub, i);
    }
    if exists i: nat :: OccursAt(s, sub, i) {
      var i: nat :| OccursAt(s, sub, i);
      ContainsAt(s, sub, i);
    }
  }
}
