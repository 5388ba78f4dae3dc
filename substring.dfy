/**
 * Plain, case-sensitive substring containment, as performed by the
 * `includes` method of a string: `s.includes(sub)` holds when `sub` occurs
 * as a contiguous run of characters anywhere in `s`, the empty string
 * occurring in every string.
 */
module Substring {

  /** The executable test: `sub` is a prefix of `s` or occurs in its tail. */
  predicate Contains(s: string, sub: string)
    decreases |s|
  {
    if |sub| > |s| then false
    else s[..|sub|] == sub || Contains(s[1..], sub)
  }

  /** Reference definition: `sub` occurs in `s` starting at position `i`. */
  ghost predicate OccursAt(s: string, sub: string, i: int)
  {
    0 <= i && i + |sub| <= |s| && s[i..i + |sub|] == sub
  }

  /** `Contains` holds exactly when `sub` occurs at some position of `s`. */
  lemma {:induction false} ContainsIffOccurs(s: string, sub: string)
    ensures Contains(s, sub) <==> exists i :: OccursAt(s, sub, i)
    decreases |s|
  {
    if |sub| > |s| {
      assert forall i :: !OccursAt(s, sub, i);
    } else if s[..|sub|] == sub {
      assert OccursAt(s, sub, 0);
    } else {
      var t := s[1..];
      ContainsIffOccurs(t, sub);
      if exists i :: OccursAt(s, sub, i) {
        var i :| OccursAt(s, sub, i);
        assert i != 0;
        assert t[i - 1..i - 1 + |sub|] == s[i..i + |sub|];
        assert OccursAt(t, sub, i - 1);
      }
      if exists j :: OccursAt(t, sub, j) {
        var j :| OccursAt(t, sub, j);
        assert s[j + 1..j + 1 + |sub|] == t[j..j + |sub|];
        assert OccursAt(s, sub, j + 1);
      }
    }
  }

  /** Containment is positional, not anchored: `sub` is found wherever it sits. */
  lemma ContainedAnywhere(before: string, sub: string, after: string)
    ensures Contains(before + sub + after, sub)
  {
    var s := before + sub + after;
    assert s[|before|..|before| + |sub|] == sub;
    assert OccursAt(s, sub, |before|);
    ContainsIffOccurs(s, sub);
  }

  /**
   * A string cannot contain `sub` if one of the characters of `sub` is
   * absent from it. Because characters are compared exactly, this is how
   * case sensitivity shows: "FAVICON" has no 'f', so it does not contain
   * "favicon".
   */
  lemma {:induction false} MissingCharNotContained(s: string, sub: string, k: nat)
    requires k < |sub| && sub[k] !in s
    ensures !Contains(s, sub)
    decreases |s|
  {
    if |sub| <= |s| {
      assert s[..|sub|][k] == s[k];
      MissingCharNotContained(s[1..], sub, k);
    }
  }

  /** Containment is case-sensitive: an upper-case spelling is not a match. */
  lemma CaseSensitive()
    ensures Contains("GET /favicon.ico", "favicon")
    ensures !Contains("GET /FAVICON.ICO", "favicon")
  {
    ContainedAnywhere("GET /", "favicon", ".ico");
    assert "GET /" + "favicon" + ".ico" == "GET /favicon.ico";
    MissingCharNotContained("GET /FAVICON.ICO", "favicon", 0);
  }
}
