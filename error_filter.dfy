/**
 * The critical-error filter of the end-to-end suite's test helpers.
 *
 * Console and page errors collected during a scenario are passed through a
 * denylist of known-benign substrings; a message containing any of them is
 * noise, every other message is critical. The helper uses five substrings;
 * two scenarios inline the same filter with a shorter denylist, and the
 * model expresses all three as one filter parameterised by the denylist.
 */
module ErrorFilter {
  import opened Substring
  import opened Subsequence

  /** The denylist of `TestHelpers.filterCriticalErrors`. */
  const HelperDenylist: seq<string> :=
    ["favicon", "404", "net::ERR_FAILED", "Non-Error promise rejection", "ChunkLoadError"]

  /** The denylist inlined by the home page's "load without errors" scenario. */
  const HomeDenylist: seq<string> := ["favicon", "404", "net::ERR_FAILED"]

  /** The denylist inlined by the user-experience "JavaScript errors" scenario. */
  const ExperienceDenylist: seq<string> :=
    ["favicon", "404", "net::ERR_FAILED", "Non-Error promise rejection"]

  /** A message is benign when it contains at least one denylisted substring. */
  predicate IsBenign(msg: string, denylist: seq<string>)
  {
    exists d :: d in denylist && Contains(msg, d)
  }

  /** `errors.filter(e => !e.includes(d1) && ... && !e.includes(dn))`. */
  function Filter(errors: seq<string>, denylist: seq<string>): (r: seq<string>)
    ensures |r| <= |errors|
    ensures forall m :: m in r ==> m in errors && !IsBenign(m, denylist)
  {
    if errors == [] then []
    else if IsBenign(errors[0], denylist) then Filter(errors[1..], denylist)
    else [errors[0]] + Filter(errors[1..], denylist)
  }

  /**
   * `TestHelpers.filterCriticalErrors(errors)`: a message is kept exactly
   * when it passes all five negated `includes` tests.
   */
  function FilterCriticalErrors(errors: seq<string>): (r: seq<string>)
    ensures |r| <= |errors|
    ensures forall m :: m in r <==>
      && m in errors
      && !Contains(m, "favicon")
      && !Contains(m, "404")
      && !Contains(m, "net::ERR_FAILED")
      && !Contains(m, "Non-Error promise rejection")
      && !Contains(m, "ChunkLoadError")
  {
    FilterRetainsCritical(errors, HelperDenylist);
    Filter(errors, HelperDenylist)
  }

  /** Number of occurrences of `m` in `s`. */
  function Count(s: seq<string>, m: string): nat
  {
    multiset(s)[m]
  }

  // ---------------------------------------------------------------------
  // The predicate of the helper, written as the source writes it.

  /** Being critical under the helper's denylist is exactly the conjunction of five negated `includes` tests. */
  lemma CriticalIffNoneOfFive(msg: string)
    ensures !IsBenign(msg, HelperDenylist) <==>
      && !Contains(msg, "favicon")
      && !Contains(msg, "404")
      && !Contains(msg, "net::ERR_FAILED")
      && !Contains(msg, "Non-Error promise rejection")
      && !Contains(msg, "ChunkLoadError")
  {
    if !Contains(msg, "favicon") && !Contains(msg, "404") && !Contains(msg, "net::ERR_FAILED")
       && !Contains(msg, "Non-Error promise rejection") && !Contains(msg, "ChunkLoadError")
    {
      forall d | d in HelperDenylist
        ensures !Contains(msg, d)
      {
      }
    } else {
      assert forall i :: 0 <= i < |HelperDenylist| ==> HelperDenylist[i] in HelperDenylist;
    }
  }

  /** A message with a denylisted substring anywhere in it is dropped. */
  lemma {:induction false} DeniedAnywhereIsDropped(errors: seq<string>, before: string, d: string, after: string)
    requires d in HelperDenylist
    ensures before + d + after !in FilterCriticalErrors(errors)
  {
    ContainedAnywhere(before, d, after);
    assert IsBenign(before + d + after, HelperDenylist);
  }

  // ---------------------------------------------------------------------
  // Subsequence, exclusion and retention.

  /** The result is a subsequence of the input: order is preserved. */
  lemma {:induction false} FilterIsSubsequence(errors: seq<string>, denylist: seq<string>)
    ensures IsSubsequence(Filter(errors, denylist), errors)
    decreases |errors|
  {
    if errors == [] {
      EmptyIsSubsequence(errors);
    } else {
      var tail := errors[1..];
      assert errors == [errors[0]] + tail;
      FilterIsSubsequence(tail, denylist);
      if IsBenign(errors[0], denylist) {
        SkipHead(errors[0], Filter(tail, denylist), tail);
      } else {
        KeepHead(errors[0], Filter(tail, denylist), tail);
      }
    }
  }

  /**
   * Exact multiplicities: a benign message never survives, and a critical
   * message survives as many times as it occurs in the input.
   */
  lemma {:induction false} FilterCount(errors: seq<string>, denylist: seq<string>, m: string)
    ensures Count(Filter(errors, denylist), m) == if IsBenign(m, denylist) then 0 else Count(errors, m)
    decreases |errors|
  {
    if errors != [] {
      var tail := errors[1..];
      assert errors == [errors[0]] + tail;
      FilterCount(tail, denylist, m);
      if !IsBenign(errors[0], denylist) {
        assert multiset([errors[0]] + Filter(tail, denylist)) == multiset([errors[0]]) + multiset(Filter(tail, denylist));
      }
    }
  }

  /** Every critical input message is in the result. */
  lemma FilterRetainsCritical(errors: seq<string>, denylist: seq<string>)
    ensures forall m :: m in errors && !IsBenign(m, denylist) ==> m in Filter(errors, denylist)
  {
    forall m | m in errors && !IsBenign(m, denylist)
      ensures m in Filter(errors, denylist)
    {
      FilterCount(errors, denylist, m);
    }
  }

  // ---------------------------------------------------------------------
  // Length and emptiness.

  /** Nothing is dropped exactly when no message is benign, and then the result is the input. */
  lemma {:induction false} FilterKeepsAllIff(errors: seq<string>, denylist: seq<string>)
    ensures |Filter(errors, denylist)| == |errors| <==> forall m :: m in errors ==> !IsBenign(m, denylist)
    ensures Filter(errors, denylist) == errors <==> forall m :: m in errors ==> !IsBenign(m, denylist)
    decreases |errors|
  {
    if errors != [] {
      var tail := errors[1..];
      assert errors == [errors[0]] + tail;
      FilterKeepsAllIff(tail, denylist);
      assert forall m :: m in errors <==> m == errors[0] || m in tail;
    }
  }

  /** The result is empty exactly when every message is benign: what a scenario expecting no critical error asserts about its input. */
  lemma {:induction false} FilterEmptyIff(errors: seq<string>, denylist: seq<string>)
    ensures Filter(errors, denylist) == [] <==> forall m :: m in errors ==> IsBenign(m, denylist)
    decreases |errors|
  {
    if errors != [] {
      var tail := errors[1..];
      assert errors == [errors[0]] + tail;
      FilterEmptyIff(tail, denylist);
      assert forall m :: m in errors <==> m == errors[0] || m in tail;
    }
  }

  // ---------------------------------------------------------------------
  // Algebra of the filter.

  /** Filtering twice is filtering once. */
  lemma {:induction false} FilterIdempotent(errors: seq<string>, denylist: seq<string>)
    ensures Filter(Filter(errors, denylist), denylist) == Filter(errors, denylist)
    decreases |errors|
  {
    if errors != [] {
      var tail := errors[1..];
      FilterIdempotent(tail, denylist);
      if !IsBenign(errors[0], denylist) {
        var r := [errors[0]] + Filter(tail, denylist);
        assert r[1..] == Filter(tail, denylist);
      }
    }
  }

  /** The filter is the identity on the empty list and distributes over concatenation. */
  lemma {:induction false} FilterAppend(a: seq<string>, b: seq<string>, denylist: seq<string>)
    ensures Filter([], denylist) == []
    ensures Filter(a + b, denylist) == Filter(a, denylist) + Filter(b, denylist)
    decreases |a|
  {
    if a == [] {
      assert a + b == b;
    } else {
      assert (a + b)[0] == a[0];
      assert (a + b)[1..] == a[1..] + b;
      FilterAppend(a[1..], b, denylist);
    }
  }

  /** A message is benign under `a + b` when it is benign under `a` or under `b`. */
  lemma BenignConcat(msg: string, a: seq<string>, b: seq<string>)
    ensures IsBenign(msg, a + b) <==> IsBenign(msg, a) || IsBenign(msg, b)
  {
    if IsBenign(msg, a + b) {
      var d :| d in a + b && Contains(msg, d);
      assert d in a || d in b;
    }
    if IsBenign(msg, a) {
      var d :| d in a && Contains(msg, d);
      assert d in a + b;
    }
    if IsBenign(msg, b) {
      var d :| d in b && Contains(msg, d);
      assert d in a + b;
    }
  }

  /** Filtering by a longer denylist is filtering by its two halves in turn. */
  lemma {:induction false} FilterCompose(errors: seq<string>, a: seq<string>, b: seq<string>)
    ensures Filter(errors, a + b) == Filter(Filter(errors, a), b)
    decreases |errors|
  {
    if errors != [] {
      var tail := errors[1..];
      FilterCompose(tail, a, b);
      BenignConcat(errors[0], a, b);
      if !IsBenign(errors[0], a) {
        var r := [errors[0]] + Filter(tail, a);
        assert r[0] == errors[0] && r[1..] == Filter(tail, a);
      }
    }
  }

  /**
   * The helper's denylist extends both inline denylists, so its result is
   * what remains of theirs after the extra substrings are applied: it is a
   * subsequence of each, and it is empty whenever either is.
   */
  lemma HelperRefinesInlineFilters(errors: seq<string>)
    ensures FilterCriticalErrors(errors) ==
      Filter(Filter(errors, HomeDenylist), ["Non-Error promise rejection", "ChunkLoadError"])
    ensures FilterCriticalErrors(errors) == Filter(Filter(errors, ExperienceDenylist), ["ChunkLoadError"])
    ensures IsSubsequence(FilterCriticalErrors(errors), Filter(errors, HomeDenylist))
    ensures IsSubsequence(FilterCriticalErrors(errors), Filter(errors, ExperienceDenylist))
    ensures Filter(errors, HomeDenylist) == [] ==> FilterCriticalErrors(errors) == []
    ensures Filter(errors, ExperienceDenylist) == [] ==> FilterCriticalErrors(errors) == []
  {
    assert HelperDenylist == HomeDenylist + ["Non-Error promise rejection", "ChunkLoadError"];
    assert HelperDenylist == ExperienceDenylist + ["ChunkLoadError"];
    FilterCompose(errors, HomeDenylist, ["Non-Error promise rejection", "ChunkLoadError"]);
    FilterCompose(errors, ExperienceDenylist, ["ChunkLoadError"]);
    FilterIsSubsequence(Filter(errors, HomeDenylist), ["Non-Error promise rejection", "ChunkLoadError"]);
    FilterIsSubsequence(Filter(errors, ExperienceDenylist), ["ChunkLoadError"]);
  }

  /**
   * Among benign noise on either side, a single critical message is all
   * that survives.
   */
  lemma OneCriticalAmongNoise(pre: seq<string>, fault: string, post: seq<string>, denylist: seq<string>)
    requires forall m :: m in pre + post ==> IsBenign(m, denylist)
    requires !IsBenign(fault, denylist)
    ensures Filter(pre + [fault] + post, denylist) == [fault]
  {
    FilterEmptyIff(pre, denylist);
    FilterEmptyIff(post, denylist);
    FilterKeepsAllIff([fault], denylist);
    FilterAppend(pre, [fault], denylist);
    FilterAppend(pre + [fault], post, denylist);
  }

  // ---------------------------------------------------------------------
  // A worked instance.

  /** One message of each benign kind, as a browser or bundler reports them. */
  const SampleNoise: seq<string> := [
    "Failed to load resource: /favicon.ico",
    "GET /api/products 404",
    "net::ERR_FAILED",
    "Non-Error promise rejection captured",
    "ChunkLoadError: Loading chunk 7 failed"
  ]

  /** An unrelated runtime error. */
  const SampleFault: string := "TypeError: cart is undefined"

  /** Each sample of noise contains its denylisted substring, two of them in the middle of the message. */
  lemma SampleNoiseIsBenign(k: nat)
    requires k < |SampleNoise|
    ensures IsBenign(SampleNoise[k], HelperDenylist)
  {
    var m := SampleNoise[k];
    var i := if k == 0 then 26 else if k == 1 then 18 else 0;
    var j := k;
    assert HelperDenylist[j] in HelperDenylist;
    var d := HelperDenylist[j];
    assert m[i..i + |d|] == d;
    assert OccursAt(m, d, i);
    ContainsIffOccurs(m, d);
  }

  /** The unrelated error contains none of the five substrings. */
  lemma SampleFaultIsCritical()
    ensures !IsBenign(SampleFault, HelperDenylist)
  {
    var msg := SampleFault;
    assert forall i :: 0 <= i < |msg| ==>
      msg[i] != 'v' && msg[i] != '4' && msg[i] != '_' && msg[i] != 'N' && msg[i] != 'C';
    forall k | 0 <= k < |HelperDenylist|
      ensures !Contains(msg, HelperDenylist[k])
    {
      var d := HelperDenylist[k];
      var c := if k == 0 then 2 else if k == 2 then 8 else 0;
      MissingCharNotContained(msg, d, c);
    }
  }

  /**
   * A list holding one message of each benign kind followed by one
   * unrelated error filters down to exactly that error.
   */
  lemma OnlyUnrelatedErrorSurvives()
    ensures FilterCriticalErrors(SampleNoise + [SampleFault]) == [SampleFault]
  {
    forall m | m in SampleNoise
      ensures IsBenign(m, HelperDenylist)
    {
      var k :| 0 <= k < |SampleNoise| && SampleNoise[k] == m;
      SampleNoiseIsBenign(k);
    }
    SampleFaultIsCritical();
    OneCriticalAmongNoise(SampleNoise, SampleFault, [], HelperDenylist);
    assert SampleNoise + [SampleFault] + [] == SampleNoise + [SampleFault];
  }
}
