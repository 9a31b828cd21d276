// The usage classifier of the dead-function finder: `should_ignore_function`
// and the filter in `process_single_file` that selects the functions to
// report and remove. The regex engine is a parameter: which pattern strings
// compile, and what a compiled pattern matches.
module Classifier {

  /** The `--ignore` patterns together with the regex engine's verdicts on them. */
  datatype IgnoreRules = IgnoreRules(
    patterns: seq<string>,
    compiles: string -> bool,
    isMatch: (string, string) -> bool)

  /** Pattern k compiles and matches the name. */
  predicate PatternHits(rules: IgnoreRules, k: nat, name: string)
    requires k < |rules.patterns|
  {
    rules.compiles(rules.patterns[k]) && rules.isMatch(rules.patterns[k], name)
  }

  /** Some pattern from position k on compiles and matches the name. */
  function AnyHitFrom(rules: IgnoreRules, k: nat, name: string): (r: bool)
    requires k <= |rules.patterns|
    decreases |rules.patterns| - k
    ensures r <==> exists j :: k <= j < |rules.patterns| && PatternHits(rules, j, name)
  {
    if k == |rules.patterns| then false
    else PatternHits(rules, k, name) || AnyHitFrom(rules, k + 1, name)
  }

  /**
   `should_ignore_function`: patterns that fail to compile are dropped
   silently; the name is ignored when any remaining pattern matches it.
   */
  function ShouldIgnore(name: string, rules: IgnoreRules): (r: bool)
    ensures r <==> exists k :: 0 <= k < |rules.patterns| && PatternHits(rules, k, name)
  {
    AnyHitFrom(rules, 0, name)
  }

  /** With no compilable pattern nothing is ignored. */
  lemma NoValidPatternIgnoresNothing(name: string, rules: IgnoreRules)
    requires forall k :: 0 <= k < |rules.patterns| ==> !rules.compiles(rules.patterns[k])
    ensures !ShouldIgnore(name, rules)
  {
  }

  /** The count the report and the filter read: a name missing from the map counts 0. */
  function CountOf(counts: map<string, nat>, f: string): nat {
    if f in counts then counts[f] else 0
  }

  /** The filter's test: counted at most once, and not ignored. */
  predicate IsUnused(f: string, counts: map<string, nat>, rules: IgnoreRules) {
    CountOf(counts, f) <= 1 && !ShouldIgnore(f, rules)
  }

  /** The unused functions in declaration order, duplicates kept; never more than were declared. */
  function UnusedFunctions(functions: seq<string>, counts: map<string, nat>, rules: IgnoreRules): (r: seq<string>)
    decreases |functions|
    ensures |r| <= |functions|
  {
    if functions == [] then []
    else
      var rest := UnusedFunctions(functions[1..], counts, rules);
      if IsUnused(functions[0], counts, rules) then [functions[0]] + rest else rest
  }

  /** The positions the filter keeps, in increasing order. */
  function UnusedIndices(functions: seq<string>, counts: map<string, nat>, rules: IgnoreRules): seq<nat>
    decreases |functions|
  {
    if functions == [] then []
    else
      var rest := Shift(UnusedIndices(functions[1..], counts, rules));
      if IsUnused(functions[0], counts, rules) then [0] + rest else rest
  }

  /** Each kept position holds the corresponding entry of the result. */
  lemma {:induction false} UnusedIndicesSelect(functions: seq<string>, counts: map<string, nat>, rules: IgnoreRules)
    ensures var idx := UnusedIndices(functions, counts, rules);
      && |idx| == |UnusedFunctions(functions, counts, rules)|
      && forall k :: 0 <= k < |idx| ==> idx[k] < |functions| && UnusedFunctions(functions, counts, rules)[k] == functions[idx[k]]
    decreases |functions|
  {
    if functions != [] {
      UnusedIndicesSelect(functions[1..], counts, rules);
      var tail := UnusedIndices(functions[1..], counts, rules);
      var rest := UnusedFunctions(functions[1..], counts, rules);
      var sh := Shift(tail);
      assert forall m :: 0 <= m < |sh| ==> sh[m] < |functions| && rest[m] == functions[sh[m]] by {
        forall m | 0 <= m < |sh|
          ensures sh[m] < |functions| && rest[m] == functions[sh[m]]
        {
          assert functions[sh[m]] == functions[1..][tail[m]];
        }
      }
      if IsUnused(functions[0], counts, rules) {
        PrependSelect(functions, sh, rest);
      }
    }
  }

  /** Prepending position 0 and the first function keeps the selection aligned. */
  lemma PrependSelect(functions: seq<string>, sh: seq<nat>, rest: seq<string>)
    requires |functions| > 0 && |sh| == |rest|
    requires forall m :: 0 <= m < |sh| ==> sh[m] < |functions| && rest[m] == functions[sh[m]]
    ensures var idx, r := [0] + sh, [functions[0]] + rest;
      forall k :: 0 <= k < |idx| ==> idx[k] < |functions| && r[k] == functions[idx[k]]
  {
    var idx, r := [0] + sh, [functions[0]] + rest;
    forall k | 1 <= k < |idx|
      ensures idx[k] < |functions| && r[k] == functions[idx[k]]
    {
      assert idx[k] == sh[k - 1] && r[k] == rest[k - 1];
    }
  }

  predicate Increasing(idx: seq<nat>) {
    forall k, l :: 0 <= k < l < |idx| ==> idx[k] < idx[l]
  }

  /** The kept positions increase strictly. */
  lemma {:induction false} UnusedIndicesIncrease(functions: seq<string>, counts: map<string, nat>, rules: IgnoreRules)
    ensures Increasing(UnusedIndices(functions, counts, rules))
    decreases |functions|
  {
    if functions != [] {
      UnusedIndicesIncrease(functions[1..], counts, rules);
      var tail := UnusedIndices(functions[1..], counts, rules);
      var sh := Shift(tail);
      forall k, l | 0 <= k < l < |sh|
        ensures sh[k] < sh[l]
      {
        assert tail[k] < tail[l];
      }
      if IsUnused(functions[0], counts, rules) {
        var idx := [0] + sh;
        forall k, l | 0 <= k < l < |idx|
          ensures idx[k] < idx[l]
        {
          assert idx[l] == sh[l - 1] >= 1;
          if k > 0 {
            assert idx[k] == sh[k - 1];
          }
        }
      }
    }
  }

  /** A position is kept exactly when its function passes the test. */
  lemma {:induction false} UnusedIndicesExact(functions: seq<string>, counts: map<string, nat>, rules: IgnoreRules)
    ensures forall j :: 0 <= j < |functions| ==>
      (j in UnusedIndices(functions, counts, rules) <==> IsUnused(functions[j], counts, rules))
    decreases |functions|
  {
    if functions != [] {
      var tail := UnusedIndices(functions[1..], counts, rules);
      UnusedIndicesExact(functions[1..], counts, rules);
      forall j | 0 <= j < |functions|
        ensures j in UnusedIndices(functions, counts, rules) <==> IsUnused(functions[j], counts, rules)
      {
        ShiftMembership(tail, j);
        if j > 0 {
          assert functions[j] == functions[1..][j - 1];
        }
      }
    }
  }

  /**
   The filter keeps exactly the positions whose function passes the test,
   in increasing order: the result is an order-preserving subsequence.
   */
  lemma UnusedPositions(functions: seq<string>, counts: map<string, nat>, rules: IgnoreRules)
    returns (idx: seq<nat>)
    ensures |idx| == |UnusedFunctions(functions, counts, rules)|
    ensures forall k :: 0 <= k < |idx| ==> idx[k] < |functions| && UnusedFunctions(functions, counts, rules)[k] == functions[idx[k]]
    ensures Increasing(idx)
    ensures forall j :: 0 <= j < |functions| ==> (j in idx <==> IsUnused(functions[j], counts, rules))
  {
    idx := UnusedIndices(functions, counts, rules);
    UnusedIndicesSelect(functions, counts, rules);
    UnusedIndicesIncrease(functions, counts, rules);
    UnusedIndicesExact(functions, counts, rules);
  }

  function Shift(idx: seq<nat>): (r: seq<nat>)
    ensures |r| == |idx| && forall k :: 0 <= k < |idx| ==> r[k] == idx[k] + 1
  {
    seq(|idx|, k requires 0 <= k < |idx| => idx[k] + 1)
  }

  lemma ShiftMembership(idx: seq<nat>, j: nat)
    ensures j in Shift(idx) <==> j > 0 && j - 1 in idx
  {
    var r := Shift(idx);
    if j in r {
      var k :| 0 <= k < |r| && r[k] == j;
      assert idx[k] == j - 1;
    }
    if j > 0 && j - 1 in idx {
      var k :| 0 <= k < |idx| && idx[k] == j - 1;
      assert r[k] == j;
    }
  }

  /** Each function appears in the result as often as it was declared if it is unused, and not at all otherwise. */
  lemma {:induction false} UnusedMultiplicity(functions: seq<string>, counts: map<string, nat>, rules: IgnoreRules, f: string)
    ensures multiset(UnusedFunctions(functions, counts, rules))[f]
         == if IsUnused(f, counts, rules) then multiset(functions)[f] else 0
    decreases |functions|
  {
    if functions != [] {
      UnusedMultiplicity(functions[1..], counts, rules, f);
      assert functions == [functions[0]] + functions[1..];
    }
  }

  /**
   A function is selected exactly when it is declared, counted at most once
   and matched by no ignore pattern: ignore patterns take precedence over the
   count.
   */
  lemma UnusedMembership(functions: seq<string>, counts: map<string, nat>, rules: IgnoreRules, f: string)
    ensures f in UnusedFunctions(functions, counts, rules)
        <==> f in functions && CountOf(counts, f) <= 1 && !ShouldIgnore(f, rules)
  {
    UnusedMultiplicity(functions, counts, rules, f);
  }
}
