// The occurrence counter of the dead-function finder
// (`count_function_occurrences`): for every listed name, the number of
// non-overlapping substring matches of it over the contents of every source
// file under the root. The directory walk is abstracted as the sequence of
// those files' contents, in the order the walk visits them.
module Occurrences {
  import opened Text
  import Declarations

  /** Matches of n summed over the files. */
  function TotalMatches(files: seq<string>, n: string): nat
    decreases |files|
  {
    if files == [] then 0
    else TotalMatches(files[..|files| - 1], n) + CountMatches(files[|files| - 1], n)
  }

  /**
   The value the counter reaches for n: every file adds its matches of n
   once for each time n is listed, so a repeated name is counted once per
   repetition.
   */
  function OccurrenceCount(files: seq<string>, names: seq<string>, n: string): nat {
    multiset(names)[n] * TotalMatches(files, n)
  }

  /**
   `count_function_occurrences`: start every listed name at 0, then for each
   file and each listed name add that file's matches of the name.
   */
  method CountOccurrences(files: seq<string>, names: seq<string>) returns (counts: map<string, nat>)
    ensures counts.Keys == set n | n in names
    ensures forall n :: n in counts ==> counts[n] == OccurrenceCount(files, names, n)
  {
    counts := map n | n in names :: 0;
    var fi := 0;
    while fi < |files|
      invariant 0 <= fi <= |files|
      invariant counts.Keys == set n | n in names
      invariant forall n :: n in counts ==> counts[n] == multiset(names)[n] * TotalMatches(files[..fi], n)
    {
      var before := counts;
      counts := AddFileMatches(before, names, files[fi]);
      forall n | n in counts
        ensures counts[n] == multiset(names)[n] * TotalMatches(files[..fi + 1], n)
      {
        TotalMatchesStep(files, fi, n);
        MulDistributes(multiset(names)[n], TotalMatches(files[..fi], n), CountMatches(files[fi], n));
      }
      fi := fi + 1;
    }
    assert files[..fi] == files;
  }

  /**
   The inner loop of the counter over one file: for each listed name, in
   order, add the file's matches of it to the name's entry.
   */
  method AddFileMatches(before: map<string, nat>, names: seq<string>, content: string) returns (counts: map<string, nat>)
    requires before.Keys == set n | n in names
    ensures counts.Keys == before.Keys
    ensures forall n :: n in counts ==> counts[n] == before[n] + multiset(names)[n] * CountMatches(content, n)
  {
    counts := before;
    var ni := 0;
    while ni < |names|
      invariant 0 <= ni <= |names|
      invariant counts.Keys == before.Keys
      invariant forall n :: n in counts ==>
        counts[n] == before[n] + multiset(names[..ni])[n] * CountMatches(content, n)
    {
      var f := names[ni];
      var current := if f in counts then counts[f] else 0;  // entry(..).or_default()
      counts := counts[f := current + CountMatches(content, f)];
      forall n | n in counts
        ensures counts[n] == before[n] + multiset(names[..ni + 1])[n] * CountMatches(content, n)
      {
        ListedOnceMore(names, ni, n);
        if n == f {
          MulSucc(multiset(names[..ni])[n], CountMatches(content, n));
        }
      }
      ni := ni + 1;
    }
    assert names[..ni] == names;
  }

  lemma TotalMatchesStep(files: seq<string>, fi: nat, n: string)
    requires fi < |files|
    ensures TotalMatches(files[..fi + 1], n) == TotalMatches(files[..fi], n) + CountMatches(files[fi], n)
  {
    assert files[..fi + 1][..fi] == files[..fi];
  }

  lemma ListedOnceMore(names: seq<string>, ni: nat, n: string)
    requires ni < |names|
    ensures multiset(names[..ni + 1])[n] == multiset(names[..ni])[n] + (if names[ni] == n then 1 else 0)
  {
    assert names[..ni + 1] == names[..ni] + [names[ni]];
  }

  lemma MulSucc(m: nat, c: nat)
    ensures (m + 1) * c == m * c + c
  {
  }

  lemma MulDistributes(m: nat, a: nat, b: nat)
    ensures m * (a + b) == m * a + m * b
  {
  }

  /** Per-file partial counts can be combined over any split of the file list. */
  lemma {:induction false} TotalMatchesAppend(a: seq<string>, b: seq<string>, n: string)
    ensures TotalMatches(a + b, n) == TotalMatches(a, n) + TotalMatches(b, n)
    decreases |b|
  {
    if b != [] {
      var b' := b[..|b| - 1];
      assert (a + b)[..|a + b| - 1] == a + b';
      TotalMatchesAppend(a, b', n);
    } else {
      assert a + b == a;
    }
  }

  /** A file in the list contributes its own matches to the total. */
  lemma {:induction false} TotalMatchesCovers(files: seq<string>, k: nat, n: string)
    requires k < |files|
    ensures TotalMatches(files, n) >= CountMatches(files[k], n)
    decreases |files|
  {
    if k < |files| - 1 {
      TotalMatchesCovers(files[..|files| - 1], k, n);
    }
  }

  /** A non-empty name that occurs in no file totals 0. */
  lemma {:induction false} AbsentNameTotalsZero(files: seq<string>, n: string)
    requires |n| > 0
    requires forall k, i :: 0 <= k < |files| ==> !OccursAt(files[k], n, i)
    ensures TotalMatches(files, n) == 0
    decreases |files|
  {
    if files != [] {
      CountMatchesPositive(files[|files| - 1], n);
      AbsentNameTotalsZero(files[..|files| - 1], n);
    }
  }

  /**
   A declared name is counted at least once when its own file is among the
   scanned files: the declaration itself is an occurrence.
   */
  lemma DeclarationCountsItself(files: seq<string>, k: nat, n: string)
    requires k < |files|
    requires n in Declarations.ExtractFunctions(files[k])
    ensures OccurrenceCount(files, Declarations.ExtractFunctions(files[k]), n) >= 1
  {
    var names := Declarations.ExtractFunctions(files[k]);
    Declarations.ExtractedNameIsIdentifier(files[k], n);
    CountMatchesPositive(files[k], n);
    TotalMatchesCovers(files, k, n);
    assert multiset(names)[n] >= 1;
    ProductOfPositives(multiset(names)[n], TotalMatches(files, n));
  }

  lemma ProductOfPositives(a: nat, b: nat)
    requires a >= 1 && b >= 1
    ensures a * b >= 1
  {
  }

  /**
   A name listed once that occurs at exactly one position of one file, and
   nowhere else, is counted exactly once.
   */
  lemma {:induction false} SingleDeclarationCountsOne(files: seq<string>, names: seq<string>, n: string, k: nat, i: nat)
    requires |n| > 0 && k < |files| && OccursAt(files[k], n, i)
    requires forall k', i' :: 0 <= k' < |files| && OccursAt(files[k'], n, i') ==> k' == k && i' == i
    requires multiset(names)[n] == 1
    ensures OccurrenceCount(files, names, n) == 1
  {
    var pre, post := files[..k], files[k + 1..];
    assert files == pre + [files[k]] + post;
    AbsentNameTotalsZero(pre, n);
    AbsentNameTotalsZero(post, n);
    SingleOccurrenceCountsOnce(files[k], n, i);
    TotalMatchesAppend(pre + [files[k]], post, n);
    TotalMatchesAppend(pre, [files[k]], n);
    assert TotalMatches([files[k]], n) == CountMatches(files[k], n) by {
      assert [files[k]][..0] == [];
    }
  }
}
