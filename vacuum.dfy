// The per-file driver of the dead-function finder (`process_single_file`):
// extract the declared names, count their occurrences over the files under
// the root, report every name with its count, select the unused ones, and
// when deletion is asked for remove them and write the file back.
module Vacuum {
  import opened Wrappers
  import opened Text
  import opened Declarations
  import opened Occurrences
  import opened Classifier
  import opened Removal

  /** One line of the usage report: a declared name, its count, and whether an ignore pattern matched it. */
  datatype ReportLine = ReportLine(name: string, count: nat, ignored: bool)

  /** The occurrence map the counter builds, as a value. */
  function CountMap(rootFiles: seq<string>, names: seq<string>): map<string, nat> {
    map n | n in names :: OccurrenceCount(rootFiles, names, n)
  }

  /** The functions of a file that are marked for removal, in declaration order. */
  function MarkedIn(content: string, rootFiles: seq<string>, rules: IgnoreRules): seq<string> {
    var functions := ExtractFunctions(content);
    UnusedFunctions(functions, CountMap(rootFiles, functions), rules)
  }

  /**
   `process_single_file` on a file's content. The root's `.sol` files are
   given as their contents in walk order and the ignore patterns as rules.
   Returns the report lines, the functions marked for removal, the text
   written back (None when nothing is written), the names announced as
   removed, and the count added to the run's total.
   */
  method ProcessSingleFile(content: string, rootFiles: seq<string>, delete: bool, rules: IgnoreRules)
    returns (report: seq<ReportLine>, marked: seq<string>, written: Option<string>, removed: seq<string>, unusedCount: nat)
    ensures var functions := ExtractFunctions(content);
      && |report| == |functions|
      && forall k :: 0 <= k < |report| ==>
           report[k] == ReportLine(functions[k], OccurrenceCount(rootFiles, functions, functions[k]), ShouldIgnore(functions[k], rules))
    ensures marked == MarkedIn(content, rootFiles, rules)
    ensures unusedCount == |marked|
    ensures written == if delete && marked != [] then Some(RemoveAll(content, marked)) else None
    ensures removed == if delete && marked != [] then RemovedNames(content, marked) else []
  {
    var functions := ExtractFunctions(content);
    var counts := CountOccurrences(rootFiles, functions);
    CountsAreCountMap(counts, rootFiles, functions);
    marked := UnusedFunctions(functions, counts, rules);
    report := BuildReport(functions, counts, rules);
    if marked != [] && delete {
      var result;
      result, removed := RemoveUnusedFunctions(content, marked);
      written := Some(result);
    } else {
      written, removed := None, [];
    }
    unusedCount := |marked|;
  }

  /** The report loop: one line per declared name, in declaration order, duplicates included. */
  method BuildReport(functions: seq<string>, counts: map<string, nat>, rules: IgnoreRules) returns (report: seq<ReportLine>)
    ensures |report| == |functions|
    ensures forall k :: 0 <= k < |report| ==>
      report[k] == ReportLine(functions[k], CountOf(counts, functions[k]), ShouldIgnore(functions[k], rules))
  {
    report := [];
    for k := 0 to |functions|
      invariant |report| == k
      invariant forall j :: 0 <= j < k ==>
        report[j] == ReportLine(functions[j], CountOf(counts, functions[j]), ShouldIgnore(functions[j], rules))
    {
      var f := functions[k];
      report := report + [ReportLine(f, CountOf(counts, f), ShouldIgnore(f, rules))];
    }
  }

  lemma CountsAreCountMap(counts: map<string, nat>, rootFiles: seq<string>, names: seq<string>)
    requires counts.Keys == set n | n in names
    requires forall n :: n in counts ==> counts[n] == OccurrenceCount(rootFiles, names, n)
    ensures counts == CountMap(rootFiles, names)
  {
  }

  /**
   A function is marked exactly when it is declared in the file, counted at
   most once over the root, and matched by no ignore pattern.
   */
  lemma MarkedIff(content: string, rootFiles: seq<string>, rules: IgnoreRules, f: string)
    ensures f in MarkedIn(content, rootFiles, rules)
        <==> && f in ExtractFunctions(content)
             && OccurrenceCount(rootFiles, ExtractFunctions(content), f) <= 1
             && !ShouldIgnore(f, rules)
  {
    var functions := ExtractFunctions(content);
    UnusedMembership(functions, CountMap(rootFiles, functions), rules, f);
  }

  lemma ProductIsOne(m: nat, t: nat)
    requires m >= 1 && m * t == 1
    ensures m == 1 && t == 1
  {
  }

  /**
   When the file is itself among the root's files, a marked function is
   declared once, and its name occurs once over the whole root, at its
   declaration.
   */
  lemma SelfScannedMarkedIsSingle(content: string, rootFiles: seq<string>, rules: IgnoreRules, f: string)
    requires content in rootFiles
    requires f in MarkedIn(content, rootFiles, rules)
    ensures multiset(ExtractFunctions(content))[f] == 1
    ensures TotalMatches(rootFiles, f) == 1
    ensures CountMatches(content, f) == 1
    ensures AtMostOnce(content, f)
  {
    var functions := ExtractFunctions(content);
    var k :| 0 <= k < |rootFiles| && rootFiles[k] == content;
    MarkedIff(content, rootFiles, rules, f);
    DeclarationCountsItself(rootFiles, k, f);
    ProductIsOne(multiset(functions)[f], TotalMatches(rootFiles, f));
    ExtractedNameIsIdentifier(content, f);
    CountMatchesPositive(content, f);
    TotalMatchesCovers(rootFiles, k, f);
    var d := MatchOfExtractedName(content, f);
    CapturedIsIdentifier(content, d);
    OnlyOccurrenceIsDecl(content, f, d);
  }

  /**
   When the file is itself among the root's files, every function announced
   as removed is gone from the text written back: its name occurs nowhere
   in it, so a later run neither counts nor extracts it.
   */
  lemma DeletedFunctionsGone(content: string, rootFiles: seq<string>, rules: IgnoreRules, f: string)
    requires content in rootFiles
    requires f in RemovedNames(content, MarkedIn(content, rootFiles, rules))
    ensures var written := RemoveAll(content, MarkedIn(content, rootFiles, rules));
      && CountMatches(written, f) == 0
      && f !in ExtractFunctions(written)
  {
    var marked := MarkedIn(content, rootFiles, rules);
    var written := RemoveAll(content, marked);
    assert f in multiset(RemovedNames(content, marked));
    assert f in marked;
    SelfScannedMarkedIsSingle(content, rootFiles, rules, f);
    MarkedIff(content, rootFiles, rules, f);
    ExtractedNameIsIdentifier(content, f);
    RemovedSoleNamesGone(content, marked, f);
    CountMatchesPositive(written, f);
    AbsentNameNotExtracted(written, f);
  }
}
