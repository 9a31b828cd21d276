// The declaration matcher of the dead-function finder: the regular expression
// `\bfunction\s+([a-zA-Z0-9_]+)\s*\(` written out as a scanner over ASCII text,
// the leftmost-match search used by `Regex::find`, and the non-overlapping
// iteration used by `captures_iter` in `extract_functions`.
module Declarations {
  import opened Wrappers
  import opened Text

  /** One match: where it starts, where the captured name lies, and one past its `(`. */
  datatype Decl = Decl(start: nat, nameStart: nat, nameEnd: nat, end: nat)

  /**
   The two forms of the regex in the source: with the capture group
   (`extract_functions`) or with one name spelled literally
   (`remove_unused_functions`).
   */
  datatype DeclPattern = AnyName | Named(name: string)

  const Keyword: string := "function"

  predicate IsIdentifier(n: string) {
    |n| > 0 && forall j :: 0 <= j < |n| ==> IsWordChar(n[j])
  }

  /** End of the maximal run of whitespace starting at k. */
  function SpaceEnd(s: string, k: nat): (r: nat)
    requires k <= |s|
    decreases |s| - k
    ensures k <= r <= |s|
    ensures forall j :: k <= j < r ==> IsSpace(s[j])
    ensures r < |s| ==> !IsSpace(s[r])
  {
    if k < |s| && IsSpace(s[k]) then SpaceEnd(s, k + 1) else k
  }

  /** End of the maximal run of identifier characters starting at k. */
  function IdentEnd(s: string, k: nat): (r: nat)
    requires k <= |s|
    decreases |s| - k
    ensures k <= r <= |s|
    ensures forall j :: k <= j < r ==> IsWordChar(s[j])
    ensures r < |s| ==> !IsWordChar(s[r])
  {
    if k < |s| && IsWordChar(s[k]) then IdentEnd(s, k + 1) else k
  }

  predicate InText(s: string, d: Decl) {
    d.start + |Keyword| < d.nameStart < d.nameEnd < d.end <= |s|
  }

  /** The captured identifier of a match. */
  function Captured(s: string, d: Decl): string
    requires InText(s, d)
  {
    s[d.nameStart..d.nameEnd]
  }

  /**
   What the regex accepts, read off the pattern piece by piece: a word
   boundary, the keyword, one or more whitespace characters, one or more
   identifier characters, any whitespace, and `(`.
   */
  predicate IsDeclMatch(s: string, d: Decl) {
    && InText(s, d)
    && WordBoundary(s, d.start)
    && OccursAt(s, Keyword, d.start)
    && (forall j :: d.start + |Keyword| <= j < d.nameStart ==> IsSpace(s[j]))
    && (forall j :: d.nameStart <= j < d.nameEnd ==> IsWordChar(s[j]))
    && (forall j :: d.nameEnd <= j < d.end - 1 ==> IsSpace(s[j]))
    && s[d.end - 1] == '('
  }

  /**
   The regex anchored at position i. Every repetition in it is forced to be
   maximal (whitespace, identifier characters and `(` are disjoint classes),
   so the match at i, when there is one, is computed without backtracking.
   */
  function DeclAt(s: string, i: nat): (r: Option<Decl>)
    ensures r.Some? ==> r.value.start == i && InText(s, r.value)
  {
    if OccursAt(s, Keyword, i) && WordBoundary(s, i) then DeclAfterKeyword(s, i) else None
  }

  /** The rest of the pattern, once `\bfunction` has matched at i. */
  function DeclAfterKeyword(s: string, i: nat): (r: Option<Decl>)
    requires i + |Keyword| <= |s|
    ensures r.Some? ==> r.value.start == i && InText(s, r.value)
  {
    var b := SpaceEnd(s, i + |Keyword|);
    var c := IdentEnd(s, b);
    var d := SpaceEnd(s, c);
    if b > i + |Keyword| && c > b && d < |s| && s[d] == '(' then Some(Decl(i, b, c, d + 1)) else None
  }

  /** Every match the scanner reports is one the regex accepts ... */
  lemma DeclAtSound(s: string, i: nat)
    requires DeclAt(s, i).Some?
    ensures IsDeclMatch(s, DeclAt(s, i).value)
  {
  }

  /** ... and it reports every match the regex accepts. */
  lemma DeclAtComplete(s: string, d: Decl)
    requires IsDeclMatch(s, d)
    ensures DeclAt(s, d.start) == Some(d)
  {
    SpaceEndIs(s, d.start + |Keyword|, d.nameStart);
    assert IsSpace(s[d.nameEnd]) || s[d.nameEnd] == '(';
    IdentEndIs(s, d.nameStart, d.nameEnd);
    SpaceEndIs(s, d.nameEnd, d.end - 1);
    assert DeclAfterKeyword(s, d.start) == Some(d);
  }

  /** A run of whitespace followed by a non-whitespace character ends there. */
  lemma SpaceEndIs(s: string, k: nat, e: nat)
    requires k <= e < |s| && !IsSpace(s[e])
    requires forall j :: k <= j < e ==> IsSpace(s[j])
    ensures SpaceEnd(s, k) == e
  {
  }

  /** A run of identifier characters followed by another character ends there. */
  lemma IdentEndIs(s: string, k: nat, e: nat)
    requires k <= e < |s| && !IsWordChar(s[e])
    requires forall j :: k <= j < e ==> IsWordChar(s[j])
    ensures IdentEnd(s, k) == e
  {
  }

  lemma DeclAtIffMatch(s: string, i: nat, d: Decl)
    ensures DeclAt(s, i) == Some(d) <==> d.start == i && IsDeclMatch(s, d)
  {
    if d.start == i && IsDeclMatch(s, d) {
      DeclAtComplete(s, d);
    }
    if DeclAt(s, i) == Some(d) {
      DeclAtSound(s, i);
    }
  }

  /** The keyword consists of identifier characters, starting with `f`. */
  lemma KeywordIsWord(s: string, j: nat)
    requires OccursAt(s, Keyword, j)
    ensures s[j] == 'f'
    ensures forall k :: j <= k < j + |Keyword| ==> IsWordChar(s[k])
  {
    forall k | j <= k < j + |Keyword|
      ensures IsWordChar(s[k])
    {
      assert s[k] == s[j..j + |Keyword|][k - j];
    }
    assert s[j] == s[j..j + |Keyword|][0];
  }

  /** The keyword cannot start at a character other than `f`. */
  lemma NoKeywordAt(s: string, j: nat)
    requires j < |s| && s[j] != 'f'
    ensures !OccursAt(s, Keyword, j)
  {
    if OccursAt(s, Keyword, j) {
      KeywordIsWord(s, j);
    }
  }

  /** A second match cannot start at the name of a first one. */
  lemma NoMatchAtName(s: string, d: Decl)
    requires IsDeclMatch(s, d)
    ensures DeclAt(s, d.nameStart).None?
  {
    var j := d.nameStart;
    if DeclAt(s, j).Some? {
      // The keyword at j would be the name of d. What follows it is whitespace
      // and `(` for d, but whitespace and a name for the match at j.
      DeclAtSound(s, j);
      KeywordIsWord(s, j);
    }
  }

  /** Two matches never overlap: no match starts inside another one. */
  lemma NoOverlap(s: string, i: nat, j: nat)
    requires DeclAt(s, i).Some? && i < j < DeclAt(s, i).value.end
    ensures DeclAt(s, j).None?
  {
    var d := DeclAt(s, i).value;
    DeclAtSound(s, i);
    KeywordIsWord(s, i);
    if j == d.nameStart {
      NoMatchAtName(s, d);
    } else if j < i + |Keyword| || d.nameStart < j < d.nameEnd {
      assert IsWordChar(s[j - 1]) && IsWordChar(s[j]);
    } else {
      assert IsSpace(s[j]) || s[j] == '(';
      NoKeywordAt(s, j);
    }
  }

  predicate Accepts(pat: DeclPattern, s: string, d: Decl)
    requires InText(s, d)
  {
    match pat
    case AnyName => true
    case Named(n) => Captured(s, d) == n
  }

  /** The pattern matches at position j. */
  predicate MatchesAt(s: string, pat: DeclPattern, j: nat) {
    DeclAt(s, j).Some? && Accepts(pat, s, DeclAt(s, j).value)
  }

  /** The leftmost match at or after p (`Regex::find_at`). */
  function FindFrom(s: string, pat: DeclPattern, p: nat): (r: Option<Decl>)
    requires p <= |s|
    decreases |s| - p
    ensures r.Some? ==> p <= r.value.start && DeclAt(s, r.value.start) == r && MatchesAt(s, pat, r.value.start)
    ensures r.Some? ==> forall j :: p <= j < r.value.start ==> !MatchesAt(s, pat, j)
    ensures r.None? ==> forall j :: p <= j ==> !MatchesAt(s, pat, j)
  {
    if p == |s| then
      assert forall j :: p <= j ==> !OccursAt(s, Keyword, j);
      None
    else if MatchesAt(s, pat, p) then DeclAt(s, p)
    else FindFrom(s, pat, p + 1)
  }

  /**
   The iteration of `captures_iter`: each search resumes where the last match
   ended. Because matches never overlap, resuming skips no match, and the
   result is the captured name of the match at every position, in order.
   */
  function ScanNames(s: string, p: nat): (r: seq<string>)
    requires p <= |s|
    decreases |s| - p
    ensures r == NamesFrom(s, p)
  {
    match FindFrom(s, AnyName, p)
    case None =>
      SkipNoMatches(s, p, |s|);
      []
    case Some(d) =>
      SkipNoMatches(s, p, d.start);
      NamesFromAtMatch(s, d);
      [Captured(s, d)] + ScanNames(s, d.end)
  }

  /** Positions where the pattern does not match contribute no names. */
  lemma SkipNoMatches(s: string, a: nat, b: nat)
    requires a <= b <= |s|
    requires forall j :: a <= j < b ==> !MatchesAt(s, AnyName, j)
    ensures NamesFrom(s, a) == NamesFrom(s, b)
  {
    forall j | a <= j < b
      ensures DeclAt(s, j).None?
    {
      assert !MatchesAt(s, AnyName, j);
    }
    SkipNoDecls(s, a, b);
  }

  /** Reference definition: the captured name of the match at every position, in order. */
  function NamesFrom(s: string, k: nat): seq<string>
    requires k <= |s|
    decreases |s| - k
  {
    if k == |s| then [] else NameAt(s, k) + NamesFrom(s, k + 1)
  }

  /** The captured name of the match at k, if one starts there. */
  function NameAt(s: string, k: nat): seq<string> {
    match DeclAt(s, k)
    case Some(d) => [Captured(s, d)]
    case None => []
  }

  function DeclaredNames(s: string): seq<string> {
    NamesFrom(s, 0)
  }

  lemma {:induction false} SkipNoDecls(s: string, a: nat, b: nat)
    requires a <= b <= |s|
    requires forall j :: a <= j < b ==> DeclAt(s, j).None?
    ensures NamesFrom(s, a) == NamesFrom(s, b)
    decreases b - a
  {
    if a < b {
      SkipNoDecls(s, a + 1, b);
    }
  }

  /** The reference list at a match: its name, then whatever follows the match. */
  lemma NamesFromAtMatch(s: string, d: Decl)
    requires DeclAt(s, d.start) == Some(d)
    ensures NamesFrom(s, d.start) == [Captured(s, d)] + NamesFrom(s, d.end)
  {
    forall j | d.start + 1 <= j < d.end
      ensures DeclAt(s, j).None?
    {
      NoOverlap(s, d.start, j);
    }
    SkipNoDecls(s, d.start + 1, d.end);
  }

  /**
   `extract_functions`: the declared names in source order, duplicates kept;
   the same list as the reference definition.
   */
  function ExtractFunctions(s: string): (r: seq<string>)
    ensures r == DeclaredNames(s)
  {
    ScanNames(s, 0)
  }

  /** A name is listed exactly when some match captures it. */
  lemma NamesFromMembership(s: string, k: nat, n: string)
    requires k <= |s|
    ensures n in NamesFrom(s, k) <==> exists i :: k <= i && MatchesAt(s, Named(n), i)
  {
    if n in NamesFrom(s, k) {
      var i := NameHasMatch(s, k, n);
    }
    if exists i :: k <= i && MatchesAt(s, Named(n), i) {
      var i :| k <= i && MatchesAt(s, Named(n), i);
      NamesFromStep(s, i, n);
      NamesFromKeeps(s, k, n, i);
    }
  }

  /** A listed name is captured by a match at or after k. */
  lemma {:induction false} NameHasMatch(s: string, k: nat, n: string) returns (i: nat)
    requires k <= |s| && n in NamesFrom(s, k)
    ensures k <= i && MatchesAt(s, Named(n), i)
    decreases |s| - k
  {
    NamesFromStep(s, k, n);
    if MatchesAt(s, Named(n), k) {
      i := k;
    } else {
      i := NameHasMatch(s, k + 1, n);
    }
  }

  /** A name listed from i on is listed from any earlier k on. */
  lemma NamesFromKeeps(s: string, k: nat, n: string, i: nat)
    requires k <= i <= |s| && n in NamesFrom(s, i)
    ensures n in NamesFrom(s, k)
  {
    var j := i;
    while j > k
      invariant k <= j <= i && n in NamesFrom(s, j)
      decreases j
    {
      j := j - 1;
      NamesFromGrows(s, j, n);
    }
  }

  /** One step towards the front keeps a listed name listed. */
  lemma NamesFromGrows(s: string, k: nat, n: string)
    requires k < |s| && n in NamesFrom(s, k + 1)
    ensures n in NamesFrom(s, k)
  {
    var rest := NamesFrom(s, k + 1);
    assert NamesFrom(s, k) == NameAt(s, k) + rest;
    assert n in NameAt(s, k) + rest;
  }


  /** The reference list at k holds n when the match at k captures n or a later entry is n. */
  lemma NamesFromStep(s: string, k: nat, n: string)
    requires k <= |s|
    ensures k < |s| ==> (n in NamesFrom(s, k) <==> MatchesAt(s, Named(n), k) || n in NamesFrom(s, k + 1))
    ensures k == |s| ==> n !in NamesFrom(s, k) && !MatchesAt(s, Named(n), k)
  {
    if k < |s| {
      var rest := NamesFrom(s, k + 1);
      if DeclAt(s, k).Some? {
        assert NamesFrom(s, k) == [Captured(s, DeclAt(s, k).value)] + rest;
      } else {
        assert NamesFrom(s, k) == rest;
      }
    }
  }

  lemma ExtractedNamesAreDeclared(s: string, n: string)
    ensures n in ExtractFunctions(s) <==> exists d :: IsDeclMatch(s, d) && Captured(s, d) == n
  {
    if n in ExtractFunctions(s) {
      var d := MatchOfExtractedName(s, n);
    }
    if exists d :: IsDeclMatch(s, d) && Captured(s, d) == n {
      var d :| IsDeclMatch(s, d) && Captured(s, d) == n;
      DeclAtComplete(s, d);
      assert MatchesAt(s, Named(n), d.start);
      NamesFromMembership(s, 0, n);
    }
  }

  /** The match behind an extracted name. */
  lemma MatchOfExtractedName(s: string, n: string) returns (d: Decl)
    requires n in ExtractFunctions(s)
    ensures IsDeclMatch(s, d) && Captured(s, d) == n
  {
    NamesFromMembership(s, 0, n);
    var i :| MatchesAt(s, Named(n), i);
    DeclAtSound(s, i);
    d := DeclAt(s, i).value;
  }

  lemma CapturedIsIdentifier(s: string, d: Decl)
    requires IsDeclMatch(s, d)
    ensures IsIdentifier(Captured(s, d))
  {
    var n := Captured(s, d);
    forall j | 0 <= j < |n|
      ensures IsWordChar(n[j])
    {
      assert n[j] == s[d.nameStart + j];
    }
  }

  /** Every extracted name is a non-empty identifier that occurs in the text. */
  lemma ExtractedNameIsIdentifier(s: string, n: string)
    requires n in ExtractFunctions(s)
    ensures IsIdentifier(n)
    ensures exists i :: OccursAt(s, n, i)
  {
    var d := MatchOfExtractedName(s, n);
    CapturedIsIdentifier(s, d);
    assert OccursAt(s, n, d.nameStart);
  }

  /** A name that does not occur in the text is not extracted from it. */
  lemma AbsentNameNotExtracted(s: string, n: string)
    requires forall i :: !OccursAt(s, n, i)
    ensures n !in ExtractFunctions(s)
  {
    if n in ExtractFunctions(s) {
      ExtractedNameIsIdentifier(s, n);
    }
  }
}
