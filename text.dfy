// Character classes and the few string operations of Rust's standard library
// that the dead-function finder relies on, over ASCII text as seq<char>:
// `\s` / `char::is_whitespace`, the `\b` word boundary, `str::trim`,
// `starts_with`, `ends_with`, `rfind` and `str::matches(..).count()`.
module Text {
  import opened Wrappers

  /** ASCII whitespace: tab, line feed, vertical tab, form feed, carriage return, space. */
  predicate IsSpace(c: char) {
    c == ' ' || c == '\t' || c == '\n' || c == '\r' || c == '\U{000B}' || c == '\U{000C}'
  }

  /** The identifier class `[a-zA-Z0-9_]`, which is also the ASCII word class of `\b`. */
  predicate IsWordChar(c: char) {
    ('a' <= c <= 'z') || ('A' <= c <= 'Z') || ('0' <= c <= '9') || c == '_'
  }

  /** `\b` at position i: the characters on either side differ in being word characters. */
  predicate WordBoundary(s: string, i: nat)
    requires i <= |s|
  {
    var before := i > 0 && IsWordChar(s[i - 1]);
    var after := i < |s| && IsWordChar(s[i]);
    before != after
  }

  /** p occurs in t starting at position i. */
  predicate OccursAt(t: string, p: string, i: nat) {
    i + |p| <= |t| && t[i..i + |p|] == p
  }

  predicate StartsWith(t: string, p: string) {
    OccursAt(t, p, 0)
  }

  predicate EndsWith(t: string, p: string) {
    |p| <= |t| && t[|t| - |p|..] == p
  }

  /** `str::trim_start`: drop leading whitespace. */
  function TrimStart(t: string): (r: string)
    ensures |r| <= |t| && r == t[|t| - |r|..]
    ensures r != [] ==> !IsSpace(r[0])
    ensures forall j :: 0 <= j < |t| - |r| ==> IsSpace(t[j])
  {
    if t != [] && IsSpace(t[0]) then TrimStart(t[1..]) else t
  }

  /** `str::trim_end`: drop trailing whitespace. */
  function TrimEnd(t: string): (r: string)
    ensures |r| <= |t| && r == t[..|r|]
    ensures r != [] ==> !IsSpace(r[|r| - 1])
    ensures forall j :: |r| <= j < |t| ==> IsSpace(t[j])
  {
    if t != [] && IsSpace(t[|t| - 1]) then TrimEnd(t[..|t| - 1]) else t
  }

  /**
   `str::trim`: drop whitespace on both sides. What is left neither starts
   nor ends with whitespace, and nothing is left exactly when the text is all
   whitespace. TrimIsMiddle shows it is the stretch of the text between a
   leading and a trailing run of whitespace.
   */
  function Trim(t: string): (r: string)
    ensures |r| <= |t|
    ensures r != [] ==> !IsSpace(r[0]) && !IsSpace(r[|r| - 1])
    ensures r == [] <==> forall j :: 0 <= j < |t| ==> IsSpace(t[j])
  {
    var u := TrimStart(t);
    var r := TrimEnd(u);
    TrimShape(t, u, r);
    r
  }

  // `trim` keeps the middle of the text: a stretch of it with only whitespace
  // before and after it.
  lemma TrimIsMiddle(t: string)
    ensures exists a: nat :: MiddleOf(t, a, Trim(t))
  {
    var u := TrimStart(t);
    TrimShape(t, u, TrimEnd(u));
    assert Trim(t) == TrimEnd(u);
    assert MiddleOf(t, |t| - |u|, Trim(t));
  }

  // r is the stretch of t from a, with only whitespace before and after it.
  predicate MiddleOf(t: string, a: nat, r: string) {
    && a + |r| <= |t| && t[a..a + |r|] == r
    && (forall j :: 0 <= j < a ==> IsSpace(t[j]))
    && (forall j :: a + |r| <= j < |t| ==> IsSpace(t[j]))
  }

  // What trimming both ends gives, from what each end's trimming promises.
  lemma TrimShape(t: string, u: string, r: string)
    requires |u| <= |t| && u == t[|t| - |u|..]
    requires u != [] ==> !IsSpace(u[0])
    requires forall j :: 0 <= j < |t| - |u| ==> IsSpace(t[j])
    requires |r| <= |u| && r == u[..|r|]
    requires r != [] ==> !IsSpace(r[|r| - 1])
    requires forall j :: |r| <= j < |u| ==> IsSpace(u[j])
    ensures |r| <= |t|
    ensures r != [] ==> !IsSpace(r[0]) && !IsSpace(r[|r| - 1])
    ensures r == [] <==> forall j :: 0 <= j < |t| ==> IsSpace(t[j])
    ensures MiddleOf(t, |t| - |u|, r)
  {
    var a := |t| - |u|;
    PrefixOfSuffix(t, a, u, r);
    if r != [] {
      assert r[0] == u[0];
      assert !IsSpace(t[a]);
    }
  }

  // A prefix r of the suffix u of t from a, followed in u only by whitespace,
  // is the stretch of t from a, followed in t only by whitespace.
  lemma PrefixOfSuffix(t: string, a: nat, u: string, r: string)
    requires a <= |t| && u == t[a..] && |r| <= |u| && r == u[..|r|]
    requires forall j :: |r| <= j < |u| ==> IsSpace(u[j])
    ensures r == t[a..a + |r|]
    ensures forall j :: a + |r| <= j < |t| ==> IsSpace(t[j])
  {
    forall j | a + |r| <= j < |t|
      ensures IsSpace(t[j])
    {
      assert t[j] == u[j - a];
    }
  }

  /** The candidates i, i-1, ..., 0 for `rfind`, tried from the right. */
  function RFindFrom(t: string, p: string, i: int): (r: Option<nat>)
    decreases i + 1
    ensures r.Some? ==> r.value <= i && OccursAt(t, p, r.value)
    ensures r.Some? ==> forall j :: r.value < j <= i ==> !OccursAt(t, p, j)
    ensures r.None? ==> forall j :: 0 <= j <= i ==> !OccursAt(t, p, j)
  {
    if i < 0 then None
    else if OccursAt(t, p, i) then Some(i)
    else RFindFrom(t, p, i - 1)
  }

  /** `str::rfind`: the start of the rightmost occurrence of p in t. */
  function RFind(t: string, p: string): (r: Option<nat>)
    ensures r.Some? ==> OccursAt(t, p, r.value) && forall j :: r.value < j ==> !OccursAt(t, p, j)
    ensures r.None? ==> forall j :: !OccursAt(t, p, j)
  {
    RFindFrom(t, p, |t| - |p|)
  }

  /**
   `str::matches(p).count()` from position k: leftmost, non-overlapping
   matches, the search resuming after each one. An empty needle matches at
   every character boundary, k through |t|.
   */
  function CountFrom(t: string, p: string, k: nat): nat
    requires k <= |t|
    decreases |t| - k
  {
    if |p| == 0 then |t| - k + 1
    else if k + |p| > |t| then 0
    else if t[k..k + |p|] == p then 1 + CountFrom(t, p, k + |p|)
    else CountFrom(t, p, k + 1)
  }

  /** `t.matches(p).count()`; an empty needle is counted |t| + 1 times, as Rust does. */
  function CountMatches(t: string, p: string): (r: nat)
    ensures |p| == 0 ==> r == |t| + 1
  {
    CountFrom(t, p, 0)
  }

  /** For a non-empty needle the count is positive exactly when the needle occurs. */
  lemma {:induction false} CountFromPositive(t: string, p: string, k: nat)
    requires k <= |t| && |p| > 0
    ensures CountFrom(t, p, k) > 0 <==> exists i :: k <= i && OccursAt(t, p, i)
    decreases |t| - k
  {
    if k + |p| > |t| {
      assert forall i :: k <= i ==> !OccursAt(t, p, i);
    } else if t[k..k + |p|] == p {
      assert OccursAt(t, p, k);
    } else {
      CountFromPositive(t, p, k + 1);
      assert !OccursAt(t, p, k);
      assert (exists i :: k <= i && OccursAt(t, p, i)) ==> (exists i :: k + 1 <= i && OccursAt(t, p, i));
    }
  }

  lemma CountMatchesPositive(t: string, p: string)
    requires |p| > 0
    ensures CountMatches(t, p) > 0 <==> exists i :: OccursAt(t, p, i)
  {
    CountFromPositive(t, p, 0);
  }

  /** A needle that occurs at exactly one position is counted once. */
  lemma {:induction false} CountFromSingle(t: string, p: string, k: nat, i: nat)
    requires k <= i && |p| > 0 && OccursAt(t, p, i)
    requires forall j :: k <= j && OccursAt(t, p, j) ==> j == i
    ensures CountFrom(t, p, k) == 1
    decreases |t| - k
  {
    if k == i {
      assert t[k..k + |p|] == p;
      CountFromPositive(t, p, k + |p|);
    } else {
      assert t[k..k + |p|] != p by { assert !OccursAt(t, p, k); }
      CountFromSingle(t, p, k + 1, i);
    }
  }

  lemma SingleOccurrenceCountsOnce(t: string, p: string, i: nat)
    requires |p| > 0 && OccursAt(t, p, i)
    requires forall j :: OccursAt(t, p, j) ==> j == i
    ensures CountMatches(t, p) == 1
  {
    CountFromSingle(t, p, 0, i);
  }

  /** Two occurrences that do not overlap are both counted. */
  lemma {:induction false} CountFromTwo(t: string, p: string, k: nat, a: nat, b: nat)
    requires k <= a && a + |p| <= b && |p| > 0
    requires OccursAt(t, p, a) && OccursAt(t, p, b)
    ensures CountFrom(t, p, k) >= 2
    decreases |t| - k
  {
    if t[k..k + |p|] == p {
      assert OccursAt(t, p, b);
      CountFromPositive(t, p, k + |p|);
    } else {
      assert k != a;
      CountFromTwo(t, p, k + 1, a, b);
    }
  }

  lemma DisjointOccurrencesCountTwice(t: string, p: string, a: nat, b: nat)
    requires a + |p| <= b && |p| > 0
    requires OccursAt(t, p, a) && OccursAt(t, p, b)
    ensures CountMatches(t, p) >= 2
  {
    CountFromTwo(t, p, 0, a, b);
  }

  // `trim` cannot remove a prefix made of non-whitespace characters.
  lemma TrimKeepsNonSpacePrefix(t: string, p: string)
    requires StartsWith(t, p)
    requires forall j :: 0 <= j < |p| ==> !IsSpace(p[j])
    ensures StartsWith(Trim(t), p)
  {
    if |p| > 0 {
      assert TrimStart(t) == t by {
        assert t[0] == p[0];
      }
      var r := TrimEnd(t);
      assert !IsSpace(t[|p| - 1]) by { assert t[|p| - 1] == p[|p| - 1]; }
      assert |p| <= |r|;
      assert r[..|p|] == t[..|p|];
    }
  }
}
