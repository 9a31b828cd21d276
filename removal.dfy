// The span locator and deletion engine of the dead-function finder
// (`remove_unused_functions`). For each name, against the current buffer: find
// the first declaration of the name, scan forward to the first `{`, match
// braces with a depth counter, reach back to the last `/**` before the
// declaration when the trimmed text from there ends with `*/`, widen the start
// to the beginning of its line, take in the line feed right after the `}` if
// it is the next character, and splice the span out. A name whose span cannot
// be resolved leaves the buffer as it was.
module Removal {
  import opened Wrappers
  import opened Text
  import opened Declarations

  // A resolved span: the declaration match, the first `{` after it, one past
  // the `}` that closes it, the start moved back to the last `/**` when the
  // doc-block test passes, the start of that line, and the end of the cut (one
  // past the line feed right after the `}`, if that is the next character).
  datatype Span = Span(decl: Decl, open: nat, end: nat, natspecStart: nat, lineStart: nat, cut: nat)

  const DocOpen: string := "/**"
  const DocClose: string := "*/"

  /** The order of the offsets of a span inside a text of length n. */
  predicate Ordered(sp: Span, n: nat) {
    && sp.lineStart <= sp.natspecStart <= sp.decl.start
    && sp.decl.start < sp.decl.end <= sp.open < sp.end <= sp.cut <= n
  }

  /** First `{` at or after `from`, or |s| when there is none. */
  function NextOpenBrace(s: string, from: nat): (r: nat)
    requires from <= |s|
    decreases |s| - from
    ensures from <= r <= |s|
    ensures forall j :: from <= j < r ==> s[j] != '{'
    ensures r < |s| ==> s[r] == '{'
  {
    if from == |s| || s[from] == '{' then from else NextOpenBrace(s, from + 1)
  }

  function Delta(c: char): int {
    if c == '{' then 1 else if c == '}' then -1 else 0
  }

  /** The brace depth once s[open + 1..k] is read, the brace at open counting 1. */
  function Depth(s: string, open: nat, k: nat): int
    requires open < k <= |s|
    decreases k
  {
    if k == open + 1 then 1 else Depth(s, open, k - 1) + Delta(s[k - 1])
  }

  /** The first position from k on at which the depth is back at 0. */
  function CloseFrom(s: string, open: nat, k: nat): Option<nat>
    requires open < k <= |s|
    decreases |s| - k
  {
    if Depth(s, open, k) == 0 then Some(k)
    else if k == |s| then None
    else CloseFrom(s, open, k + 1)
  }

  /** One past the `}` that closes the `{` at open, if the braces ever balance. */
  function ClosingBrace(s: string, open: nat): (r: Option<nat>)
    requires open < |s|
    ensures r.Some? ==> open < r.value <= |s| && Depth(s, open, r.value) == 0
  {
    CloseFromSpec(s, open, open + 1);
    CloseFrom(s, open, open + 1)
  }

  lemma {:induction false} CloseFromSpec(s: string, open: nat, k: nat)
    requires open < k <= |s|
    requires forall j :: open < j < k ==> Depth(s, open, j) >= 1
    ensures CloseFrom(s, open, k).Some? ==>
      var e := CloseFrom(s, open, k).value;
      && k <= e <= |s| && Depth(s, open, e) == 0 && s[e - 1] == '}'
      && forall j :: open < j < e ==> Depth(s, open, j) >= 1
    ensures CloseFrom(s, open, k).None? ==> forall j :: open < j <= |s| ==> Depth(s, open, j) >= 1
    decreases |s| - k
  {
    if k > open + 1 {
      assert Depth(s, open, k) == Depth(s, open, k - 1) + Delta(s[k - 1]);
    }
    if Depth(s, open, k) != 0 {
      assert Depth(s, open, k) >= 1;
      if k < |s| {
        CloseFromSpec(s, open, k + 1);
      }
    }
  }

  /**
   The closing brace is where the depth first comes back to 0; over the
   whole body the depth stays at least 1, so nested blocks end inside the
   span. When the braces never balance, the depth stays positive to the end.
   */
  lemma ClosingBraceSpec(s: string, open: nat)
    requires open < |s|
    ensures ClosingBrace(s, open).Some? ==>
      var e := ClosingBrace(s, open).value;
      && open < e <= |s| && Depth(s, open, e) == 0 && s[e - 1] == '}'
      && forall j :: open < j < e ==> Depth(s, open, j) >= 1
    ensures ClosingBrace(s, open).None? ==> forall j :: open < j <= |s| ==> Depth(s, open, j) >= 1
  {
    CloseFromSpec(s, open, open + 1);
  }

  // Where the span starts once a preceding doc block is taken in: the last
  // "/**" before the declaration, when the trimmed text from it up to the
  // declaration starts with "/**" and ends with "*/"; otherwise the
  // declaration itself.
  function NatspecStart(s: string, start: nat): (r: nat)
    requires start <= |s|
    ensures r <= start
  {
    match RFind(s[..start], DocOpen)
    case None => start
    case Some(p) =>
      var between := Trim(s[p..start]);
      if StartsWith(between, DocOpen) && EndsWith(between, DocClose) then p else start
  }

  /** One past the last line feed before position k, or 0. */
  function LineStart(s: string, k: nat): (r: nat)
    requires k <= |s|
    ensures r <= k
  {
    match RFind(s[..k], "\n")
    case None => 0
    case Some(p) => p + 1
  }

  /** The span once the closing brace is known. */
  function SpanWithEnd(s: string, d: Decl, open: nat, e: nat): (sp: Span)
    requires d.start < d.end <= open < e <= |s|
    ensures Ordered(sp, |s|)
  {
    var ns := NatspecStart(s, d.start);
    var ls := LineStart(s, ns);
    var cut := if e < |s| && s[e] == '\n' then e + 1 else e;
    Span(d, open, e, ns, ls, cut)
  }

  /** The span from a declaration match on, if it resolves. */
  function SpanAfter(s: string, d: Decl): (r: Option<Span>)
    requires d.start < d.end <= |s|
    ensures r.Some? ==> Ordered(r.value, |s|) && r.value.decl == d
  {
    var open := NextOpenBrace(s, d.end);
    if open == |s| then None
    else match ClosingBrace(s, open)
      case None => None
      case Some(e) =>
        ClosingBraceSpec(s, open);
        Some(SpanWithEnd(s, d, open, e))
  }

  /** The span the engine removes for this name, if it resolves. */
  function LocateSpan(s: string, name: string): (r: Option<Span>)
    ensures r.Some? ==> Ordered(r.value, |s|)
  {
    match FindFrom(s, Named(name), 0)
    case None => None
    case Some(d) => SpanAfter(s, d)
  }

  /**
   The text with the span cut out: what lies before the line start and after
   the cut survives unchanged, and the result is strictly shorter.
   */
  function Excise(s: string, sp: Span): (r: string)
    requires Ordered(sp, |s|)
    ensures |r| == |s| - (sp.cut - sp.lineStart) < |s|
    ensures r[..sp.lineStart] == s[..sp.lineStart] && r[sp.lineStart..] == s[sp.cut..]
  {
    s[..sp.lineStart] + s[sp.cut..]
  }

  /**
   One removal: excise the name's span, or leave the text alone when it does
   not resolve. The text changes exactly when the span resolves, and then it
   gets shorter.
   */
  function RemoveStep(s: string, name: string): (r: string)
    ensures r != s <==> LocateSpan(s, name).Some?
    ensures LocateSpan(s, name).Some? ==> |r| < |s|
  {
    match LocateSpan(s, name)
    case None => s
    case Some(sp) => Excise(s, sp)
  }

  /** The removals applied one after another, in list order, each to the current text. */
  function RemoveAll(s: string, names: seq<string>): (r: string)
    decreases |names|
    ensures |r| <= |s|
  {
    if names == [] then s
    else RemoveStep(RemoveAll(s, names[..|names| - 1]), names[|names| - 1])
  }

  /**
   The names whose span resolved, in the order they were removed: only listed
   names, each at most as often as it is listed.
   */
  function RemovedNames(s: string, names: seq<string>): (r: seq<string>)
    decreases |names|
    ensures multiset(r) <= multiset(names)
  {
    if names == [] then []
    else
      var prefix := names[..|names| - 1];
      var last := names[|names| - 1];
      assert names == prefix + [last];
      RemovedNames(s, prefix) + if LocateSpan(RemoveAll(s, prefix), last).Some? then [last] else []
  }

  // ---------------------------------------------------------------------
  // What a removal step does.
  // ---------------------------------------------------------------------

  /**
   d is the match `find` returns for the name: a declaration of the name
   with no declaration of the name starting before it.
   */
  predicate FirstNamedMatch(s: string, name: string, d: Decl) {
    && IsDeclMatch(s, d)
    && Captured(s, d) == name
    && forall i :: 0 <= i < d.start ==> !MatchesAt(s, Named(name), i)
  }

  lemma FirstNamedMatchIsFound(s: string, name: string, d: Decl)
    ensures FindFrom(s, Named(name), 0) == Some(d) <==> FirstNamedMatch(s, name, d)
  {
    var m := FindFrom(s, Named(name), 0);
    if m == Some(d) {
      DeclAtIffMatch(s, d.start, d);
    }
    if FirstNamedMatch(s, name, d) {
      DeclAtIffMatch(s, d.start, d);
      assert MatchesAt(s, Named(name), d.start);
      DeclAtIffMatch(s, m.value.start, m.value);
    }
  }

  /** A name with no declaration in the text leaves it alone. */
  lemma UndeclaredNameUnchanged(s: string, name: string)
    requires forall i :: !MatchesAt(s, Named(name), i)
    ensures LocateSpan(s, name).None? && RemoveStep(s, name) == s
  {
  }

  /** No `{` after the first declaration of the name: the text is left alone. */
  lemma BodilessDeclarationUnchanged(s: string, name: string, d: Decl)
    requires FirstNamedMatch(s, name, d)
    requires forall j :: d.end <= j < |s| ==> s[j] != '{'
    ensures LocateSpan(s, name).None? && RemoveStep(s, name) == s
  {
    FirstNamedMatchIsFound(s, name, d);
    assert NextOpenBrace(s, d.end) == |s|;
  }

  /** The braces after the first declaration never balance: the text is left alone. */
  lemma UnbalancedBodyUnchanged(s: string, name: string, d: Decl, open: nat)
    requires FirstNamedMatch(s, name, d)
    requires d.end <= open < |s| && s[open] == '{'
    requires forall j :: d.end <= j < open ==> s[j] != '{'
    requires forall j :: open < j <= |s| ==> Depth(s, open, j) != 0
    ensures LocateSpan(s, name).None? && RemoveStep(s, name) == s
  {
    FirstNamedMatchIsFound(s, name, d);
    assert NextOpenBrace(s, d.end) == open;
    ClosingBraceSpec(s, open);
  }

  /** The pieces a resolved span is built from. */
  lemma ResolvedParts(s: string, name: string) returns (d: Decl, open: nat, e: nat)
    requires LocateSpan(s, name).Some?
    ensures FindFrom(s, Named(name), 0) == Some(d)
    ensures d.end <= open < |s| && open == NextOpenBrace(s, d.end)
    ensures ClosingBrace(s, open) == Some(e) && open < e <= |s|
    ensures LocateSpan(s, name) == Some(SpanWithEnd(s, d, open, e))
  {
    d := FindFrom(s, Named(name), 0).value;
    DeclAtSound(s, d.start);
    open := NextOpenBrace(s, d.end);
    e := ClosingBrace(s, open).value;
    ClosingBraceSpec(s, open);
  }

  /** A resolved span starts at the first declaration of the name. */
  lemma ResolvedSpanDecl(s: string, name: string)
    requires LocateSpan(s, name).Some?
    ensures FirstNamedMatch(s, name, LocateSpan(s, name).value.decl)
  {
    var d := FindFrom(s, Named(name), 0).value;
    FirstNamedMatchIsFound(s, name, d);
  }

  /**
   A resolved span covers the body: the first `{` after the declaration, the
   `}` at which the depth first returns to 0 (nested blocks end inside), and
   one line feed right after it when there is one.
   */
  lemma ResolvedSpanBody(s: string, name: string)
    requires LocateSpan(s, name).Some?
    ensures var sp := LocateSpan(s, name).value;
      && s[sp.open] == '{'
      && (forall j :: sp.decl.end <= j < sp.open ==> s[j] != '{')
      && s[sp.end - 1] == '}' && Depth(s, sp.open, sp.end) == 0
      && (forall j :: sp.open < j < sp.end ==> Depth(s, sp.open, j) >= 1)
      && sp.cut == if sp.end < |s| && s[sp.end] == '\n' then sp.end + 1 else sp.end
  {
    var d, open, e := ResolvedParts(s, name);
    SpanBody(s, d, open, e);
  }

  // The body facts of a span built from a `{` found by the forward scan and
  // the `}` found by the depth counter.
  lemma SpanBody(s: string, d: Decl, open: nat, e: nat)
    requires d.start < d.end <= open < e <= |s|
    requires open == NextOpenBrace(s, d.end) && ClosingBrace(s, open) == Some(e)
    ensures var sp := SpanWithEnd(s, d, open, e);
      && s[sp.open] == '{'
      && (forall j :: sp.decl.end <= j < sp.open ==> s[j] != '{')
      && s[sp.end - 1] == '}' && Depth(s, sp.open, sp.end) == 0
      && (forall j :: sp.open < j < sp.end ==> Depth(s, sp.open, j) >= 1)
      && sp.cut == if sp.end < |s| && s[sp.end] == '\n' then sp.end + 1 else sp.end
  {
    SpanWithEndParts(s, d, open, e);
    BraceBody(s, d.end, open, e);
  }

  // The `{` found by the forward scan and the `}` found by the depth counter.
  lemma BraceBody(s: string, from: nat, open: nat, e: nat)
    requires from <= open < |s| && open == NextOpenBrace(s, from)
    requires ClosingBrace(s, open) == Some(e)
    ensures s[open] == '{' && forall j :: from <= j < open ==> s[j] != '{'
    ensures s[e - 1] == '}' && Depth(s, open, e) == 0
    ensures forall j :: open < j < e ==> Depth(s, open, j) >= 1
  {
    ClosingBraceSpec(s, open);
  }

  lemma SpanWithEndParts(s: string, d: Decl, open: nat, e: nat)
    requires d.start < d.end <= open < e <= |s|
    ensures var sp := SpanWithEnd(s, d, open, e);
      && sp.decl == d && sp.open == open && sp.end == e
      && sp.cut == if e < |s| && s[e] == '\n' then e + 1 else e
  {
  }

  // The text from p to start is what the doc-block test accepts: a `/**`
  // opens at p, no later `/**` opens before start, and the trimmed text ends
  // with `*/`. The `*/` may close any comment, not necessarily the one opened
  // at p, so code can lie in between.
  predicate DocBlockBefore(s: string, p: nat, start: nat) {
    && p + |DocOpen| <= start <= |s|
    && OccursAt(s, DocOpen, p)
    && EndsWith(Trim(s[p..start]), DocClose)
    && forall j :: p < j && j + |DocOpen| <= start ==> !OccursAt(s, DocOpen, j)
  }

  // A resolved span starts at the beginning of a line. It reaches back past
  // the declaration only to the last `/**` before it, and only when the
  // trimmed text from there up to the declaration ends with `*/`. That `*/`
  // need not close the `/**`: see DocBlockReachesAcrossCode.
  lemma ResolvedSpanStart(s: string, name: string)
    requires LocateSpan(s, name).Some?
    ensures var sp := LocateSpan(s, name).value;
      && (sp.lineStart == 0 || s[sp.lineStart - 1] == '\n')
      && (forall j :: sp.lineStart <= j < sp.natspecStart ==> s[j] != '\n')
      && (sp.natspecStart == sp.decl.start || DocBlockBefore(s, sp.natspecStart, sp.decl.start))
  {
    var d, open, e := ResolvedParts(s, name);
    NatspecStartSpec(s, d.start);
    LineStartSpec(s, NatspecStart(s, d.start));
  }

  // The start moves back only to the last `/**` before the declaration, and
  // only when the trimmed text from there ends with `*/`. That `*/` may close
  // any comment.
  lemma NatspecStartSpec(s: string, start: nat)
    requires start <= |s|
    ensures NatspecStart(s, start) == start || DocBlockBefore(s, NatspecStart(s, start), start)
  {
    var q := RFind(s[..start], DocOpen);
    if NatspecStart(s, start) != start {
      var p := q.value;
      OccursInPrefix(s, DocOpen, start, p);
      forall j | p < j && j + |DocOpen| <= start
        ensures !OccursAt(s, DocOpen, j)
      {
        OccursInPrefix(s, DocOpen, start, j);
      }
    }
  }

  /** The line start follows the last line feed before k, or is 0 when there is none. */
  lemma LineStartSpec(s: string, k: nat)
    requires k <= |s|
    ensures var ls := LineStart(s, k);
      && (ls == 0 || s[ls - 1] == '\n')
      && forall j :: ls <= j < k ==> s[j] != '\n'
  {
    var ls := LineStart(s, k);
    var r := RFind(s[..k], "\n");
    if r.Some? {
      OccursInPrefix(s, "\n", k, r.value);
    }
    forall j | ls <= j < k
      ensures s[j] != '\n'
    {
      OccursInPrefix(s, "\n", k, j);
    }
  }

  /** An occurrence that ends by k is an occurrence in the text cut at k. */
  lemma OccursInPrefix(s: string, p: string, k: nat, j: nat)
    requires k <= |s|
    ensures j + |p| <= k ==> (OccursAt(s[..k], p, j) <==> OccursAt(s, p, j))
  {
    if j + |p| <= k {
      assert s[..k][j..j + |p|] == s[j..j + |p|];
    }
  }

  // The `/**` prefix test on the trimmed text never fails: the text starts
  // at a `/**` and trimming does not remove it. Only the `*/` suffix test
  // decides.
  lemma DocOpenTestRedundant(s: string, start: nat)
    requires start <= |s|
    ensures var q := RFind(s[..start], DocOpen);
      NatspecStart(s, start) ==
        if q.Some? && EndsWith(Trim(s[q.value..start]), DocClose) then q.value else start
  {
    var q := RFind(s[..start], DocOpen);
    if q.Some? {
      var p := q.value;
      assert s[p..start][..|DocOpen|] == s[..start][p..p + |DocOpen|];
      TrimKeepsNonSpacePrefix(s[p..start], DocOpen);
    }
  }

  // The doc-block test sees only the text from the last `/**` before the
  // declaration up to the declaration. A plain `/* ... */` comment ending
  // right before the declaration passes it, whatever lies between. In this
  // text the start computed for `b` (declared at 34) moves back to the `/**`
  // above `a` at 0.
  const AcrossCode: string := "/** A */\n" + "function a() { }\n" + "/* B */\n" + "function b() { }\n"

  lemma DocBlockReachesAcrossCode()
    ensures NatspecStart(AcrossCode, 34) == 0 && LineStart(AcrossCode, 0) == 0
  {
    AcrossCodeLastDocOpen();
    AcrossCodeTrimmed();
  }

  // Removing `b` from that text leaves nothing: its span starts at offset 0
  // and runs to the end, taking in `a` and both comments.
  lemma RemovingSecondRemovesFirst()
    ensures LocateSpan(AcrossCode, "b") == Some(Span(Decl(34, 43, 44, 45), 47, 50, 0, 0, 51))
    ensures RemoveStep(AcrossCode, "b") == ""
  {
    AcrossCodeSpanOfB();
    assert |AcrossCode| == 51;
  }

  // The span of `b`: from offset 0 to one past the line feed after its `}`.
  lemma AcrossCodeSpanOfB()
    ensures SpanAfter(AcrossCode, Decl(34, 43, 44, 45)) == Some(Span(Decl(34, 43, 44, 45), 47, 50, 0, 0, 51))
    ensures LocateSpan(AcrossCode, "b") == SpanAfter(AcrossCode, Decl(34, 43, 44, 45))
  {
    AcrossCodeFirstB();
    DocBlockReachesAcrossCode();
    AcrossCodeBraceOfB();
    AcrossCodeBodyOfB();
  }

  // The first `{` after the declaration of `b` is at 47.
  lemma AcrossCodeBraceOfB()
    ensures NextOpenBrace(AcrossCode, 45) == 47
  {
    var s := AcrossCode;
    assert s[45] == ')' && s[46] == ' ' && s[47] == '{';
  }

  // The first declaration of `b` is the one at 34.
  lemma AcrossCodeFirstB()
    ensures FindFrom(AcrossCode, Named("b"), 0) == Some(Decl(34, 43, 44, 45))
  {
    var s := AcrossCode;
    var d := Decl(34, 43, 44, 45);
    assert s[34..42] == Keyword;
    assert s[33] == '\n' && s[42] == ' ' && s[43] == 'b' && s[44] == '(';
    assert Captured(s, d) == [s[43]];
    assert IsDeclMatch(s, d);
    forall i | 0 <= i < 34
      ensures !MatchesAt(s, Named("b"), i)
    {
      AcrossCodeNoBBefore(i);
    }
    FirstNamedMatchIsFound(s, "b", d);
  }

  // Before 34 the only declaration is that of `a`.
  lemma AcrossCodeNoBBefore(i: nat)
    requires i < 34
    ensures !MatchesAt(AcrossCode, Named("b"), i)
  {
    var s := AcrossCode;
    if i == 9 {
      assert s[17] == ' ' && s[18] == 'a' && s[19] == '(';
      assert SpaceEnd(s, 17) == 18;
      assert IdentEnd(s, 18) == 19;
      assert s[18..19] == "a";
    } else {
      assert s[i] != 'f';
      NoKeywordAt(s, i);
    }
  }

  // The body of `b` closes at 50, one past its `}`.
  lemma AcrossCodeBodyOfB()
    ensures ClosingBrace(AcrossCode, 47) == Some(50)
    ensures |AcrossCode| == 51 && AcrossCode[50] == '\n'
  {
    var s := AcrossCode;
    assert s[47] == '{' && s[48] == ' ' && s[49] == '}';
    assert Depth(s, 47, 49) == 1;
    assert Depth(s, 47, 50) == 0;
    assert CloseFrom(s, 47, 48) == CloseFrom(s, 47, 49) == CloseFrom(s, 47, 50) == Some(50);
  }

  // The last `/**` before `b` is the one above `a`.
  lemma AcrossCodeLastDocOpen()
    ensures RFind(AcrossCode[..34], DocOpen) == Some(0)
  {
    var s := AcrossCode;
    assert s[0] == '/' && s[1] == '*' && s[2] == '*';
    var t := s[..34];
    DocOpenAt(t, 0);
    forall j | 0 < j <= 31
      ensures !OccursAt(t, DocOpen, j)
    {
      DocOpenAt(t, j);
      assert t[j] == s[j];
    }
  }

  // The trimmed text from there to `b` ends with the comment's `*/`.
  lemma AcrossCodeTrimmed()
    ensures var between := Trim(AcrossCode[0..34]);
      StartsWith(between, DocOpen) && EndsWith(between, DocClose)
  {
    var s := AcrossCode;
    assert s[0] == '/' && s[1] == '*' && s[2] == '*';
    assert s[31] == '*' && s[32] == '/' && s[33] == '\n';
    var t := s[0..34];
    TrimDropsLastSpace(t);
    assert t[..33][31..33] == DocClose;
    assert t[..33][..3] == DocOpen;
  }

  // Trimming a text that ends in one whitespace character after a
  // non-whitespace one, and starts with a non-whitespace one, drops only that
  // last character.
  lemma TrimDropsLastSpace(t: string)
    requires |t| >= 2 && !IsSpace(t[0]) && !IsSpace(t[|t| - 2]) && IsSpace(t[|t| - 1])
    ensures Trim(t) == t[..|t| - 1]
  {
    assert TrimStart(t) == t;
    assert TrimEnd(t) == TrimEnd(t[..|t| - 1]);
    assert TrimEnd(t[..|t| - 1]) == t[..|t| - 1];
  }

  /** The doc-block opening marker, character by character. */
  lemma DocOpenAt(t: string, j: nat)
    ensures OccursAt(t, DocOpen, j) <==> j + 3 <= |t| && t[j] == '/' && t[j + 1] == '*' && t[j + 2] == '*'
  {
    if j + 3 <= |t| {
      assert t[j..j + 3] == [t[j], t[j + 1], t[j + 2]];
    }
  }

  /**
   Removing a function whose declaration is the only occurrence of its name
   (the count `vacuum` reports as 1) leaves no occurrence of the name in the
   text: it is then counted 0 and no longer extracted.
   */
  lemma RemovedNameGone(s: string, name: string)
    requires CountMatches(s, name) == 1
    requires LocateSpan(s, name).Some?
    ensures forall i :: !OccursAt(RemoveStep(s, name), name, i)
    ensures CountMatches(RemoveStep(s, name), name) == 0
    ensures name !in ExtractFunctions(RemoveStep(s, name))
  {
    var d := LocateSpan(s, name).value.decl;
    ResolvedSpanDecl(s, name);
    CapturedIsIdentifier(s, d);
    OnlyOccurrenceIsDecl(s, name, d);
    StepRemovesSoleOccurrence(s, name);
    var r := RemoveStep(s, name);
    CountMatchesPositive(r, name);
    AbsentNameNotExtracted(r, name);
  }

  /** A declared name counted once occurs nowhere but in its declaration. */
  lemma OnlyOccurrenceIsDecl(s: string, name: string, d: Decl)
    requires CountMatches(s, name) == 1
    requires IsDeclMatch(s, d) && Captured(s, d) == name && IsIdentifier(name)
    ensures forall j :: OccursAt(s, name, j) ==> j == d.nameStart
  {
    var i0 := d.nameStart;
    assert OccursAt(s, name, i0);
    assert 0 < i0 && !IsWordChar(s[i0 - 1]);
    assert i0 + |name| < |s| && !IsWordChar(s[i0 + |name|]);
    forall j: nat | OccursAt(s, name, j)
      ensures j == i0
    {
      if j != i0 {
        WordOccurrencesApart(s, name, i0, j);
        if j < i0 {
          DisjointOccurrencesCountTwice(s, name, j, i0);
        } else {
          DisjointOccurrencesCountTwice(s, name, i0, j);
        }
      }
    }
  }

  /**
   An occurrence of an identifier delimited by non-word characters on both
   sides shares no position with any other occurrence of it.
   */
  lemma WordOccurrencesApart(s: string, name: string, i0: nat, j: nat)
    requires IsIdentifier(name) && OccursAt(s, name, i0) && OccursAt(s, name, j) && j != i0
    requires 0 < i0 && !IsWordChar(s[i0 - 1])
    requires i0 + |name| < |s| && !IsWordChar(s[i0 + |name|])
    ensures j + |name| <= i0 || i0 + |name| <= j
  {
    IdentifierOccurrence(s, name, j);
  }

  /** An identifier occurs only over word characters. */
  lemma IdentifierOccurrence(s: string, name: string, j: nat)
    requires IsIdentifier(name) && OccursAt(s, name, j)
    ensures forall m :: j <= m < j + |name| ==> IsWordChar(s[m])
  {
    forall m | j <= m < j + |name|
      ensures IsWordChar(s[m])
    {
      assert s[m] == name[m - j];
    }
  }

  /**
   Excision creates no identifier occurrence: each occurrence in the result
   is one of the text's, either before the line start or moved back from
   after the cut. No identifier spans the join, which follows a line feed.
   */
  lemma ExcisedOccurrenceOrigin(s: string, sp: Span, n: string, i: nat) returns (j: nat)
    requires Ordered(sp, |s|) && IsIdentifier(n)
    requires sp.lineStart == 0 || s[sp.lineStart - 1] == '\n'
    requires OccursAt(Excise(s, sp), n, i)
    ensures OccursAt(s, n, j)
    ensures (i + |n| <= sp.lineStart && j == i) || (sp.lineStart <= i && j == i + (sp.cut - sp.lineStart))
  {
    var r := Excise(s, sp);
    var ls, cut := sp.lineStart, sp.cut;
    IdentifierOccurrence(r, n, i);
    if ls > 0 {
      assert r[ls - 1] == s[ls - 1];
    }
    if ls <= i {
      j := i + (cut - ls);
      ExciseSliceAfter(s, sp, i - ls, |n|);
    } else {
      assert i + |n| <= ls;
      ExciseSliceBefore(s, sp, i, |n|);
      j := i;
    }
  }

  // A stretch of the joined text after the line start is the stretch of the
  // text the same distance after the cut.
  lemma ExciseSliceAfter(s: string, sp: Span, a: nat, k: nat)
    requires Ordered(sp, |s|) && sp.lineStart + a + k <= |Excise(s, sp)|
    ensures Excise(s, sp)[sp.lineStart + a..sp.lineStart + a + k] == s[sp.cut + a..sp.cut + a + k]
  {
    var r := Excise(s, sp);
    SliceOfSuffix(r, sp.lineStart, a, k);
    SliceOfSuffix(s, sp.cut, a, k);
  }

  // A stretch of the joined text before the line start is unchanged.
  lemma ExciseSliceBefore(s: string, sp: Span, i: nat, k: nat)
    requires Ordered(sp, |s|) && i + k <= sp.lineStart
    ensures Excise(s, sp)[i..i + k] == s[i..i + k]
  {
    var r := Excise(s, sp);
    assert r[..sp.lineStart][i..i + k] == r[i..i + k];
    assert s[..sp.lineStart][i..i + k] == s[i..i + k];
  }

  lemma SliceOfSuffix(t: string, m: nat, a: nat, k: nat)
    requires m + a + k <= |t|
    ensures t[m..][a..a + k] == t[m + a..m + a + k]
  {
  }

  /** The joined text has no occurrence of a name whose only occurrences were cut out. */
  lemma NoOccurrenceAfterCut(s: string, name: string, sp: Span, i: nat)
    requires Ordered(sp, |s|) && IsIdentifier(name)
    requires sp.lineStart == 0 || s[sp.lineStart - 1] == '\n'
    requires forall j: nat :: OccursAt(s, name, j) ==> sp.lineStart <= j && j + |name| <= sp.cut
    ensures !OccursAt(Excise(s, sp), name, i)
  {
    if OccursAt(Excise(s, sp), name, i) {
      var j := ExcisedOccurrenceOrigin(s, sp, name, i);
    }
  }

  /** n occurs at no position of t. */
  ghost predicate Absent(t: string, n: string) {
    forall i: nat :: !OccursAt(t, n, i)
  }

  /** n occurs at most at one position of t. */
  ghost predicate AtMostOnce(t: string, n: string) {
    forall i: nat, j: nat :: OccursAt(t, n, i) && OccursAt(t, n, j) ==> i == j
  }

  /** A step never makes an identifier occur more often. */
  lemma StepKeepsAtMostOnce(s: string, name: string, n: string)
    requires IsIdentifier(n) && AtMostOnce(s, n)
    ensures AtMostOnce(RemoveStep(s, name), n)
  {
    if LocateSpan(s, name).Some? {
      ResolvedSpanStart(s, name);
      ExciseKeepsAtMostOnce(s, LocateSpan(s, name).value, n);
    }
  }

  /** Cutting a span out at a line start never makes an identifier occur more often. */
  lemma ExciseKeepsAtMostOnce(s: string, sp: Span, n: string)
    requires Ordered(sp, |s|) && IsIdentifier(n) && AtMostOnce(s, n)
    requires sp.lineStart == 0 || s[sp.lineStart - 1] == '\n'
    ensures AtMostOnce(Excise(s, sp), n)
  {
    forall i: nat, i': nat | OccursAt(Excise(s, sp), n, i) && OccursAt(Excise(s, sp), n, i')
      ensures i == i'
    {
      var j := ExcisedOccurrenceOrigin(s, sp, n, i);
      var j' := ExcisedOccurrenceOrigin(s, sp, n, i');
    }
  }

  /** A step never brings back an identifier that does not occur. */
  lemma StepKeepsAbsent(s: string, name: string, n: string)
    requires IsIdentifier(n) && Absent(s, n)
    ensures Absent(RemoveStep(s, name), n)
  {
    if LocateSpan(s, name).Some? {
      ResolvedSpanStart(s, name);
      ExciseKeepsAbsent(s, LocateSpan(s, name).value, n);
    }
  }

  /** Cutting a span out at a line start never makes an identifier occur. */
  lemma ExciseKeepsAbsent(s: string, sp: Span, n: string)
    requires Ordered(sp, |s|) && IsIdentifier(n) && Absent(s, n)
    requires sp.lineStart == 0 || s[sp.lineStart - 1] == '\n'
    ensures Absent(Excise(s, sp), n)
  {
    forall i: nat | OccursAt(Excise(s, sp), n, i)
      ensures false
    {
      var j := ExcisedOccurrenceOrigin(s, sp, n, i);
    }
  }

  /** Removing a name that occurs only once, in its declaration, leaves it occurring nowhere. */
  lemma StepRemovesSoleOccurrence(s: string, name: string)
    requires AtMostOnce(s, name) && LocateSpan(s, name).Some?
    ensures Absent(RemoveStep(s, name), name)
  {
    var sp := LocateSpan(s, name).value;
    var d := sp.decl;
    ResolvedSpanDecl(s, name);
    ResolvedSpanStart(s, name);
    CapturedIsIdentifier(s, d);
    assert OccursAt(s, name, d.nameStart);
    assert d.nameEnd - d.nameStart == |name|;
    var r := RemoveStep(s, name);
    assert r == Excise(s, sp);
    forall i: nat
      ensures !OccursAt(r, name, i)
    {
      NoOccurrenceAfterCut(s, name, sp, i);
    }
  }

  // ---------------------------------------------------------------------
  // What the whole removal pass does.
  // ---------------------------------------------------------------------

  /** Every reported removal shortens the text; with none the text is unchanged. */
  lemma {:induction false} RemoveAllShrinks(s: string, names: seq<string>)
    ensures |RemoveAll(s, names)| + |RemovedNames(s, names)| <= |s|
    ensures RemovedNames(s, names) == [] ==> RemoveAll(s, names) == s
    decreases |names|
  {
    if names != [] {
      var prefix := names[..|names| - 1];
      RemoveAllShrinks(s, prefix);
    }
  }

  /** The written text differs from the buffer read exactly when some removal was announced. */
  lemma RemoveAllUnchangedIff(s: string, names: seq<string>)
    ensures RemoveAll(s, names) == s <==> RemovedNames(s, names) == []
  {
    RemoveAllShrinks(s, names);
  }

  // ---------------------------------------------------------------------
  // The engine as the source runs it: index loops over the current buffer.
  // ---------------------------------------------------------------------

  /** The scan for the opening brace after the declaration. */
  method SkipToBrace(content: string, from: nat) returns (pos: nat)
    requires from <= |content|
    ensures pos == NextOpenBrace(content, from)
  {
    pos := from;
    while pos < |content| && content[pos] != '{'
      invariant from <= pos <= |content|
      invariant NextOpenBrace(content, pos) == NextOpenBrace(content, from)
      decreases |content| - pos
    {
      pos := pos + 1;
    }
  }

  /** The brace counter: one past the matching `}`, or None when the text ends first. */
  method MatchBraces(content: string, open: nat) returns (close: Option<nat>)
    requires open < |content|
    ensures close == ClosingBrace(content, open)
  {
    var depth := 1;
    var pos := open + 1;
    while depth > 0 && pos < |content|
      invariant open < pos <= |content|
      invariant depth == Depth(content, open, pos) && depth >= 0
      invariant CloseFrom(content, open, pos) == ClosingBrace(content, open)
      decreases |content| - pos
    {
      if content[pos] == '{' {
        depth := depth + 1;
      } else if content[pos] == '}' {
        depth := depth - 1;
      }
      pos := pos + 1;
    }
    close := if depth == 0 then Some(pos) else None;
  }

  /** Locate the span of one name in the current buffer. */
  method FindSpan(content: string, name: string) returns (span: Option<Span>)
    ensures span == LocateSpan(content, name)
  {
    var m := FindFrom(content, Named(name), 0);
    if m.None? {
      return None;
    }
    var d := m.value;
    assert LocateSpan(content, name) == SpanAfter(content, d);
    var open := SkipToBrace(content, d.end);
    if open == |content| {
      return None;
    }
    var close := MatchBraces(content, open);
    if close.None? {
      return None;
    }
    var e := close.value;
    assert d.start < d.end <= open < e <= |content|;
    var ns := NatspecStart(content, d.start);
    var ls := LineStart(content, ns);
    var cut := if e < |content| && content[e] == '\n' then e + 1 else e;
    ghost var spec := SpanWithEnd(content, d, open, e);
    assert spec.natspecStart == ns && spec.lineStart == ls && spec.cut == cut;
    span := Some(Span(d, open, e, ns, ls, cut));
  }

  /**
   `remove_unused_functions` on a buffer: apply each removal in list order
   to the current buffer. Returns the text written back and the names
   announced as removed.
   */
  method RemoveUnusedFunctions(content: string, unused: seq<string>) returns (result: string, removed: seq<string>)
    ensures result == RemoveAll(content, unused)
    ensures removed == RemovedNames(content, unused)
  {
    result, removed := content, [];
    for i := 0 to |unused|
      invariant result == RemoveAll(content, unused[..i])
      invariant removed == RemovedNames(content, unused[..i])
    {
      assert unused[..i + 1][..i] == unused[..i];
      var span := FindSpan(result, unused[i]);
      if span.Some? {
        var sp := span.value;
        result := result[..sp.lineStart] + result[sp.cut..];
        removed := removed + [unused[i]];
      }
    }
    assert unused[..|unused|] == unused;
  }

  /** No step of the pass makes an identifier occur more often. */
  lemma {:induction false} RemoveAllKeepsAtMostOnce(s: string, names: seq<string>, n: string)
    requires IsIdentifier(n) && AtMostOnce(s, n)
    ensures AtMostOnce(RemoveAll(s, names), n)
    decreases |names|
  {
    if names != [] {
      RemoveAllKeepsAtMostOnce(s, names[..|names| - 1], n);
      StepKeepsAtMostOnce(RemoveAll(s, names[..|names| - 1]), names[|names| - 1], n);
    }
  }

  /**
   Every announced name that occurred only once in the original buffer, in
   its declaration, occurs nowhere in the text written back: later
   removals never bring it back.
   */
  lemma {:induction false} RemovedSoleNamesGone(s: string, names: seq<string>, n: string)
    requires IsIdentifier(n) && AtMostOnce(s, n)
    requires n in RemovedNames(s, names)
    ensures Absent(RemoveAll(s, names), n)
    decreases |names|
  {
    var prefix, last := names[..|names| - 1], names[|names| - 1];
    var t := RemoveAll(s, prefix);
    if n in RemovedNames(s, prefix) {
      RemovedSoleNamesGone(s, prefix, n);
      StepKeepsAbsent(t, last, n);
    } else {
      RemoveAllKeepsAtMostOnce(s, prefix, n);
      StepRemovesSoleOccurrence(t, n);
    }
  }
}
