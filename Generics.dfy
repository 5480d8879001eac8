// The generic-argument normaliser of extractFieldsFromBaseClass
// (src/extension.ts:105-107): every match of /<\s*([\w<, >]+)\s*>/g is
// replaced by `<` + (the match with /\s*,\s*/g replaced by ",") + `>`.
// The callback receives the whole match, brackets included, so a rewritten
// span keeps its own brackets and gains one more on each side.

module Generics {
  import opened Text
  import opened Options
  import opened Regex

  // /\s*,\s*/
  const CommaPat: Pattern := [Rep(Space, 0), Lit(","), Rep(Space, 0)]

  // /<\s*([\w<, >]+)\s*>/
  const GenericPat: Pattern := [Lit("<"), Rep(Space, 0), Rep(GenericArg, 1), Rep(Space, 0), Lit(">")]

  /** No whitespace character stands directly before or after a comma. */
  predicate NoSpaceByComma(r: string)
  {
    forall i :: 0 < i < |r| ==> !(IsSpace(r[i - 1]) && r[i] == ',') && !(r[i - 1] == ',' && IsSpace(r[i]))
  }

  /** The comma pattern matches at `j` exactly when the whitespace run from `j`
      is followed by a comma, and the match then swallows the whitespace after it. */
  lemma CommaMatchAt(t: string, j: nat)
    requires j <= |t|
    ensures var w := Run(Space, t, j);
      Match(CommaPat, t, j).Some? <==> (j + w < |t| && t[j + w] == ',')
    ensures var w := Run(Space, t, j);
      Match(CommaPat, t, j).Some? ==>
        |Match(CommaPat, t, j).value| == 3 && Match(CommaPat, t, j).value[0] == j + w
        && Match(CommaPat, t, j).value[2] == j + w + 1 + Run(Space, t, j + w + 1)
  {
    var w := Run(Space, t, j);
    if j + w < |t| && t[j + w] == ',' {
      CommaComplete(t, j);
    }
    if Match(CommaPat, t, j).Some? {
      CommaSound(t, j);
    }
  }

  lemma CommaComplete(t: string, j: nat)
    requires j <= |t|
    requires j + Run(Space, t, j) < |t| && t[j + Run(Space, t, j)] == ','
    ensures Match(CommaPat, t, j).Some?
  {
    var w := Run(Space, t, j);
    var e := [j + w, j + w + 1, j + w + 1];
    assert t[j + w..j + w + 1] == ",";
    assert Fits([], t, j + w + 1, []);
    assert Fits([Rep(Space, 0)], t, j + w + 1, [j + w + 1]);
    assert Fits([Lit(","), Rep(Space, 0)], t, j + w, e[1..]);
    assert CommaPat[1..] == [Lit(","), Rep(Space, 0)];
    MatchComplete(CommaPat, t, j, e);
  }

  lemma CommaSound(t: string, j: nat)
    requires j <= |t| && Match(CommaPat, t, j).Some?
    ensures var w := Run(Space, t, j);
      j + w < |t| && t[j + w] == ',' && |Match(CommaPat, t, j).value| == 3
      && Match(CommaPat, t, j).value[0] == j + w
      && Match(CommaPat, t, j).value[2] == j + w + 1 + Run(Space, t, j + w + 1)
  {
    var e := Match(CommaPat, t, j).value;
    MatchEndsGreedy(CommaPat, t, j);
    assert CommaPat[2].cls == Space && Start(j, e, 2) == e[1];
    CommaFits(t, j, e);
    CommaEnds(t, j, e);
  }

  lemma CommaEnds(t: string, j: nat, e: seq<nat>)
    requires j <= |t| && |e| == 3 && e[0] == j + Run(Space, t, j) && e[0] < |t| && t[e[0]] == ','
    requires e[1] == e[0] + 1 && e[1] <= |t| && e[2] == e[1] + Run(Space, t, e[1])
    ensures var w := Run(Space, t, j);
      j + w < |t| && t[j + w] == ',' && e[0] == j + w && e[2] == j + w + 1 + Run(Space, t, j + w + 1)
  {
    RunFrom(t, e[1], j + Run(Space, t, j) + 1);
  }

  lemma RunFrom(t: string, a: nat, b: nat)
    requires a == b <= |t|
    ensures a + Run(Space, t, a) == b + Run(Space, t, b)
  {
  }

  lemma CommaFits(t: string, j: nat, e: seq<nat>)
    requires Fits(CommaPat, t, j, e)
    ensures e[0] == j + Run(Space, t, j) && e[0] < |t| && t[e[0]] == ',' && e[1] == e[0] + 1
  {
    assert AllIn(Space, t[j..e[0]]);
    assert Fits([Lit(","), Rep(Space, 0)], t, e[0], e[1..]);
    assert t[e[0]..e[1]] == ",";
    assert t[e[0]] == ',';
    RunExact(Space, t, j, e[0] - j);
  }

  // Where the match of /\s*,\s*/ that starts at `j` ends, if there is one:
  // the whitespace run from `j`, a comma, and the whitespace run after it.
  function CommaEnd(t: string, j: nat): (r: Option<nat>)
    requires j <= |t|
    ensures r.Some? ==> j < r.value <= |t|
  {
    var w := Run(Space, t, j);
    if j + w < |t| && t[j + w] == ',' then Some(j + w + 1 + Run(Space, t, j + w + 1)) else None
  }

  /** CommaEnd is exactly where the backtracking matcher ends the comma pattern. */
  lemma CommaEndIsMatch(t: string, j: nat)
    requires j <= |t|
    ensures CommaEnd(t, j).Some? <==> Match(CommaPat, t, j).Some?
    ensures CommaEnd(t, j).Some? ==>
      |Match(CommaPat, t, j).value| == 3 && CommaEnd(t, j).value == Match(CommaPat, t, j).value[2]
  {
    CommaMatchAt(t, j);
  }

  // `t.replace(/\s*,\s*/g, ',')`, scanning from position `j`: at each position
  // either a match starts (CommaEndIsMatch) and becomes one comma, or the
  // character is copied.
  function CollapseFrom(t: string, j: nat): string
    requires j <= |t|
    decreases |t| - j
  {
    if j == |t| then []
    else match CommaEnd(t, j)
      case Some(e) => [','] + CollapseFrom(t, e)
      case None => [t[j]] + CollapseFrom(t, j + 1)
  }

  function Collapse(t: string): string
  {
    CollapseFrom(t, 0)
  }

  /** The first character of the collapsed text: a comma exactly where a match starts. */
  lemma CollapseHead(t: string, j: nat)
    requires j < |t|
    ensures CollapseFrom(t, j) != []
    ensures CollapseFrom(t, j)[0] == ',' <==> CommaEnd(t, j).Some?
    ensures CommaEnd(t, j).None? ==> CollapseFrom(t, j)[0] == t[j]
  {
    if t[j] == ',' {
      assert Run(Space, t, j) == 0;
    }
  }

  lemma NoSpaceByCommaCons(c: char, r: string)
    requires NoSpaceByComma(r)
    requires r != [] ==> !(IsSpace(c) && r[0] == ',') && !(c == ',' && IsSpace(r[0]))
    ensures NoSpaceByComma([c] + r)
  {
    var x := [c] + r;
    forall i | 0 < i < |x|
      ensures !(IsSpace(x[i - 1]) && x[i] == ',') && !(x[i - 1] == ',' && IsSpace(x[i]))
    {
      if i > 1 {
        assert x[i - 1] == r[i - 2] && x[i] == r[i - 1];
      }
    }
  }

  /** The collapsed text has no whitespace next to a comma. */
  lemma {:induction false} CollapseNoSpaceByComma(t: string, j: nat)
    requires j <= |t|
    ensures NoSpaceByComma(CollapseFrom(t, j))
    decreases |t| - j
  {
    if j < |t| {
      match CommaEnd(t, j)
      case Some(e) =>
        CollapseNoSpaceByComma(t, e);
        CollapseCommaStep(t, j, e);
      case None =>
        CollapseNoSpaceByComma(t, j + 1);
        CollapseKeptStep(t, j);
    }
  }

  lemma CollapseCommaStep(t: string, j: nat, e: nat)
    requires j < |t| && CommaEnd(t, j) == Some(e)
    requires NoSpaceByComma(CollapseFrom(t, e))
    ensures NoSpaceByComma(CollapseFrom(t, j))
  {
    var r := CollapseFrom(t, e);
    assert CollapseFrom(t, j) == [','] + r;
    CommaEndStops(t, j);
    if e < |t| {
      CollapseHead(t, e);
    }
    NoSpaceByCommaCons(',', r);
  }

  /** A comma match stops at the end of the text or before a non-whitespace character. */
  lemma CommaEndStops(t: string, j: nat)
    requires j <= |t| && CommaEnd(t, j).Some?
    ensures CommaEnd(t, j).value == |t| || !IsSpace(t[CommaEnd(t, j).value])
  {
    var m := j + Run(Space, t, j) + 1;
    RunFrom(t, CommaEnd(t, j).value - Run(Space, t, m), m);
  }

  lemma CollapseKeptStep(t: string, j: nat)
    requires j < |t| && CommaEnd(t, j).None?
    requires NoSpaceByComma(CollapseFrom(t, j + 1))
    ensures NoSpaceByComma(CollapseFrom(t, j))
  {
    var r := CollapseFrom(t, j + 1);
    assert CollapseFrom(t, j) == [t[j]] + r;
    NoCommaEndStep(t, j);
    if j + 1 < |t| {
      CollapseHead(t, j + 1);
    }
    NoSpaceByCommaCons(t[j], r);
  }

  /** Where no comma match starts, the character is not a comma, and a
      whitespace character is not followed by a comma match either. */
  lemma NoCommaEndStep(t: string, j: nat)
    requires j < |t| && CommaEnd(t, j).None?
    ensures t[j] != ','
    ensures IsSpace(t[j]) ==> CommaEnd(t, j + 1).None?
  {
    if IsSpace(t[j]) {
      var w := Run(Space, t, j + 1);
      assert Run(Space, t, j) == 1 + w;
      var x := j + 1 + w;
      assert j + Run(Space, t, j) == x;
    }
  }

  /** Collapsing keeps every non-whitespace character, in order. */
  lemma {:induction false} CollapseNonSpace(t: string, j: nat)
    requires j <= |t|
    ensures NonSpace(CollapseFrom(t, j)) == NonSpace(t[j..])
    decreases |t| - j
  {
    if j < |t| {
      match CommaEnd(t, j)
      case Some(e) =>
        CollapseNonSpace(t, e);
        CommaSpanNonSpace(t, j);
        SplitAt(t, j, e);
        NonSpaceAppend(t[j..e], t[e..]);
      case None =>
        CollapseNonSpace(t, j + 1);
        SplitAt(t, j, j + 1);
        assert t[j..j + 1] == [t[j]];
        NonSpaceAppend([t[j]], t[j + 1..]);
    }
  }

  /** A matched comma span holds no non-whitespace character but its comma. */
  lemma CommaSpanNonSpace(t: string, j: nat)
    requires j <= |t| && CommaEnd(t, j).Some?
    ensures NonSpace(t[j..CommaEnd(t, j).value]) == ","
  {
    var e := CommaEnd(t, j).value;
    var w := Run(Space, t, j);
    var d := j + w + 1;
    assert e == d + Run(Space, t, d);
    var a, b, c := t[j..j + w], t[j + w..d], t[d..e];
    assert t[j..e] == a + b + c;
    assert b == [','];
    AllInSpace(a);
    AllInSpace(c);
    NonSpaceAroundComma(a, c);
  }

  lemma NonSpaceAroundComma(a: string, c: string)
    requires AllSpace(a) && AllSpace(c)
    ensures NonSpace(a + [','] + c) == ","
  {
    NonSpaceOfSpaces(a);
    NonSpaceOfSpaces(c);
    NonSpaceAppend(a, [',']);
    assert NonSpace([',']) == [','] + NonSpace([]);
    NonSpaceAppend(a + [','], c);
  }

  /** The replacement the callback returns for a matched span `g`. */
  function Rewrite(g: string): string
  {
    "<" + Collapse(g) + ">"
  }

  /** A rewritten span: no whitespace left next to a comma, the non-whitespace
      characters kept in order, and one extra `<` in front and `>` behind. */
  lemma RewriteSpec(g: string)
    requires |g| >= 2 && g[0] == '<' && g[|g| - 1] == '>'
    ensures var r := Rewrite(g);
      |r| >= 4 && r[..2] == "<<" && r[|r| - 2..] == ">>"
      && NoSpaceByComma(r)
      && NonSpace(r) == "<" + NonSpace(g) + ">"
  {
    RewriteBrackets(g);
    RewriteNoSpaceByComma(g);
    RewriteNonSpace(g);
  }

  lemma RewriteBrackets(g: string)
    requires |g| >= 2 && g[0] == '<' && g[|g| - 1] == '>'
    ensures var c := Collapse(g);
      |c| >= 2 && c[0] == '<' && c[|c| - 1] == '>'
    ensures var r := Rewrite(g);
      |r| >= 4 && r[..2] == "<<" && r[|r| - 2..] == ">>"
  {
    var c := Collapse(g);
    CollapseHead(g, 0);
    CollapseLast(g, 0);
    assert c[0] == '<';
  }

  lemma RewriteNoSpaceByComma(g: string)
    requires |g| >= 2 && g[0] == '<' && g[|g| - 1] == '>'
    ensures NoSpaceByComma(Rewrite(g))
  {
    var c := Collapse(g);
    RewriteBrackets(g);
    CollapseNoSpaceByComma(g, 0);
    NoSpaceByCommaCons('<', c);
    NoSpaceByCommaSnoc(['<'] + c, '>');
    assert Rewrite(g) == ['<'] + c + ['>'];
  }

  lemma RewriteNonSpace(g: string)
    ensures NonSpace(Rewrite(g)) == "<" + NonSpace(g) + ">"
  {
    var c := Collapse(g);
    CollapseNonSpace(g, 0);
    assert g[0..] == g;
    assert Rewrite(g) == ['<'] + c + ['>'];
    NonSpaceAppend(['<'] + c, ['>']);
    NonSpaceAppend(['<'], c);
    assert ['<'][1..] == [] && ['>'][1..] == [];
    assert NonSpace(['<']) == ['<'];
    assert NonSpace(['>']) == ['>'];
  }

  /** If the last non-whitespace character of `c` is not a comma and `c` ends
      with it, appending a non-comma, non-whitespace character is harmless. */
  lemma NoSpaceByCommaSnoc(r: string, c: char)
    requires NoSpaceByComma(r) && c != ',' && !IsSpace(c)
    requires r != [] ==> r[|r| - 1] != ','
    ensures NoSpaceByComma(r + [c])
  {
  }

  /** A last character that is neither whitespace nor a comma survives collapsing. */
  lemma {:induction false} CollapseLast(t: string, j: nat)
    requires j < |t| && !IsSpace(t[|t| - 1]) && t[|t| - 1] != ','
    ensures CollapseFrom(t, j) != [] && CollapseFrom(t, j)[|CollapseFrom(t, j)| - 1] == t[|t| - 1]
    decreases |t| - j
  {
    match CommaEnd(t, j)
    case Some(e) =>
      assert e < |t|;
      CollapseLast(t, e);
    case None =>
      if j + 1 < |t| {
        CollapseLast(t, j + 1);
      }
  }

  // ---------------------------------------------------------------------
  // content.replace(/<\s*([\w<, >]+)\s*>/g, genericPart => `<${...}>`)

  /** The text of a matched generic span starts with `<` and ends with `>`. */
  lemma GenericShape(s: string, i: nat)
    requires i <= |s| && Match(GenericPat, s, i).Some?
    ensures var e := Match(GenericPat, s, i).value;
      |e| == 5 && i + 3 <= e[4] <= |s| && s[i] == '<' && s[e[4] - 1] == '>'
  {
    MatchSound(GenericPat, s, i);
    GenericFits(s, i, Match(GenericPat, s, i).value);
  }

  lemma GenericFits(s: string, i: nat, e: seq<nat>)
    requires Fits(GenericPat, s, i, e)
    ensures |e| == 5 && i + 3 <= e[4] <= |s| && s[i] == '<' && s[e[4] - 1] == '>'
  {
    FitsEachIff(GenericPat, s, i, e);
    assert AtomFits(Lit("<"), s[Start(i, e, 0)..e[0]]);
    assert AtomFits(Rep(GenericArg, 1), s[Start(i, e, 2)..e[2]]);
    assert AtomFits(Lit(">"), s[Start(i, e, 4)..e[4]]);
    assert s[i] == s[i..e[0]][0];
    assert s[e[4] - 1] == s[e[3]..e[4]][0];
  }

  /** A rewritable span: `<`, at least one more character, and `>`. */
  predicate Bracketed(g: string)
  {
    |g| >= 3 && g[0] == '<' && g[|g| - 1] == '>'
  }

  /** Where the generic-argument match that starts at `i` ends, if one does. */
  function GenericEnd(s: string, i: nat): (r: Option<nat>)
    requires i <= |s|
    ensures r.Some? <==> Match(GenericPat, s, i).Some?
    ensures r.Some? ==> i + 3 <= r.value <= |s| && Bracketed(s[i..r.value])
  {
    match Match(GenericPat, s, i)
    case None => None
    case Some(e) =>
      GenericShape(s, i);
      BracketedSpan(s, i, e[4]);
      Some(e[4])
  }

  lemma BracketedSpan(s: string, i: nat, n: nat)
    requires i + 3 <= n <= |s| && s[i] == '<' && s[n - 1] == '>'
    ensures Bracketed(s[i..n])
  {
    assert s[i..n][0] == s[i] && s[i..n][n - i - 1] == s[n - 1];
  }

  /** One step of the global replace: a character copied, or a matched span rewritten. */
  datatype Piece = Kept(c: char) | Rewritten(span: string)

  /** The global replace as a left-to-right sequence of pieces: at each position,
      a match is rewritten and the scan resumes after it, otherwise one
      character is kept. */
  function PiecesFrom(s: string, i: nat): (ps: seq<Piece>)
    requires i <= |s|
    decreases |s| - i
  {
    if i == |s| then []
    else match GenericEnd(s, i)
      case Some(e) => [Rewritten(s[i..e])] + PiecesFrom(s, e)
      case None => [Kept(s[i])] + PiecesFrom(s, i + 1)
  }

  /** The input text the pieces stand for. */
  function Raw(ps: seq<Piece>): string
  {
    if ps == [] then []
    else (match ps[0] case Kept(c) => [c] case Rewritten(g) => g) + Raw(ps[1..])
  }

  /** The output text: kept characters, and each span replaced by the callback's result. */
  function Render(ps: seq<Piece>): string
  {
    if ps == [] then []
    else (match ps[0] case Kept(c) => [c] case Rewritten(g) => Rewrite(g)) + Render(ps[1..])
  }

  /** The normalised text handed to the field scanner. */
  function Normalise(s: string): string
  {
    Render(PiecesFrom(s, 0))
  }

  /** Where the scan resumes after the piece that starts at `i`. */
  function Next(s: string, i: nat): (n: nat)
    requires i < |s|
    ensures i < n <= |s|
  {
    match GenericEnd(s, i)
    case Some(e) => e
    case None => i + 1
  }

  lemma PiecesStep(s: string, i: nat)
    requires i < |s|
    ensures Raw(PiecesFrom(s, i)) == s[i..Next(s, i)] + Raw(PiecesFrom(s, Next(s, i)))
  {
    var ps := PiecesFrom(s, i);
    var n := Next(s, i);
    assert ps[1..] == PiecesFrom(s, n);
    if GenericEnd(s, i).None? {
      assert s[i..n] == [s[i]];
    }
  }

  /** Every rewritten span is bracketed by `<` and `>`. */
  lemma {:induction false} PiecesBracketed(s: string, i: nat)
    requires i <= |s|
    ensures forall k :: 0 <= k < |PiecesFrom(s, i)| && PiecesFrom(s, i)[k].Rewritten? ==>
      Bracketed(PiecesFrom(s, i)[k].span)
    decreases |s| - i
  {
    if i < |s| {
      var ps := PiecesFrom(s, i);
      var n := Next(s, i);
      PiecesBracketed(s, n);
      assert ps[1..] == PiecesFrom(s, n);
      forall k | 0 <= k < |ps| && ps[k].Rewritten? ensures Bracketed(ps[k].span) {
        if k > 0 {
          assert ps[k] == ps[1..][k - 1];
        }
      }
    }
  }

  /** The pieces cover the input exactly, in order: nothing is lost or reordered. */
  lemma {:induction false} PiecesCover(s: string, i: nat)
    requires i <= |s|
    ensures Raw(PiecesFrom(s, i)) == s[i..]
    decreases |s| - i
  {
    if i < |s| {
      var n := Next(s, i);
      PiecesStep(s, i);
      PiecesCover(s, n);
      SplitAt(s, i, n);
    }
  }

  lemma SplitAt(s: string, i: nat, n: nat)
    requires i <= n <= |s|
    ensures s[i..] == s[i..n] + s[n..]
  {
  }
}
