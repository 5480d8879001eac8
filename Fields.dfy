// The field scanner of extractFieldsFromBaseClass (src/extension.ts:97-124):
// repeated `exec` of /final\s+([\w<>,\s|]+)\s+(\w+);/g over the normalised
// text, each match rendered as "final <trimmed type> <trimmed name>;".

module Fields {
  import opened Text
  import opened Regex
  import opened Generics

  // /final\s+([\w<>,\s|]+)\s+(\w+);/ -- group 1 is atom 2, group 2 is atom 4
  const FieldPat: Pattern :=
    [Lit("final"), Rep(Space, 1), Rep(FieldType, 1), Rep(Space, 1), Rep(Word, 1), Lit(";")]

  /** Start of the longest run of word characters that ends at `q`. */
  function WordStart(s: string, q: nat): (n: nat)
    requires q <= |s|
    ensures n <= q && AllWord(s[n..q]) && (n == 0 || !IsWord(s[n - 1]))
  {
    if q > 0 && IsWord(s[q - 1]) then
      var n := WordStart(s, q - 1);
      assert AllWord(s[n..q]) by {
        forall k | 0 <= k < q - n ensures IsWord(s[n..q][k]) {
          if k < q - 1 - n {
            assert s[n..q][k] == s[n..q - 1][k];
          }
        }
      }
      n
    else q
  }

  lemma {:induction false} WordStartExact(s: string, n: nat, q: nat)
    requires n <= q <= |s| && AllIn(Word, s[n..q]) && n > 0 && !IsWord(s[n - 1])
    ensures WordStart(s, q) == n
    decreases q - n
  {
    if q > n {
      assert s[n..q - 1] == s[n..q][..q - 1 - n];
      assert s[q - 1] == s[n..q][q - 1 - n];
      WordStartExact(s, n, q - 1);
    }
  }

  /** The closed form of a match at `i`: "final", a whitespace character, then
      field-type characters up to the first one that is not, which must be `;`;
      the name is the whole word run before that `;`, preceded by whitespace,
      and at least one character lies between the first whitespace and that one. */
  predicate FieldAt(s: string, i: nat)
  {
    i + 6 <= |s| && s[i..i + 5] == "final" && IsSpace(s[i + 5]) &&
    var q := i + 5 + Run(FieldType, s, i + 5);
    q < |s| && s[q] == ';' &&
    var n := WordStart(s, q);
    n < q && i + 8 <= n && IsSpace(s[n - 1])
  }

  /** The group boundaries `e` split the text at `i` into "final", whitespace,
      the type, whitespace, the name and ";", each non-empty. */
  predicate Groups(s: string, i: nat, e: seq<nat>)
  {
    |e| == 6 && e[0] == i + 5 && e[0] < e[1] < e[2] < e[3] < e[4] < e[5] <= |s|
    && s[i..i + 5] == "final"
    && AllIn(Space, s[e[0]..e[1]]) && AllIn(FieldType, s[e[1]..e[2]])
    && AllIn(Space, s[e[2]..e[3]]) && AllIn(Word, s[e[3]..e[4]])
    && e[5] == e[4] + 1 && s[e[4]] == ';'
  }

  /** What every decomposition of a match at `i` looks like. */
  lemma FieldFits(s: string, i: nat, e: seq<nat>)
    requires Fits(FieldPat, s, i, e)
    ensures Groups(s, i, e)
  {
    FitsEachIff(FieldPat, s, i, e);
    assert AtomFits(Lit("final"), s[Start(i, e, 0)..e[0]]);
    assert AtomFits(Rep(Space, 1), s[Start(i, e, 1)..e[1]]);
    assert AtomFits(Rep(FieldType, 1), s[Start(i, e, 2)..e[2]]);
    assert AtomFits(Rep(Space, 1), s[Start(i, e, 3)..e[3]]);
    assert AtomFits(Rep(Word, 1), s[Start(i, e, 4)..e[4]]);
    assert AtomFits(Lit(";"), s[Start(i, e, 5)..e[5]]);
    assert s[e[4]] == s[e[4]..e[5]][0];
  }

  /** Any decomposition pins the match to the closed form. */
  lemma FieldFitsClosedForm(s: string, i: nat, e: seq<nat>)
    requires Groups(s, i, e)
    ensures FieldAt(s, i)
    ensures e[4] == Semicolon(s, i) && e[3] == WordStart(s, e[4])
  {
    SemicolonFromGroups(s, i, e);
    NameStartFromGroups(s, i, e);
    assert InClass(Space, s[e[0]..e[1]][0]);
    assert s[i + 5] == s[e[0]..e[1]][0];
    assert InClass(Space, s[e[2]..e[3]][e[3] - 1 - e[2]]);
    assert s[e[3] - 1] == s[e[2]..e[3]][e[3] - 1 - e[2]];
  }

  /** The `;` that closes a match is the first character after "final" that is
      not a field-type character. */
  lemma SemicolonFromGroups(s: string, i: nat, e: seq<nat>)
    requires Groups(s, i, e)
    ensures e[4] == Semicolon(s, i)
  {
    var a, b, c, d := s[e[0]..e[1]], s[e[1]..e[2]], s[e[2]..e[3]], s[e[3]..e[4]];
    FieldTypeCovers(a);
    FieldTypeCovers(c);
    FieldTypeCovers(d);
    assert s[e[0]..e[2]] == a + b;
    AllInAppend(FieldType, a, b);
    assert s[e[0]..e[3]] == s[e[0]..e[2]] + c;
    AllInAppend(FieldType, s[e[0]..e[2]], c);
    assert s[e[0]..e[4]] == s[e[0]..e[3]] + d;
    AllInAppend(FieldType, s[e[0]..e[3]], d);
    RunExact(FieldType, s, e[0], e[4] - e[0]);
  }

  /** The name group is the whole word run before the `;`. */
  lemma NameStartFromGroups(s: string, i: nat, e: seq<nat>)
    requires Groups(s, i, e)
    ensures e[3] == WordStart(s, e[4])
  {
    assert s[e[2]..e[3]][e[3] - 1 - e[2]] == s[e[3] - 1];
    WordStartExact(s, e[3], e[4]);
  }

  /** The backtracking matcher succeeds at `i` exactly when the closed form holds. */
  lemma FieldMatchIff(s: string, i: nat)
    requires i <= |s|
    ensures Match(FieldPat, s, i).Some? <==> FieldAt(s, i)
  {
    if Match(FieldPat, s, i).Some? {
      FieldMatchSound(s, i);
    }
    if FieldAt(s, i) {
      FieldMatchComplete(s, i);
    }
  }

  lemma FieldMatchSound(s: string, i: nat)
    requires i <= |s| && Match(FieldPat, s, i).Some?
    ensures FieldAt(s, i)
  {
    MatchSound(FieldPat, s, i);
    FieldFits(s, i, Match(FieldPat, s, i).value);
    FieldFitsClosedForm(s, i, Match(FieldPat, s, i).value);
  }

  lemma FieldMatchComplete(s: string, i: nat)
    requires i <= |s| && FieldAt(s, i)
    ensures Match(FieldPat, s, i).Some?
  {
    var q := i + 5 + Run(FieldType, s, i + 5);
    var n := WordStart(s, q);
    var e := [i + 5, i + 6, n - 1, n, q, q + 1];
    assert i + 8 <= n < q < |s|;
    assert s[i..i + 5] == "final";
    assert s[q] == ';';
    assert AllIn(FieldType, s[i + 5..q]);
    assert AllWord(s[n..q]);
    assert IsSpace(s[i + 5]);
    assert IsSpace(s[n - 1]);
    GroupsFromParts(s, i, q, n, e);
    GroupsFit(s, i, e);
    MatchComplete(FieldPat, s, i, e);
  }

  /** The closed form yields a decomposition: one whitespace character, the
      type up to the last character before the name, that character, the name
      and the `;`. */
  lemma GroupsFromParts(s: string, i: nat, q: nat, n: nat, e: seq<nat>)
    requires i + 8 <= n < q < |s| && s[i..i + 5] == "final" && s[q] == ';'
    requires AllIn(FieldType, s[i + 5..q]) && AllWord(s[n..q])
    requires IsSpace(s[i + 5]) && IsSpace(s[n - 1])
    requires |e| == 6 && e[0] == i + 5 && e[1] == i + 6 && e[2] == n - 1 && e[3] == n
    requires e[4] == q && e[5] == q + 1
    ensures Groups(s, i, e)
  {
    AllInSub(FieldType, s, i + 5, i + 6, n - 1, q);
    SingleSpace(s, i + 5);
    SingleSpace(s, n - 1);
    AllInWord(s[n..q]);
  }

  lemma SingleSpace(s: string, j: nat)
    requires j < |s| && IsSpace(s[j])
    ensures AllIn(Space, s[j..j + 1])
  {
    assert s[j..j + 1][0] == s[j];
  }

  /** Every decomposition into the six groups fits the pattern. */
  lemma GroupsFit(s: string, i: nat, e: seq<nat>)
    requires Groups(s, i, e)
    ensures Fits(FieldPat, s, i, e)
  {
    assert s[e[4]..e[5]] == [s[e[4]]];
    assert AtomFits(FieldPat[0], s[Start(i, e, 0)..e[0]]);
    assert AtomFits(FieldPat[1], s[Start(i, e, 1)..e[1]]);
    assert AtomFits(FieldPat[2], s[Start(i, e, 2)..e[2]]);
    assert AtomFits(FieldPat[3], s[Start(i, e, 3)..e[3]]);
    assert AtomFits(FieldPat[4], s[Start(i, e, 4)..e[4]]);
    assert AtomFits(FieldPat[5], s[Start(i, e, 5)..e[5]]);
    FitsEachIff(FieldPat, s, i, e);
  }

  // ---------------------------------------------------------------------
  // One match, rendered

  /** `final ${match[1].trim()} ${match[2].trim()};` for the match at `i`. */
  function Entry(s: string, i: nat): string
  {
    // the loop only asks for it where the pattern matches; elsewhere it is empty
    if i <= |s| && Match(FieldPat, s, i).Some? then
      MatchSound(FieldPat, s, i);
      FieldFits(s, i, Match(FieldPat, s, i).value);
      Render(s, Match(FieldPat, s, i).value)
    else []
  }

  /** The entry rendered from the group boundaries `e` of a match. */
  function Render(s: string, e: seq<nat>): string
    requires |e| == 6 && e[1] <= e[2] <= e[3] <= e[4] <= |s|
  {
    "final " + Trim(s[e[1]..e[2]]) + " " + Trim(s[e[3]..e[4]]) + ";"
  }

  /** Where the `;` of a field match at `i` stands. */
  function Semicolon(s: string, i: nat): nat
    requires i + 5 <= |s|
  {
    i + 5 + Run(FieldType, s, i + 5)
  }

  /** The rendered type: everything between "final" and the name, trimmed. */
  function TypeText(s: string, i: nat): string
    requires i + 5 <= |s|
  {
    var n := WordStart(s, Semicolon(s, i));
    if i + 5 <= n then Trim(s[i + 5..n]) else []
  }

  /** The rendered name: the word run before the `;`. */
  function NameText(s: string, i: nat): string
    requires i + 5 <= |s|
  {
    s[WordStart(s, Semicolon(s, i))..Semicolon(s, i)]
  }

  lemma TrimNoSpace(x: string)
    requires forall k :: 0 <= k < |x| ==> !IsSpace(x[k])
    ensures Trim(x) == x
  {
  }

  /** The entry for a match depends only on where the match starts: whichever way
      the backtracking splits the whitespace, the trimmed type and name are the
      text between "final" and the name, and the word run before the `;`. */
  lemma EntryClosedForm(s: string, i: nat)
    requires i <= |s| && Match(FieldPat, s, i).Some?
    ensures FieldAt(s, i)
    ensures Entry(s, i) == "final " + TypeText(s, i) + " " + NameText(s, i) + ";"
    ensures Resume(FieldPat, s, i) == Semicolon(s, i) + 1
  {
    var e := Match(FieldPat, s, i).value;
    MatchSound(FieldPat, s, i);
    FieldFits(s, i, e);
    RenderClosedForm(s, i, e);
  }

  lemma RenderClosedForm(s: string, i: nat, e: seq<nat>)
    requires Groups(s, i, e)
    ensures FieldAt(s, i)
    ensures |e| == 6 && e[1] <= e[2] <= e[3] <= e[4] <= |s| && e[5] == Semicolon(s, i) + 1
    ensures Render(s, e) == "final " + TypeText(s, i) + " " + NameText(s, i) + ";"
  {
    FieldFitsClosedForm(s, i, e);
    TypeFromGroups(s, i, e);
    NameFromGroups(s, i, e);
  }

  lemma TypeFromGroups(s: string, i: nat, e: seq<nat>)
    requires Groups(s, i, e)
    ensures i + 5 <= |s| && |e| == 6 && e[1] <= e[2] <= |s|
    ensures Trim(s[e[1]..e[2]]) == TypeText(s, i)
  {
    SemicolonFromGroups(s, i, e);
    NameStartFromGroups(s, i, e);
    var a, b, c := s[e[0]..e[1]], s[e[1]..e[2]], s[e[2]..e[3]];
    AllInSpace(a);
    AllInSpace(c);
    assert s[e[0]..e[2]] == a + b;
    assert s[e[0]..e[3]] == s[e[0]..e[2]] + c;
    assert TypeText(s, i) == Trim(s[e[0]..e[3]]);
    TrimPadded(a, b, c);
  }

  lemma NameFromGroups(s: string, i: nat, e: seq<nat>)
    requires Groups(s, i, e)
    ensures i + 5 <= |s| && |e| == 6 && e[3] <= e[4] <= |s|
    ensures Trim(s[e[3]..e[4]]) == NameText(s, i)
  {
    SemicolonFromGroups(s, i, e);
    NameStartFromGroups(s, i, e);
    var d := s[e[3]..e[4]];
    assert AllIn(Word, d);
    assert forall k :: 0 <= k < |d| ==> !IsSpace(d[k]) by {
      forall k | 0 <= k < |d| ensures !IsSpace(d[k]) {
        assert InClass(Word, d[k]);
      }
    }
    TrimNoSpace(d);
  }

  /** Shape of every entry: "final " + T + " " + N + ";" where N is a non-empty
      run of word characters and T is trimmed and drawn from [\w<>,\s|]. */
  lemma EntryShape(s: string, i: nat)
    requires i <= |s| && Match(FieldPat, s, i).Some?
    ensures i + 5 <= |s|
    ensures Entry(s, i) == "final " + TypeText(s, i) + " " + NameText(s, i) + ";"
    ensures NameText(s, i) != [] && AllWord(NameText(s, i))
    ensures AllIn(FieldType, TypeText(s, i))
    ensures var t := TypeText(s, i); t == [] || (!IsSpace(t[0]) && !IsSpace(t[|t| - 1]))
  {
    EntryClosedForm(s, i);
    TypeTextShape(s, i);
    var q := Semicolon(s, i);
    assert AllWord(s[WordStart(s, q)..q]);
  }

  lemma TypeTextShape(s: string, i: nat)
    requires i + 5 <= |s|
    ensures AllIn(FieldType, TypeText(s, i))
    ensures var t := TypeText(s, i); t == [] || (!IsSpace(t[0]) && !IsSpace(t[|t| - 1]))
  {
    var q := Semicolon(s, i);
    var n := WordStart(s, q);
    if i + 5 <= n {
      var x := s[i + 5..n];
      AllInSub(FieldType, s, i + 5, i + 5, n, q);
      AllInTrim(FieldType, x);
      TrimIsInfix(x);
    }
  }

  lemma AllInTrim(k: Class, x: string)
    requires AllIn(k, x)
    ensures AllIn(k, Trim(x))
  {
    var t := TrimStart(x);
    TrimStartSpec(x);
    assert x[0..|x|] == x;
    AllInSub(k, x, 0, |x| - |t|, |x|, |x|);
    assert t == x[|x| - |t|..|x|];
    var r := TrimEnd(t);
    TrimEndSpec(t);
    assert t[0..|t|] == t;
    AllInSub(k, t, 0, 0, |r|, |t|);
    assert r == t[0..|r|];
  }

  // ---------------------------------------------------------------------
  // The exec loop

  /** Every match ends just after its `;`, so the `exec` loop moves forward. */
  lemma FieldAdvances(s: string)
    ensures Advances(FieldPat, s)
  {
    forall j | 0 <= j <= |s| && Match(FieldPat, s, j).Some?
      ensures j < Resume(FieldPat, s, j) <= |s|
    {
      EntryClosedForm(s, j);
    }
  }

  /** The entry of each match, in order. */
  function Entries(s: string, hs: seq<nat>): (r: seq<string>)
    ensures |r| == |hs|
  {
    if hs == [] then [] else [Entry(s, hs[0])] + Entries(s, hs[1..])
  }

  lemma {:induction false} EntriesIndex(s: string, hs: seq<nat>, k: nat)
    requires k < |hs|
    ensures Entries(s, hs)[k] == Entry(s, hs[k])
  {
    if k > 0 {
      EntriesIndex(s, hs[1..], k - 1);
    }
  }

  lemma {:induction false} EntriesSnoc(s: string, hs: seq<nat>, i: nat)
    ensures Entries(s, hs + [i]) == Entries(s, hs) + [Entry(s, i)]
  {
    if hs != [] {
      assert (hs + [i])[1..] == hs[1..] + [i];
      EntriesSnoc(s, hs[1..], i);
    } else {
      assert hs + [i] == [i];
    }
  }

  /** The fields extracted from a (normalised) text: one entry per match the
      `exec` loop finds, in the order it finds them. */
  function Extracted(s: string): seq<string>
  {
    FieldAdvances(s);
    Entries(s, Exec(FieldPat, s, 0))
  }

  /** extractFieldsFromBaseClass after the file has been read: normalise the
      generic arguments, then run the global regular expression's `exec` until
      it fails, pushing one rendered entry per match. */
  method ExtractFieldsFromBaseClass(content: string) returns (fields: seq<string>)
    ensures fields == Extracted(Normalise(content))
  {
    var filter := Normalise(content);
    FieldAdvances(filter);
    fields := [];
    var lastIndex := 0;
    ghost var found: seq<nat> := [];
    var m := Search(FieldPat, filter, lastIndex);
    while m.Some?
      invariant lastIndex <= |filter| && m == Search(FieldPat, filter, lastIndex)
      invariant found + Exec(FieldPat, filter, lastIndex) == Exec(FieldPat, filter, 0)
      invariant fields == Entries(filter, found)
      decreases |filter| - lastIndex
    {
      var i := m.value;
      var next := Resume(FieldPat, filter, i);
      assert Exec(FieldPat, filter, lastIndex) == [i] + Exec(FieldPat, filter, next);
      SnocAssoc(found, i, Exec(FieldPat, filter, next));
      EntriesSnoc(filter, found, i);
      fields := fields + [Entry(filter, i)];
      found := found + [i];
      lastIndex := next;
      m := Search(FieldPat, filter, lastIndex);
    }
    assert Exec(FieldPat, filter, lastIndex) == [];
    assert found + [] == found;
  }

  lemma SnocAssoc(a: seq<nat>, i: nat, b: seq<nat>)
    ensures a + [i] + b == a + ([i] + b)
  {
  }

  /** Each extracted entry is "final " + T + " " + N + ";" for a declaration the
      closed form recognises, with T the trimmed text between "final" and the
      name and N the word run before the `;`. */
  lemma ExtractedEntries(s: string, k: nat)
    requires k < |Extracted(s)|
    ensures Advances(FieldPat, s) && k < |Exec(FieldPat, s, 0)|
    ensures FieldAt(s, Exec(FieldPat, s, 0)[k])
    ensures Extracted(s)[k] == EntryAt(s, Exec(FieldPat, s, 0)[k])
  {
    FieldAdvances(s);
    EntriesIndex(s, Exec(FieldPat, s, 0), k);
    EntryClosedForm(s, Exec(FieldPat, s, 0)[k]);
  }

  /** The shape of every extracted field: "final " + T + " " + N + ";" with N a
      non-empty run of word characters and T trimmed and drawn from
      [\w<>,\s|], where T and N are read off the k-th match. */
  lemma ExtractedShape(s: string, k: nat)
    requires k < |Extracted(s)|
    ensures Advances(FieldPat, s) && k < |Exec(FieldPat, s, 0)| && Exec(FieldPat, s, 0)[k] + 5 <= |s|
    ensures var i := Exec(FieldPat, s, 0)[k];
      var t, n := TypeText(s, i), NameText(s, i);
      Extracted(s)[k] == "final " + t + " " + n + ";"
      && n != [] && AllWord(n)
      && AllIn(FieldType, t) && (t == [] || (!IsSpace(t[0]) && !IsSpace(t[|t| - 1])))
  {
    ExtractedEntries(s, k);
    EntryShape(s, Exec(FieldPat, s, 0)[k]);
  }

  /** "final " + T + " " + N + ";" for the declaration at `i`, in closed form. */
  function EntryAt(s: string, i: nat): string
    requires FieldAt(s, i)
  {
    "final " + TypeText(s, i) + " " + NameText(s, i) + ";"
  }

  /** Matches are reported in textual order, each after the previous one's `;`. */
  lemma ExtractedOrdered(s: string, k: nat, l: nat)
    requires k < l < |Extracted(s)|
    ensures Advances(FieldPat, s) && l < |Exec(FieldPat, s, 0)|
    ensures Semicolon(s, Exec(FieldPat, s, 0)[k]) < Exec(FieldPat, s, 0)[l]
  {
    FieldAdvances(s);
    ExecOrdered(FieldPat, s, 0);
    EntryClosedForm(s, Exec(FieldPat, s, 0)[k]);
  }

  /** No declaration is skipped: each one the closed form recognises is reported
      or lies inside a reported one, between its "final" and its `;`. */
  lemma ExtractedCover(s: string, j: nat)
    requires j <= |s| && FieldAt(s, j)
    ensures Advances(FieldPat, s)
    ensures exists k ::
      0 <= k < |Exec(FieldPat, s, 0)| && Exec(FieldPat, s, 0)[k] <= j <= Semicolon(s, Exec(FieldPat, s, 0)[k])
  {
    FieldAdvances(s);
    FieldMatchIff(s, j);
    ExecCover(FieldPat, s, 0, j);
    var k :| 0 <= k < |Exec(FieldPat, s, 0)| &&
      Exec(FieldPat, s, 0)[k] <= j < Resume(FieldPat, s, Exec(FieldPat, s, 0)[k]);
    EntryClosedForm(s, Exec(FieldPat, s, 0)[k]);
  }

  /** No entries exactly when the pattern matches nowhere: an empty list, not an error. */
  lemma ExtractedEmptyIff(s: string)
    ensures Extracted(s) == [] <==> forall j :: 0 <= j <= |s| ==> !FieldAt(s, j)
  {
    FieldAdvances(s);
    ExecEmptyIff(FieldPat, s, 0);
    forall j | 0 <= j <= |s| {
      FieldMatchIff(s, j);
    }
  }
}
