// A backtracking matcher for the regular expressions the extension uses.
// Each of them is a concatenation of literals and greedy repetitions of a
// character class, so a pattern is a sequence of atoms, and a match at a
// position is the sequence of end positions of its atoms. JavaScript's
// backtracking tries a greedy repetition longest first and shortens it one
// character at a time when the rest of the pattern fails; Match does the same.

module Regex {
  import opened Text
  import opened Options

  /** The character classes that occur in the extension's patterns. */
  datatype Class =
    | Space       // \s
    | Word        // \w
    | GenericArg  // [\w<, >]
    | FieldType   // [\w<>,\s|]

  predicate InClass(k: Class, c: char)
  {
    match k
    case Space => IsSpace(c)
    case Word => IsWord(c)
    case GenericArg => IsWord(c) || c == '<' || c == ',' || c == ' ' || c == '>'
    case FieldType => IsWord(c) || c == '<' || c == '>' || c == ',' || IsSpace(c) || c == '|'
  }

  /** `text` literally, or at least `min` characters of `cls`, as many as possible first. */
  datatype Atom = Lit(text: string) | Rep(cls: Class, min: nat)

  type Pattern = seq<Atom>

  predicate AllIn(k: Class, t: string)
  {
    forall i :: 0 <= i < |t| ==> InClass(k, t[i])
  }

  lemma AllInAppend(k: Class, a: string, b: string)
    requires AllIn(k, a) && AllIn(k, b)
    ensures AllIn(k, a + b)
  {
  }

  /** Whitespace and word characters are field-type characters. */
  lemma FieldTypeCovers(t: string)
    ensures AllIn(Space, t) ==> AllIn(FieldType, t)
    ensures AllIn(Word, t) ==> AllIn(FieldType, t)
  {
  }

  lemma AllInSpace(t: string)
    ensures AllIn(Space, t) <==> AllSpace(t)
  {
  }

  lemma AllInWord(t: string)
    ensures AllIn(Word, t) <==> AllWord(t)
  {
  }

  lemma AllInSub(k: Class, s: string, a: nat, b: nat, c: nat, d: nat)
    requires a <= b <= c <= d <= |s| && AllIn(k, s[a..d])
    ensures AllIn(k, s[b..c])
  {
    forall j | 0 <= j < c - b ensures InClass(k, s[b..c][j]) {
      assert s[b..c][j] == s[a..d][j + b - a];
    }
  }

  /** Length of the longest run of `k` characters starting at `pos`. */
  function Run(k: Class, s: string, pos: nat): (n: nat)
    requires pos <= |s|
    ensures pos + n <= |s|
    ensures AllIn(k, s[pos..pos + n])
    ensures pos + n == |s| || !InClass(k, s[pos + n])
    decreases |s| - pos
  {
    if pos < |s| && InClass(k, s[pos]) then
      var n := 1 + Run(k, s, pos + 1);
      assert s[pos..pos + n] == [s[pos]] + s[pos + 1..pos + n];
      n
    else 0
  }

  /** Every run of `k` characters from `pos` is at most as long as Run. */
  lemma {:induction false} RunMaximal(k: Class, s: string, pos: nat, m: nat)
    requires pos + m <= |s| && AllIn(k, s[pos..pos + m])
    ensures m <= Run(k, s, pos)
    decreases m
  {
    if m > 0 {
      assert s[pos..pos + m][0] == s[pos];
      assert s[pos + 1..pos + m] == s[pos..pos + m][1..];
      RunMaximal(k, s, pos + 1, m - 1);
    }
  }

  /** A run of `k` characters that stops at a non-`k` character is the longest run. */
  lemma {:induction false} RunExact(k: Class, s: string, pos: nat, m: nat)
    requires pos + m <= |s| && AllIn(k, s[pos..pos + m])
    requires pos + m == |s| || !InClass(k, s[pos + m])
    ensures Run(k, s, pos) == m
    decreases m
  {
    if m > 0 {
      assert s[pos..pos + m][0] == s[pos];
      assert s[pos + 1..pos + m] == s[pos..pos + m][1..];
      RunExact(k, s, pos + 1, m - 1);
    }
  }

  function Prepend(e: nat, r: Option<seq<nat>>): Option<seq<nat>>
  {
    if r.Some? then Some([e] + r.value) else None
  }

  /** JavaScript's backtracking match of `p` anchored at `pos`: the end of each atom. */
  function Match(p: Pattern, s: string, pos: nat): Option<seq<nat>>
    requires pos <= |s|
    decreases |p|, 1, 0
  {
    if p == [] then Some([])
    else match p[0]
      case Lit(t) =>
        if pos + |t| <= |s| && s[pos..pos + |t|] == t
        then Prepend(pos + |t|, Match(p[1..], s, pos + |t|))
        else None
      case Rep(k, _) => Backtrack(p, s, pos, Run(k, s, pos))
  }

  /** Try the repetition at the head of `p` with `n` characters, then fewer. */
  function Backtrack(p: Pattern, s: string, pos: nat, n: nat): Option<seq<nat>>
    requires p != [] && p[0].Rep? && pos + n <= |s|
    decreases |p|, 0, n
  {
    if n < p[0].min then None
    else match Match(p[1..], s, pos + n)
      case Some(e) => Some([pos + n] + e)
      case None => if n == 0 then None else Backtrack(p, s, pos, n - 1)
  }

  predicate AtomFits(a: Atom, t: string)
  {
    match a
    case Lit(text) => t == text
    case Rep(k, min) => |t| >= min && AllIn(k, t)
  }

  /** `ends` splits `s[pos..]` into consecutive pieces, one per atom, each fitting it. */
  predicate Fits(p: Pattern, s: string, pos: nat, ends: seq<nat>)
    decreases |p|
  {
    |ends| == |p| && pos <= |s| &&
    (p != [] ==>
      pos <= ends[0] <= |s| && AtomFits(p[0], s[pos..ends[0]]) && Fits(p[1..], s, ends[0], ends[1..]))
  }

  /** Where atom `k` starts: at `pos` for the first, at the end of atom `k - 1` otherwise. */
  function Start(pos: nat, ends: seq<nat>, k: nat): nat
    requires k <= |ends|
  {
    if k == 0 then pos else ends[k - 1]
  }

  /** Fits, stated atom by atom. */
  predicate FitsEach(p: Pattern, s: string, pos: nat, ends: seq<nat>)
  {
    |ends| == |p| && pos <= |s| &&
    forall k :: 0 <= k < |p| ==>
      Start(pos, ends, k) <= ends[k] <= |s| && AtomFits(p[k], s[Start(pos, ends, k)..ends[k]])
  }

  lemma {:induction false} FitsEachIff(p: Pattern, s: string, pos: nat, ends: seq<nat>)
    ensures Fits(p, s, pos, ends) <==> FitsEach(p, s, pos, ends)
    decreases |p|
  {
    if p != [] && |ends| == |p| && pos <= |s| && pos <= ends[0] <= |s| {
      var p', e' := p[1..], ends[1..];
      FitsEachIff(p', s, ends[0], e');
      forall k | 0 <= k < |p'|
        ensures Start(ends[0], e', k) == Start(pos, ends, k + 1) && e'[k] == ends[k + 1] && p'[k] == p[k + 1]
      {
      }
      if FitsEach(p, s, pos, ends) {
        forall k | 0 <= k < |p'|
          ensures Start(ends[0], e', k) <= e'[k] <= |s| && AtomFits(p'[k], s[Start(ends[0], e', k)..e'[k]])
        {
          assert Start(pos, ends, k + 1) <= ends[k + 1] <= |s|;
        }
        assert Start(pos, ends, 0) == pos;
      }
      if Fits(p, s, pos, ends) {
        forall k | 0 <= k < |p|
          ensures Start(pos, ends, k) <= ends[k] <= |s| && AtomFits(p[k], s[Start(pos, ends, k)..ends[k]])
        {
          if k > 0 {
            assert Start(ends[0], e', k - 1) <= e'[k - 1] <= |s|;
          }
        }
      }
    }
  }

  /** Soundness: what Match returns is a decomposition of the text into the atoms,
      and after the first atom the rest is what matching the rest from there gives. */
  lemma {:induction false} MatchSound(p: Pattern, s: string, pos: nat)
    requires pos <= |s| && Match(p, s, pos).Some?
    ensures Fits(p, s, pos, Match(p, s, pos).value)
    ensures p != [] ==> var e := Match(p, s, pos).value;
      e[0] <= |s| && Match(p[1..], s, e[0]) == Some(e[1..])
    decreases |p|, 1, 0
  {
    if p != [] {
      match p[0]
      case Lit(t) =>
        MatchSound(p[1..], s, pos + |t|);
      case Rep(k, _) =>
        BacktrackSound(p, s, pos, Run(k, s, pos));
    }
  }

  lemma {:induction false} BacktrackSound(p: Pattern, s: string, pos: nat, n: nat)
    requires p != [] && p[0].Rep? && pos + n <= |s|
    requires AllIn(p[0].cls, s[pos..pos + n])
    requires Backtrack(p, s, pos, n).Some?
    ensures Fits(p, s, pos, Backtrack(p, s, pos, n).value)
    ensures var e := Backtrack(p, s, pos, n).value;
      e[0] <= |s| && Match(p[1..], s, e[0]) == Some(e[1..])
    decreases |p|, 0, n
  {
    var r := Match(p[1..], s, pos + n);
    if r.Some? {
      MatchSound(p[1..], s, pos + n);
      assert Backtrack(p, s, pos, n).value == [pos + n] + r.value;
    } else {
      assert s[pos..pos + (n - 1)] == s[pos..pos + n][..n - 1];
      BacktrackSound(p, s, pos, n - 1);
    }
  }

  /** Completeness: if the text can be split to fit the pattern at all, Match succeeds. */
  lemma {:induction false} MatchComplete(p: Pattern, s: string, pos: nat, ends: seq<nat>)
    requires Fits(p, s, pos, ends)
    ensures Match(p, s, pos).Some?
    decreases |p|, 1, 0
  {
    if p != [] {
      match p[0]
      case Lit(t) =>
        MatchComplete(p[1..], s, pos + |t|, ends[1..]);
      case Rep(k, _) =>
        RunMaximal(k, s, pos, ends[0] - pos);
        BacktrackComplete(p, s, pos, Run(k, s, pos), ends);
    }
  }

  lemma {:induction false} BacktrackComplete(p: Pattern, s: string, pos: nat, n: nat, ends: seq<nat>)
    requires p != [] && p[0].Rep? && pos + n <= |s|
    requires Fits(p, s, pos, ends) && ends[0] - pos <= n
    ensures Backtrack(p, s, pos, n).Some?
    decreases |p|, 0, n
  {
    if n == ends[0] - pos {
      MatchComplete(p[1..], s, ends[0], ends[1..]);
    } else if Match(p[1..], s, pos + n).None? {
      BacktrackComplete(p, s, pos, n - 1, ends);
    }
  }

  /** A pattern that ends in a repetition takes that repetition as far as it goes. */
  lemma LastRepGreedy(k: Class, min: nat, s: string, pos: nat)
    requires pos <= |s|
    ensures Match([Rep(k, min)], s, pos) ==
      if Run(k, s, pos) >= min then Some([pos + Run(k, s, pos)]) else None
  {
    var p := [Rep(k, min)];
    var n := Run(k, s, pos);
    assert p[1..] == [];
    assert Match(p, s, pos) == Backtrack(p, s, pos, n);
    if n >= min {
      assert Match(p[1..], s, pos + n) == Some([]);
      assert [pos + n] + [] == [pos + n];
    }
  }

  /** A match of a pattern whose last atom is a repetition ends where that
      repetition's run ends. */
  lemma {:induction false} MatchEndsGreedy(p: Pattern, s: string, pos: nat)
    requires pos <= |s| && Match(p, s, pos).Some? && p != [] && p[|p| - 1].Rep?
    ensures var e := Match(p, s, pos).value;
      |e| == |p| && Fits(p, s, pos, e) && Start(pos, e, |p| - 1) <= |s| && e[|p| - 1] == Start(pos, e, |p| - 1) + Run(p[|p| - 1].cls, s, Start(pos, e, |p| - 1))
    decreases |p|
  {
    var e := Match(p, s, pos).value;
    MatchSound(p, s, pos);
    if |p| == 1 {
      LastRepGreedy(p[0].cls, p[0].min, s, pos);
      assert p == [Rep(p[0].cls, p[0].min)];
    } else {
      MatchEndsGreedy(p[1..], s, e[0]);
      assert e[1..][|p| - 2] == e[|p| - 1];
      assert Start(e[0], e[1..], |p| - 2) == Start(pos, e, |p| - 1);
    }
  }

  // ---------------------------------------------------------------------
  // Searching: what a global regular expression's `exec` does from `lastIndex`.

  /** The leftmost position at or after `from` where `p` matches. */
  function Search(p: Pattern, s: string, from: nat): (r: Option<nat>)
    requires from <= |s|
    ensures r.Some? ==> from <= r.value <= |s| && Match(p, s, r.value).Some?
    ensures forall j :: from <= j <= |s| && (r.None? || j < r.value) ==> Match(p, s, j).None?
    decreases |s| - from
  {
    if Match(p, s, from).Some? then Some(from)
    else if from == |s| then None
    else Search(p, s, from + 1)
  }

  // ---------------------------------------------------------------------
  // The `exec` loop of a global regular expression: each search starts at
  // `lastIndex`, which the previous match moved to its own end.

  /** `lastIndex` after the match at `i`: the end of its last atom. */
  function Resume(p: Pattern, s: string, i: nat): nat
    requires i <= |s| && Match(p, s, i).Some?
  {
    var e := Match(p, s, i).value;
    if e == [] then i else e[|e| - 1]
  }

  /** Every match of `p` in `s` is non-empty, so the `exec` loop moves forward. */
  predicate Advances(p: Pattern, s: string)
  {
    forall j :: 0 <= j <= |s| && Match(p, s, j).Some? ==> j < Resume(p, s, j) <= |s|
  }

  /** Start positions of the matches an `exec` loop finds from `lastIndex == from`. */
  function Exec(p: Pattern, s: string, from: nat): (hs: seq<nat>)
    requires from <= |s| && Advances(p, s)
    ensures forall k :: 0 <= k < |hs| ==> from <= hs[k] <= |s| && Match(p, s, hs[k]).Some?
    decreases |s| - from
  {
    match Search(p, s, from)
    case None => []
    case Some(i) => [i] + Exec(p, s, Resume(p, s, i))
  }

  /** The matches come in textual order and do not overlap. */
  lemma {:induction false} ExecOrdered(p: Pattern, s: string, from: nat)
    requires from <= |s| && Advances(p, s)
    ensures forall k, l :: 0 <= k < l < |Exec(p, s, from)| ==>
      Resume(p, s, Exec(p, s, from)[k]) <= Exec(p, s, from)[l]
    decreases |s| - from
  {
    var hs := Exec(p, s, from);
    if hs != [] {
      var i := Search(p, s, from).value;
      var r := Resume(p, s, i);
      var rest := Exec(p, s, r);
      assert hs == [i] + rest;
      ExecOrdered(p, s, r);
      assert hs[1..] == rest;
      forall k, l | 0 <= k < l < |hs| ensures Resume(p, s, hs[k]) <= hs[l] {
        assert hs[l] == rest[l - 1];
        if k > 0 {
          assert hs[k] == rest[k - 1];
        }
      }
    }
  }

  /** No match is skipped: every position from `from` on where `p` matches is
      either found or lies inside a match that was found. */
  lemma {:induction false} ExecCover(p: Pattern, s: string, from: nat, j: nat)
    requires from <= j <= |s| && Advances(p, s) && Match(p, s, j).Some?
    ensures exists k ::
      0 <= k < |Exec(p, s, from)| && Exec(p, s, from)[k] <= j < Resume(p, s, Exec(p, s, from)[k])
    decreases |s| - from
  {
    var hs := Exec(p, s, from);
    var found := Search(p, s, from);
    assert found.Some? && found.value <= j;
    var i := found.value;
    var r := Resume(p, s, i);
    var rest := Exec(p, s, r);
    assert hs == [i] + rest;
    if j >= r {
      ExecCover(p, s, r, j);
      var k :| 0 <= k < |rest| && rest[k] <= j < Resume(p, s, rest[k]);
      assert hs[k + 1] == rest[k];
    } else {
      assert hs[0] == i;
    }
  }

  /** The loop finds nothing exactly when `p` matches nowhere from `from` on. */
  lemma ExecEmptyIff(p: Pattern, s: string, from: nat)
    requires from <= |s| && Advances(p, s)
    ensures Exec(p, s, from) == [] <==> forall j :: from <= j <= |s| ==> Match(p, s, j).None?
  {
    var r := Search(p, s, from);
    if r.Some? {
      assert Exec(p, s, from)[0] == r.value;
      assert Match(p, s, r.value).Some?;
    }
  }
}
