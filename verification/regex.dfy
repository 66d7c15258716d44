/** The subset of Python's `re` that the core uses: a pattern is a concatenation of greedy
    quantified character classes (`\d{1,2}`, `[а-яА-Я]+`, `[^&]+`, `.*`, literal characters),
    optionally anchored at the end with `$`. Matching follows the backtracking order of Python's
    engine: each quantifier first takes as many characters as it can, then gives them back one at
    a time. A match is reported as the list of its atom boundaries, from which groups are sliced. */
module Regex {
  import opened Wrappers
  import Text

  /** A character class: `.` under `re.DOTALL`, `\d` (ASCII digits), `\s`, `[...]` and `[^...]`
      given as inclusive ranges. */
  datatype CharClass =
    | Any
    | Digit
    | Space
    | In(ranges: seq<(char, char)>)
    | NotIn(ranges: seq<(char, char)>)

  /** The largest number of repeats of an atom in all: `n` of `{m,n}`, or unbounded (`+`, `*`). */
  datatype Repeat = Upto(n: nat) | Unbounded

  datatype Atom = Atom(cls: CharClass, min: nat, max: Repeat)

  /** `anchorEnd` is a trailing `$` (no `re.MULTILINE`). */
  datatype Pattern = Pattern(atoms: seq<Atom>, anchorEnd: bool)

  predicate InRanges(c: char, ranges: seq<(char, char)>) {
    exists k :: 0 <= k < |ranges| && ranges[k].0 <= c <= ranges[k].1
  }

  predicate InClass(c: char, cls: CharClass) {
    match cls
    case Any => true
    case Digit => Text.IsDigit(c)
    case Space => Text.IsSpace(c)
    case In(rs) => InRanges(c, rs)
    case NotIn(rs) => !InRanges(c, rs)
  }

  /** One literal character. */
  function Lit(c: char): Atom {
    Atom(In([(c, c)]), 1, Upto(1))
  }

  lemma InLit(c: char, x: char)
    ensures InClass(x, Lit(c).cls) <==> x == c
  {
    if x == c {
      assert [(c, c)][0].0 <= x <= [(c, c)][0].1;
    }
  }

  /** A literal string, one atom per character. */
  function Literal(w: string): (r: seq<Atom>)
    ensures |r| == |w|
  {
    if w == "" then [] else [Lit(w[0])] + Literal(w[1..])
  }

  /** `$` without `re.MULTILINE` matches at the end, or just before a final newline. */
  predicate EndOk(anchorEnd: bool, s: string, pos: nat) {
    !anchorEnd || pos == |s| || (pos + 1 == |s| && s[pos] == '\n')
  }

  /** The characters `s[from..to]` are a legal repetition of `a`. */
  predicate Fits(a: Atom, s: string, from: nat, to: nat) {
    && from <= to <= |s|
    && to - from >= a.min
    && (a.max.Upto? ==> to - from <= a.max.n)
    && forall j :: from <= j < to ==> InClass(s[j], a.cls)
  }

  /** `b` splits a stretch of `s` into consecutive pieces, piece `i` matching `atoms[i]`,
      and the end anchor (if any) holds where the last piece stops. */
  predicate Accepts(atoms: seq<Atom>, anchorEnd: bool, s: string, b: seq<nat>) {
    && |b| == |atoms| + 1
    && b[|atoms|] <= |s|
    && EndOk(anchorEnd, s, b[|atoms|])
    && forall i :: 0 <= i < |atoms| ==> Fits(atoms[i], s, b[i], b[i + 1])
  }

  /** Boundaries never go backwards and stay inside `s`. */
  predicate Bounded(s: string, b: seq<nat>) {
    forall i, j :: 0 <= i <= j < |b| ==> b[i] <= b[j] <= |s|
  }

  /** The boundaries of an accepted split never go backwards and stay inside `s`. */
  lemma AcceptsBounded(atoms: seq<Atom>, anchorEnd: bool, s: string, b: seq<nat>)
    requires Accepts(atoms, anchorEnd, s, b)
    ensures Bounded(s, b)
  {
    forall i, j | 0 <= i <= j < |b|
      ensures b[i] <= b[j] <= |s|
    {
      if i == |atoms| {
      } else {
        assert Fits(atoms[i], s, b[i], b[i + 1]);
      }
      var k := i;
      while k < j
        invariant i <= k <= j && b[i] <= b[k] <= |s|
      {
        assert Fits(atoms[k], s, b[k], b[k + 1]);
        k := k + 1;
      }
    }
  }

  /** Length of the run of characters of class `cls` starting at `pos`. */
  function ClassRun(cls: CharClass, s: string, pos: nat): (k: nat)
    requires pos <= |s|
    ensures pos + k <= |s|
    ensures forall j :: pos <= j < pos + k ==> InClass(s[j], cls)
    ensures pos + k == |s| || !InClass(s[pos + k], cls)
    decreases |s| - pos
  {
    if pos == |s| || !InClass(s[pos], cls) then 0 else 1 + ClassRun(cls, s, pos + 1)
  }

  /** What a greedy quantifier takes first: the class run, capped at the atom's maximum. */
  function GreedyRun(a: Atom, s: string, pos: nat): (k: nat)
    requires pos <= |s|
    ensures pos + k <= |s|
    ensures a.max.Upto? ==> k <= a.max.n
    ensures forall j :: pos <= j < pos + k ==> InClass(s[j], a.cls)
    ensures forall j :: pos <= j && Fits(a, s, pos, j) ==> j <= pos + k
  {
    var run := ClassRun(a.cls, s, pos);
    if a.max.Upto? && a.max.n < run then a.max.n else run
  }

  /** Python's backtracking match of `atoms` starting exactly at `pos`. */
  function MatchFrom(atoms: seq<Atom>, anchorEnd: bool, s: string, pos: nat): (r: Option<seq<nat>>)
    requires pos <= |s|
    ensures r.Some? ==> Accepts(atoms, anchorEnd, s, r.value) && r.value[0] == pos
    decreases |atoms|, |s| - pos + 1
  {
    if |atoms| == 0 then
      (if EndOk(anchorEnd, s, pos) then Some([pos]) else None)
    else
      var run := GreedyRun(atoms[0], s, pos);
      if run < atoms[0].min then None else TryCounts(atoms, anchorEnd, s, pos, run)
  }

  /** Gives the first atom `k` characters, then `k - 1`, ... down to its minimum, until the
      remaining atoms match. */
  function TryCounts(atoms: seq<Atom>, anchorEnd: bool, s: string, pos: nat, k: nat): (r: Option<seq<nat>>)
    requires |atoms| > 0 && pos + k <= |s|
    requires atoms[0].min <= k
    requires atoms[0].max.Upto? ==> k <= atoms[0].max.n
    requires forall j :: pos <= j < pos + k ==> InClass(s[j], atoms[0].cls)
    ensures r.Some? ==> Accepts(atoms, anchorEnd, s, r.value) && r.value[0] == pos
    decreases |atoms|, k
  {
    match MatchFrom(atoms[1..], anchorEnd, s, pos + k)
    case Some(b) =>
      var r := [pos] + b;
      assert forall i :: 0 < i < |atoms| ==> atoms[i] == atoms[1..][i - 1] && r[i] == b[i - 1] && r[i + 1] == b[i];
      assert Fits(atoms[0], s, r[0], r[1]);
      Some(r)
    case None =>
      if k == atoms[0].min then None else TryCounts(atoms, anchorEnd, s, pos, k - 1)
  }

  /** `re.search`: the leftmost start position from `i` on at which the pattern matches. */
  function SearchFrom(p: Pattern, s: string, i: nat): (r: Option<seq<nat>>)
    requires i <= |s|
    ensures r.Some? ==> Accepts(p.atoms, p.anchorEnd, s, r.value) && i <= r.value[0]
    decreases |s| - i
  {
    match MatchFrom(p.atoms, p.anchorEnd, s, i)
    case Some(b) => Some(b)
    case None => if i == |s| then None else SearchFrom(p, s, i + 1)
  }

  function Search(p: Pattern, s: string): (r: Option<seq<nat>>)
    ensures r.Some? ==> Accepts(p.atoms, p.anchorEnd, s, r.value)
  {
    SearchFrom(p, s, 0)
  }

  /** `re.match`: the pattern anchored at the start of `s`. */
  function Match(p: Pattern, s: string): (r: Option<seq<nat>>)
    ensures r.Some? ==> Accepts(p.atoms, p.anchorEnd, s, r.value) && r.value[0] == 0
  {
    MatchFrom(p.atoms, p.anchorEnd, s, 0)
  }

  /** Least number of characters any match consumes. */
  function MinLength(atoms: seq<Atom>): nat {
    if atoms == [] then 0 else atoms[0].min + MinLength(atoms[1..])
  }

  lemma {:induction false} AcceptsSpan(atoms: seq<Atom>, anchorEnd: bool, s: string, b: seq<nat>)
    requires Accepts(atoms, anchorEnd, s, b)
    ensures b[0] + MinLength(atoms) <= b[|atoms|]
  {
    if atoms != [] {
      assert Accepts(atoms[1..], anchorEnd, s, b[1..]) by {
        forall i | 0 <= i < |atoms| - 1
          ensures Fits(atoms[1..][i], s, b[1..][i], b[1..][i + 1])
        {
          assert Fits(atoms[i + 1], s, b[i + 1], b[i + 2]);
        }
      }
      AcceptsSpan(atoms[1..], anchorEnd, s, b[1..]);
    }
  }

  /** `re.findall` for a pattern that never matches the empty string: the boundaries of each
      non-overlapping match, scanning left to right. */
  function FindAllFrom(p: Pattern, s: string, i: nat): (r: seq<seq<nat>>)
    requires MinLength(p.atoms) > 0 && i <= |s|
    ensures forall k :: 0 <= k < |r| ==> Accepts(p.atoms, p.anchorEnd, s, r[k])
    decreases |s| - i
  {
    match SearchFrom(p, s, i)
    case None => []
    case Some(b) =>
      AcceptsSpan(p.atoms, p.anchorEnd, s, b);
      [b] + FindAllFrom(p, s, b[|p.atoms|])
  }

  function FindAll(p: Pattern, s: string): (r: seq<seq<nat>>)
    requires MinLength(p.atoms) > 0
    ensures forall k :: 0 <= k < |r| ==> Accepts(p.atoms, p.anchorEnd, s, r[k])
  {
    FindAllFrom(p, s, 0)
  }

  /** The text between boundaries `i` and `j` of a match: a group spanning atoms `i` to `j - 1`. */
  function Span(atoms: seq<Atom>, anchorEnd: bool, s: string, b: seq<nat>, i: nat, j: nat): (r: string)
    requires Accepts(atoms, anchorEnd, s, b) && i <= j <= |atoms|
    ensures b[i] <= b[j] <= |s| && r == s[b[i]..b[j]]
  {
    AcceptsBounded(atoms, anchorEnd, s, b);
    s[b[i]..b[j]]
  }

  // ---------------------------------------------------------------------------------------------
  // Completeness: the backtracking search misses no match.

  lemma AcceptsTail(atoms: seq<Atom>, anchorEnd: bool, s: string, b: seq<nat>)
    requires |atoms| > 0 && Accepts(atoms, anchorEnd, s, b)
    ensures Fits(atoms[0], s, b[0], b[1])
    ensures Accepts(atoms[1..], anchorEnd, s, b[1..])
  {
    forall i | 0 <= i < |atoms| - 1
      ensures Fits(atoms[1..][i], s, b[1..][i], b[1..][i + 1])
    {
      assert Fits(atoms[i + 1], s, b[i + 1], b[i + 2]);
    }
  }

  /** If some split of `s` from `b[0]` on matches `atoms`, the engine finds a match there. */
  lemma {:induction false} MatchComplete(atoms: seq<Atom>, anchorEnd: bool, s: string, b: seq<nat>)
    requires Accepts(atoms, anchorEnd, s, b)
    ensures b[0] <= |s| && MatchFrom(atoms, anchorEnd, s, b[0]).Some?
    decreases |atoms|
  {
    AcceptsSpan(atoms, anchorEnd, s, b);
    if |atoms| > 0 {
      AcceptsTail(atoms, anchorEnd, s, b);
      MatchComplete(atoms[1..], anchorEnd, s, b[1..]);
      var run := GreedyRun(atoms[0], s, b[0]);
      TryComplete(atoms, anchorEnd, s, b[0], run, b[1] - b[0]);
    }
  }

  lemma {:induction false} TryComplete(atoms: seq<Atom>, anchorEnd: bool, s: string, pos: nat, k: nat, j: nat)
    requires |atoms| > 0 && pos + k <= |s|
    requires atoms[0].min <= j <= k
    requires atoms[0].max.Upto? ==> k <= atoms[0].max.n
    requires forall i :: pos <= i < pos + k ==> InClass(s[i], atoms[0].cls)
    requires MatchFrom(atoms[1..], anchorEnd, s, pos + j).Some?
    ensures TryCounts(atoms, anchorEnd, s, pos, k).Some?
    decreases k
  {
    if k > j && MatchFrom(atoms[1..], anchorEnd, s, pos + k).None? {
      TryComplete(atoms, anchorEnd, s, pos, k - 1, j);
    }
  }

  /** The search finds a match exactly when one exists, and none of its possible start positions
      lies before the one it reports. */
  lemma {:induction false} SearchComplete(p: Pattern, s: string, b: seq<nat>)
    requires Accepts(p.atoms, p.anchorEnd, s, b)
    ensures Search(p, s).Some? && Search(p, s).value[0] <= b[0]
  {
    MatchComplete(p.atoms, p.anchorEnd, s, b);
    SearchFromComplete(p, s, 0, b);
  }

  lemma {:induction false} SearchFromComplete(p: Pattern, s: string, i: nat, b: seq<nat>)
    requires |b| > 0 && i <= b[0] <= |s|
    requires MatchFrom(p.atoms, p.anchorEnd, s, b[0]).Some?
    ensures SearchFrom(p, s, i).Some? && SearchFrom(p, s, i).value[0] <= b[0]
    decreases |s| - i
  {
    if MatchFrom(p.atoms, p.anchorEnd, s, i).None? {
      assert i != b[0];
      SearchFromComplete(p, s, i + 1, b);
    }
  }

  /** A successful search starts at the engine's match at that position. */
  lemma {:induction false} SearchFromFound(p: Pattern, s: string, i: nat)
    requires i <= |s| && SearchFrom(p, s, i).Some?
    ensures var b := SearchFrom(p, s, i).value;
      b[0] <= |s| && MatchFrom(p.atoms, p.anchorEnd, s, b[0]) == Some(b)
    decreases |s| - i
  {
    if MatchFrom(p.atoms, p.anchorEnd, s, i).None? {
      SearchFromFound(p, s, i + 1);
    }
  }

  /** `s[i..i + n]` lies inside `s` and every character of it is in `cls`. */
  predicate RunAt(s: string, cls: CharClass, i: nat, n: nat) {
    i + n <= |s| && forall j :: i <= j < i + n ==> InClass(s[j], cls)
  }

  /** A one-atom pattern is found exactly where its minimum run of the class occurs. */
  lemma SingleAtom(a: Atom, s: string)
    requires a.max.Upto? ==> a.min <= a.max.n
    ensures Search(Pattern([a], false), s).Some? <==> exists i: nat :: RunAt(s, a.cls, i, a.min)
  {
    var p := Pattern([a], false);
    if Search(p, s).Some? {
      var b := Search(p, s).value;
      assert Fits(a, s, b[0], b[1]);
      assert RunAt(s, a.cls, b[0], a.min);
    }
    if i: nat :| RunAt(s, a.cls, i, a.min) {
      var b := [i, i + a.min];
      assert Fits(p.atoms[0], s, b[0], b[1]);
      SearchComplete(p, s, b);
    }
  }

  // ---------------------------------------------------------------------------------------------
  // Greediness: which match the engine picks.

  /** The first atom of the engine's match is as long as in any match from the same position. */
  lemma {:induction false} MatchGreedy(atoms: seq<Atom>, anchorEnd: bool, s: string, b: seq<nat>, other: seq<nat>)
    requires |atoms| > 0 && |b| > 0 && b[0] <= |s|
    requires MatchFrom(atoms, anchorEnd, s, b[0]) == Some(b)
    requires Accepts(atoms, anchorEnd, s, other) && other[0] == b[0]
    ensures other[1] <= b[1]
  {
    AcceptsTail(atoms, anchorEnd, s, other);
    MatchComplete(atoms[1..], anchorEnd, s, other[1..]);
    var run := GreedyRun(atoms[0], s, b[0]);
    TryGreedy(atoms, anchorEnd, s, b[0], run, other[1] - b[0]);
  }

  lemma {:induction false} TryGreedy(atoms: seq<Atom>, anchorEnd: bool, s: string, pos: nat, k: nat, j: nat)
    requires |atoms| > 0 && pos + k <= |s|
    requires atoms[0].min <= j <= k
    requires atoms[0].max.Upto? ==> k <= atoms[0].max.n
    requires forall i :: pos <= i < pos + k ==> InClass(s[i], atoms[0].cls)
    requires MatchFrom(atoms[1..], anchorEnd, s, pos + j).Some?
    ensures TryCounts(atoms, anchorEnd, s, pos, k).Some?
    ensures pos + j <= TryCounts(atoms, anchorEnd, s, pos, k).value[1]
    decreases k
  {
    if MatchFrom(atoms[1..], anchorEnd, s, pos + k).None? {
      TryGreedy(atoms, anchorEnd, s, pos, k - 1, j);
    }
  }

  /** The engine's match continues with the engine's match of the remaining atoms. */
  lemma {:induction false} MatchRest(atoms: seq<Atom>, anchorEnd: bool, s: string, b: seq<nat>)
    requires |atoms| > 0 && |b| > 0 && b[0] <= |s|
    requires MatchFrom(atoms, anchorEnd, s, b[0]) == Some(b)
    ensures b[1] <= |s| && MatchFrom(atoms[1..], anchorEnd, s, b[1]) == Some(b[1..])
  {
    var run := GreedyRun(atoms[0], s, b[0]);
    TryRest(atoms, anchorEnd, s, b[0], run);
  }

  lemma {:induction false} TryRest(atoms: seq<Atom>, anchorEnd: bool, s: string, pos: nat, k: nat)
    requires |atoms| > 0 && pos + k <= |s|
    requires atoms[0].min <= k
    requires atoms[0].max.Upto? ==> k <= atoms[0].max.n
    requires forall i :: pos <= i < pos + k ==> InClass(s[i], atoms[0].cls)
    requires TryCounts(atoms, anchorEnd, s, pos, k).Some?
    ensures var b := TryCounts(atoms, anchorEnd, s, pos, k).value;
      b[1] <= |s| && MatchFrom(atoms[1..], anchorEnd, s, b[1]) == Some(b[1..])
    decreases k
  {
    match MatchFrom(atoms[1..], anchorEnd, s, pos + k)
    case Some(t) =>
      assert TryCounts(atoms, anchorEnd, s, pos, k).value == [pos] + t;
    case None =>
      TryRest(atoms, anchorEnd, s, pos, k - 1);
  }

  /** When the greedy choice for the first atom lets the rest match, the engine keeps it. */
  lemma GreedyStep(atoms: seq<Atom>, anchorEnd: bool, s: string, pos: nat, rest: seq<nat>)
    requires |atoms| > 0 && pos <= |s|
    requires GreedyRun(atoms[0], s, pos) >= atoms[0].min
    requires pos + GreedyRun(atoms[0], s, pos) <= |s|
    requires MatchFrom(atoms[1..], anchorEnd, s, pos + GreedyRun(atoms[0], s, pos)) == Some(rest)
    ensures MatchFrom(atoms, anchorEnd, s, pos) == Some([pos] + rest)
  {
  }

  /** A greedy run of an atom stops where the class run ends or where the maximum is reached. */
  lemma GreedyRunIs(a: Atom, s: string, pos: nat, n: nat)
    requires a.min <= n && RunAt(s, a.cls, pos, n)
    requires (a.max.Upto? && n == a.max.n) || (pos + n == |s| || !InClass(s[pos + n], a.cls))
    requires a.max.Upto? ==> n <= a.max.n
    ensures GreedyRun(a, s, pos) == n
  {
    assert Fits(a, s, pos, pos + n);
  }

  /** Atom `i` takes, greedily, exactly the characters from `b[i]` to `b[i + 1]`. */
  predicate GreedyPiece(atoms: seq<Atom>, s: string, b: seq<nat>, i: nat)
    requires i < |atoms| && |b| == |atoms| + 1
  {
    b[i] <= |s| && b[i] + GreedyRun(atoms[i], s, b[i]) == b[i + 1] && GreedyRun(atoms[i], s, b[i]) >= atoms[i].min
  }

  /** The pieces of a match, less its first atom, are the pieces of the remaining atoms. */
  lemma TailPieces(atoms: seq<Atom>, s: string, b: seq<nat>)
    requires |atoms| > 0 && |b| == |atoms| + 1
    requires forall i :: 0 <= i < |atoms| ==> GreedyPiece(atoms, s, b, i)
    ensures forall i :: 0 <= i < |atoms| - 1 ==> GreedyPiece(atoms[1..], s, b[1..], i)
  {
    forall i | 0 <= i < |atoms| - 1
      ensures GreedyPiece(atoms[1..], s, b[1..], i)
    {
      assert GreedyPiece(atoms, s, b, i + 1);
      assert atoms[1..][i] == atoms[i + 1] && b[1..][i] == b[i + 1] && b[1..][i + 1] == b[i + 2];
    }
  }

  lemma GreedyStepAt(atoms: seq<Atom>, anchorEnd: bool, s: string, b: seq<nat>)
    requires |atoms| > 0 && |b| == |atoms| + 1 && b[0] <= |s|
    requires GreedyPiece(atoms, s, b, 0)
    requires MatchFrom(atoms[1..], anchorEnd, s, b[1]) == Some(b[1..])
    ensures MatchFrom(atoms, anchorEnd, s, b[0]) == Some(b)
  {
    GreedyStep(atoms, anchorEnd, s, b[0], b[1..]);
    assert [b[0]] + b[1..] == b;
  }

  /** When each atom's greedy run ends exactly where the next boundary lies, the engine's match is
      those boundaries: nothing is given back. */
  lemma {:induction false} GreedyMatch(atoms: seq<Atom>, anchorEnd: bool, s: string, b: seq<nat>)
    requires |b| == |atoms| + 1 && b[0] <= |s| && b[|atoms|] <= |s| && EndOk(anchorEnd, s, b[|atoms|])
    requires forall i :: 0 <= i < |atoms| ==> GreedyPiece(atoms, s, b, i)
    ensures MatchFrom(atoms, anchorEnd, s, b[0]) == Some(b)
    decreases |atoms|
  {
    if |atoms| > 0 {
      TailPieces(atoms, s, b);
      assert GreedyPiece(atoms, s, b, 0);
      assert b[1..][0] == b[1] && b[1..][|atoms| - 1] == b[|atoms|];
      GreedyMatch(atoms[1..], anchorEnd, s, b[1..]);
      GreedyStepAt(atoms, anchorEnd, s, b);
    } else {
      assert b == [b[0]];
    }
  }

  /** `GreedyMatch` for three atoms, with the three pieces named one by one. */
  lemma GreedyMatch3(atoms: seq<Atom>, anchorEnd: bool, s: string, b: seq<nat>)
    requires |atoms| == 3 && |b| == 4 && b[0] <= |s| && b[3] <= |s| && EndOk(anchorEnd, s, b[3])
    requires GreedyPiece(atoms, s, b, 0) && GreedyPiece(atoms, s, b, 1) && GreedyPiece(atoms, s, b, 2)
    ensures MatchFrom(atoms, anchorEnd, s, b[0]) == Some(b)
  {
    forall i | 0 <= i < 3
      ensures GreedyPiece(atoms, s, b, i)
    {
      if i == 0 {
      } else if i == 1 {
      } else {
      }
    }
    GreedyMatch(atoms, anchorEnd, s, b);
  }

  /** A match found at the very start is the search's result. */
  lemma SearchAtStart(p: Pattern, s: string, m: seq<nat>)
    requires MatchFrom(p.atoms, p.anchorEnd, s, 0) == Some(m)
    ensures Search(p, s) == Some(m)
  {
  }

  /** `[pos, pos + 1, ..., pos + n - 1]`: the boundaries of `n` one-character atoms. */
  function Steps(pos: nat, n: nat): (r: seq<nat>)
    ensures |r| == n && forall i :: 0 <= i < n ==> r[i] == pos + i
    decreases n
  {
    if n == 0 then [] else [pos] + Steps(pos + 1, n - 1)
  }

  /** A literal character present at `pos` is taken exactly once. */
  lemma LitRun(c: char, s: string, pos: nat)
    requires pos < |s| && s[pos] == c
    ensures GreedyRun(Lit(c), s, pos) == 1
  {
    assert [(c, c)][0].0 <= s[pos] <= [(c, c)][0].1;
    assert InClass(s[pos], Lit(c).cls);
  }

  /** A literal character present at `pos` is matched, then the rest. */
  lemma LitStep(c: char, tail: seq<Atom>, anchorEnd: bool, s: string, pos: nat, x: seq<nat>)
    requires pos < |s| && s[pos] == c
    requires MatchFrom(tail, anchorEnd, s, pos + 1) == Some(x)
    ensures MatchFrom([Lit(c)] + tail, anchorEnd, s, pos) == Some([pos] + x)
  {
    LitRun(c, s, pos);
    assert ([Lit(c)] + tail)[1..] == tail;
    GreedyStep([Lit(c)] + tail, anchorEnd, s, pos, x);
  }

  lemma LiteralCons(w: string, rest: seq<Atom>)
    requires w != ""
    ensures Literal(w) + rest == [Lit(w[0])] + (Literal(w[1..]) + rest)
  {
  }

  lemma StepsCons(pos: nat, n: nat, b: seq<nat>)
    requires n > 0
    ensures Steps(pos, n) + b == [pos] + (Steps(pos + 1, n - 1) + b)
  {
  }

  /** A literal word present at `pos` is matched character by character before the rest. */
  lemma {:induction false} LiteralThen(w: string, rest: seq<Atom>, anchorEnd: bool, s: string, pos: nat, b: seq<nat>)
    requires pos + |w| <= |s| && s[pos..pos + |w|] == w
    requires MatchFrom(rest, anchorEnd, s, pos + |w|) == Some(b)
    ensures MatchFrom(Literal(w) + rest, anchorEnd, s, pos) == Some(Steps(pos, |w|) + b)
    decreases |w|
  {
    if w == "" {
      assert Literal(w) + rest == rest;
      assert Steps(pos, 0) + b == b;
    } else {
      assert s[pos + 1..pos + 1 + |w[1..]|] == w[1..];
      LiteralThen(w[1..], rest, anchorEnd, s, pos + 1, b);
      LiteralStep(w, rest, anchorEnd, s, pos, b);
    }
  }

  lemma LiteralStep(w: string, rest: seq<Atom>, anchorEnd: bool, s: string, pos: nat, b: seq<nat>)
    requires w != "" && pos + |w| <= |s| && s[pos..pos + |w|] == w
    requires MatchFrom(Literal(w[1..]) + rest, anchorEnd, s, pos + 1) == Some(Steps(pos + 1, |w| - 1) + b)
    ensures MatchFrom(Literal(w) + rest, anchorEnd, s, pos) == Some(Steps(pos, |w|) + b)
  {
    assert s[pos] == s[pos..pos + |w|][0];
    LitStep(w[0], Literal(w[1..]) + rest, anchorEnd, s, pos, Steps(pos + 1, |w| - 1) + b);
    LiteralCons(w, rest);
    StepsCons(pos, |w|, b);
  }

  /** A match of a literal word followed by more atoms has the word at its start. */
  lemma {:induction false} AcceptsLiteral(w: string, rest: seq<Atom>, anchorEnd: bool, s: string, b: seq<nat>)
    requires Accepts(Literal(w) + rest, anchorEnd, s, b)
    ensures b[0] + |w| <= |s| && s[b[0]..b[0] + |w|] == w && b[|w|] == b[0] + |w|
    decreases |w|
  {
    if w != "" {
      var atoms := Literal(w) + rest;
      LiteralCons(w, rest);
      AcceptsTail(atoms, anchorEnd, s, b);
      assert atoms[1..] == Literal(w[1..]) + rest;
      AcceptsLiteral(w[1..], rest, anchorEnd, s, b[1..]);
      assert atoms[0] == Lit(w[0]);
      assert InClass(s[b[0]], Lit(w[0]).cls);
      assert s[b[0]] == w[0];
      assert s[b[0]..b[0] + |w|] == [s[b[0]]] + s[b[1]..b[1] + |w[1..]|];
    }
  }

  /** A pattern made of a literal word and one more atom: where the word first occurs at `p`, and the
      greedy run of the atom after it meets the atom's minimum, the search reports exactly that. */
  lemma WordThenAtom(w: string, a: Atom, s: string, p: nat)
    requires Text.OccursAt(s, w, p)
    requires forall i :: 0 <= i < p ==> !Text.OccursAt(s, w, i)
    requires GreedyRun(a, s, p + |w|) >= a.min
    ensures var e := p + |w| + GreedyRun(a, s, p + |w|);
      Search(Pattern(Literal(w) + [a], false), s) == Some(Steps(p, |w|) + [p + |w|, e])
  {
    var atoms := Literal(w) + [a];
    var m := Steps(p, |w|) + [p + |w|, p + |w| + GreedyRun(a, s, p + |w|)];
    WordThenAtomMatch(w, a, s, p);
    assert MatchFrom(atoms, false, s, p) == Some(m);
    WordFirst(w, [a], s, p);
    SearchAt(atoms, false, s, p, m);
  }

  lemma WordThenAtomMatch(w: string, a: Atom, s: string, p: nat)
    requires Text.OccursAt(s, w, p)
    requires GreedyRun(a, s, p + |w|) >= a.min
    ensures var e := p + |w| + GreedyRun(a, s, p + |w|);
      MatchFrom(Literal(w) + [a], false, s, p) == Some(Steps(p, |w|) + [p + |w|, e])
  {
    var q := p + |w|;
    var b := [q, q + GreedyRun(a, s, q)];
    AtomThenEnd(a, s, q);
    assert s[p..q] == w;
    LiteralThen(w, [a], false, s, p, b);
  }

  /** Every match of a pattern starting with a literal word starts where the word occurs. */
  lemma WordFirst(w: string, rest: seq<Atom>, s: string, p: nat)
    requires forall i :: 0 <= i < p ==> !Text.OccursAt(s, w, i)
    ensures NoMatchBefore(Literal(w) + rest, false, s, p)
  {
    forall b | Accepts(Literal(w) + rest, false, s, b)
      ensures p <= b[0]
    {
      AcceptsLiteral(w, rest, false, s, b);
      assert Text.OccursAt(s, w, b[0]);
    }
  }

  /** A single atom matches its greedy run, when that meets its minimum. */
  lemma AtomThenEnd(a: Atom, s: string, q: nat)
    requires q <= |s| && GreedyRun(a, s, q) >= a.min
    ensures MatchFrom([a], false, s, q) == Some([q, q + GreedyRun(a, s, q)])
  {
    var e := q + GreedyRun(a, s, q);
    assert MatchFrom([], false, s, e) == Some([e]);
    assert [a][1..] == [];
    GreedyStep([a], false, s, q, [e]);
    assert [q] + [e] == [q, e];
  }

  /** No way of matching `atoms` in `s` starts before `p`. */
  ghost predicate NoMatchBefore(atoms: seq<Atom>, anchorEnd: bool, s: string, p: nat) {
    forall b :: Accepts(atoms, anchorEnd, s, b) ==> p <= b[0]
  }

  /** When the engine matches at `p` and every match of the pattern starts at `p` or later,
      the search reports the engine's match at `p`. */
  lemma SearchAt(atoms: seq<Atom>, anchorEnd: bool, s: string, p: nat, m: seq<nat>)
    requires p <= |s| && MatchFrom(atoms, anchorEnd, s, p) == Some(m)
    requires NoMatchBefore(atoms, anchorEnd, s, p)
    ensures Search(Pattern(atoms, anchorEnd), s) == Some(m)
  {
    var pat := Pattern(atoms, anchorEnd);
    SearchComplete(pat, s, m);
    SearchFromFound(pat, s, 0);
  }
}
