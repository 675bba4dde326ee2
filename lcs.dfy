/**
 * Sentence alignment and plagiarism scoring (lab_2/main.py).
 *
 * A text is a sequence of sentences, a sentence a sequence of tokens. Two
 * sentences are compared through a dynamic-programming grid whose recurrence
 * only counts a match on the main diagonal (row index equal to column index),
 * so the grid's bottom-right cell is the number of positions at which the two
 * sentences carry the same token, not the length of a longest common
 * subsequence. The per-sentence score divides that number (gated by a
 * threshold) by the suspicious sentence's length; the text score averages the
 * sentence scores.
 */
module Lcs {
  import opened PyText

  type Sentence = seq<string>
  type Matrix = seq<seq<int>>

  /** `m` has `rows` rows of `columns` cells each. */
  predicate IsGrid(m: Matrix, rows: nat, columns: nat) {
    |m| == rows && forall r :: 0 <= r < rows ==> |m[r]| == columns
  }

  // ---------------------------------------------------------------------------
  // create_zero_matrix

  /** `rows` lists of `columns` zeros, or the empty list when either size is
      below 1. */
  function CreateZeroMatrix(rows: int, columns: int): (m: Matrix)
    ensures rows < 1 || columns < 1 ==> m == []
    ensures rows >= 1 && columns >= 1 ==>
      IsGrid(m, rows, columns) &&
      forall r, c :: 0 <= r < rows && 0 <= c < columns ==> m[r][c] == 0
  {
    if rows < 1 || columns < 1 then []
    else seq(rows, _ => seq(columns, _ => 0))
  }

  // ---------------------------------------------------------------------------
  // The grid the fill loop computes

  /** The value of cell (i, j) under the loop's recurrence. Row -1 and column -1
      stand for the cells Python reaches with index -1 before they are
      written, which still hold 0. */
  function Cell(a: Sentence, b: Sentence, i: int, j: int): (n: nat)
    requires i < |a| && j < |b|
    ensures n <= (if i < 0 || j < 0 then 0 else Min(i, j) + 1)
    decreases i + j + 2
  {
    if i < 0 || j < 0 then 0
    else if a[i] == b[j] && i == j then Cell(a, b, i - 1, j - 1) + 1
    else Max(Cell(a, b, i - 1, j), Cell(a, b, i, j - 1))
  }

  /** The number of positions p < k at which both sentences hold the same token. */
  function MatchCount(a: Sentence, b: Sentence, k: nat): (n: nat)
    requires k <= |a| && k <= |b|
    ensures n <= k
  {
    if k == 0 then 0 else MatchCount(a, b, k - 1) + (if a[k - 1] == b[k - 1] then 1 else 0)
  }

  lemma {:induction false} MatchCountMonotone(a: Sentence, b: Sentence, k: nat, l: nat)
    requires k <= l <= |a| && l <= |b|
    ensures MatchCount(a, b, k) <= MatchCount(a, b, l)
    decreases l - k
  {
    if k < l {
      MatchCountMonotone(a, b, k, l - 1);
    }
  }

  lemma {:induction false} MatchCountSelf(a: Sentence, k: nat)
    requires k <= |a|
    ensures MatchCount(a, a, k) == k
  {
    if k > 0 {
      MatchCountSelf(a, k - 1);
    }
  }

  /** Cell (i, j) counts the positions k <= min(i, j) at which the sentences
      agree: the diagonal-only match makes the grid a running count of
      aligned agreements, not a longest common subsequence. */
  lemma {:induction false} CellCountsAlignedMatches(a: Sentence, b: Sentence, i: int, j: int)
    requires -1 <= i < |a| && -1 <= j < |b|
    ensures Cell(a, b, i, j) == MatchCount(a, b, Min(i, j) + 1)
    decreases i + j + 2
  {
    if i >= 0 && j >= 0 {
      if a[i] == b[j] && i == j {
        CellCountsAlignedMatches(a, b, i - 1, j - 1);
        DiagonalMatchStep(a, b, i);
      } else {
        CellCountsAlignedMatches(a, b, i - 1, j);
        CellCountsAlignedMatches(a, b, i, j - 1);
        OffDiagonalStep(a, b, i, j);
      }
    }
  }

  lemma DiagonalMatchStep(a: Sentence, b: Sentence, i: nat)
    requires i < |a| && i < |b| && a[i] == b[i]
    requires Cell(a, b, i - 1, i - 1) == MatchCount(a, b, i)
    ensures Cell(a, b, i, i) == MatchCount(a, b, i + 1)
  {
    assert Cell(a, b, i, i) == Cell(a, b, i - 1, i - 1) + 1;
  }

  lemma OffDiagonalStep(a: Sentence, b: Sentence, i: nat, j: nat)
    requires i < |a| && j < |b| && !(a[i] == b[j] && i == j)
    requires Cell(a, b, i - 1, j) == MatchCount(a, b, Min(i - 1, j) + 1)
    requires Cell(a, b, i, j - 1) == MatchCount(a, b, Min(i, j - 1) + 1)
    ensures Cell(a, b, i, j) == MatchCount(a, b, Min(i, j) + 1)
  {
    var up, left := Cell(a, b, i - 1, j), Cell(a, b, i, j - 1);
    assert Cell(a, b, i, j) == Max(up, left);
    if i < j {
      MatchCountMonotone(a, b, i, i + 1);
    } else if j < i {
      MatchCountMonotone(a, b, j, j + 1);
    } else {
      assert MatchCount(a, b, i + 1) == MatchCount(a, b, i);
    }
  }

  /** What fill_lcs_matrix returns: the empty list when either sentence is
      empty, otherwise the |a| by |b| grid of cell values. */
  function LcsMatrix(a: Sentence, b: Sentence): (m: Matrix)
    ensures a == [] || b == [] ==> m == []
    ensures a != [] && b != [] ==> IsGrid(m, |a|, |b|)
  {
    if a == [] || b == [] then []
    else seq(|a|, i requires 0 <= i < |a| => seq(|b|, j requires 0 <= j < |b| => Cell(a, b, i, j)))
  }

  /** Every row and every column of the grid is non-decreasing, and cell (i, j)
      never exceeds min(i, j) + 1. */
  lemma GridMonotone(a: Sentence, b: Sentence, i: nat, j: nat, i': nat, j': nat)
    requires i <= i' < |a| && j <= j' < |b|
    ensures LcsMatrix(a, b)[i][j] <= LcsMatrix(a, b)[i'][j']
    ensures LcsMatrix(a, b)[i][j] <= Min(i, j) + 1
  {
    CellCountsAlignedMatches(a, b, i, j);
    CellCountsAlignedMatches(a, b, i', j');
    MatchCountMonotone(a, b, Min(i, j) + 1, Min(i', j') + 1);
  }

  /** The corner cell is 0 or 1, so the check of lab_2/main.py:133 never fires
      once the grid has passed the equality check before it. */
  lemma CornerIsZeroOrOne(a: Sentence, b: Sentence)
    requires a != [] && b != []
    ensures LcsMatrix(a, b)[0][0] == 0 || LcsMatrix(a, b)[0][0] == 1
  {
    CellCountsAlignedMatches(a, b, 0, 0);
  }

  // ---------------------------------------------------------------------------
  // fill_lcs_matrix

  /** Row-major progress of the fill loop: the cells before (i, j) hold their
      final values, all later ones are still 0. */
  ghost predicate FilledUpTo(m: Matrix, a: Sentence, b: Sentence, i: int, j: int)
    requires IsGrid(m, |a|, |b|)
  {
    forall r, c :: 0 <= r < |a| && 0 <= c < |b| ==>
      m[r][c] == (if r < i || (r == i && c < j) then Cell(a, b, r, c) else 0)
  }

  /** While cell (i, j) is being filled, the neighbours the loop reads hold
      their cell values, and 0 where index -1 reaches an unwritten cell. */
  lemma NeighboursRead(m: Matrix, a: Sentence, b: Sentence, i: nat, j: nat)
    requires IsGrid(m, |a|, |b|) && i < |a| && j < |b| && FilledUpTo(m, a, b, i, j)
    ensures i == j ==> PyAt(PyAt(m, i - 1), j - 1) == Cell(a, b, i - 1, j - 1)
    ensures PyAt(PyAt(m, i - 1), j) == Cell(a, b, i - 1, j)
    ensures PyAt(PyAt(m, i), j - 1) == Cell(a, b, i, j - 1)
  {
    var up := if i == 0 then |a| - 1 else i - 1;
    var back := if j == 0 then |b| - 1 else j - 1;
    assert PyAt(m, i - 1) == m[up] && PyAt(m, i) == m[i];
    assert PyAt(m[up], j - 1) == m[up][back];
    assert PyAt(m[i], j - 1) == m[i][back];
  }

  /** Fills the grid row by row, reading the neighbours with Python's
      indexing, so that index -1 reaches the last row or column; those cells
      have not been written yet and read as 0. */
  method FillLcsMatrix(a: Sentence, b: Sentence) returns (m: Matrix)
    ensures m == LcsMatrix(a, b)
    ensures a != [] && b != [] ==>
      forall i, j :: 0 <= i < |a| && 0 <= j < |b| ==> m[i][j] == MatchCount(a, b, Min(i, j) + 1)
  {
    m := CreateZeroMatrix(|a|, |b|);
    for i := 0 to |a|
      invariant b == [] ==> m == []
      invariant b != [] ==> IsGrid(m, |a|, |b|) && FilledUpTo(m, a, b, i, 0)
    {
      for j := 0 to |b|
        invariant b == [] ==> m == []
        invariant b != [] ==> IsGrid(m, |a|, |b|) && FilledUpTo(m, a, b, i, j)
      {
        NeighboursRead(m, a, b, i, j);
        var v: int;
        if a[i] == b[j] && i == j {
          v := PyAt(PyAt(m, i - 1), j - 1) + 1;
        } else {
          v := Max(PyAt(PyAt(m, i - 1), j), PyAt(PyAt(m, i), j - 1));
        }
        assert v == Cell(a, b, i, j);
        m := m[i := m[i][j := v]];
      }
    }
    if a != [] && b != [] {
      assert FilledUpTo(m, a, b, |a|, 0);
      forall i | 0 <= i < |a|
        ensures m[i] == LcsMatrix(a, b)[i]
      {
      }
      forall i, j | 0 <= i < |a| && 0 <= j < |b|
        ensures m[i][j] == MatchCount(a, b, Min(i, j) + 1)
      {
        CellCountsAlignedMatches(a, b, i, j);
      }
    }
  }

  // ---------------------------------------------------------------------------
  // find_lcs_length

  /** The number of aligned positions at which the sentences agree. */
  function AlignedMatches(a: Sentence, b: Sentence): nat
  {
    MatchCount(a, b, Min(|a|, |b|))
  }

  /** Reads the bottom-right cell (`[-1][-1]`) and gates it: a ratio to the
      second sentence's length below the threshold reports 0. The ratio is
      compared exactly, as `length < threshold * |b|`. */
  function FindLcsLength(a: Sentence, b: Sentence, threshold: real): (n: int)
    ensures n == -1 <==> threshold < 0.0 || threshold > 1.0
    ensures 0.0 <= threshold <= 1.0 && (a == [] || b == []) ==> n == 0
    ensures 0.0 <= threshold <= 1.0 ==> 0 <= n <= Min(|a|, |b|)
    ensures 0.0 <= threshold <= 1.0 && a != [] && b != [] ==>
      n == (if (AlignedMatches(a, b) as real) < threshold * (|b| as real) then 0 else AlignedMatches(a, b))
  {
    if threshold < 0.0 || threshold > 1.0 then -1
    else if a == [] || b == [] then 0
    else
      Gate(BottomRight(a, b), |b|, threshold)
  }

  /** The bottom-right cell `[-1][-1]` of the filled matrix: the number of
      positions where the two sentences agree. */
  function BottomRight(a: Sentence, b: Sentence): (n: nat)
    requires a != [] && b != []
    ensures n == AlignedMatches(a, b)
  {
    var m := LcsMatrix(a, b);
    assert PyAt(PyAt(m, -1), -1) == m[|a| - 1][|b| - 1] == Cell(a, b, |a| - 1, |b| - 1);
    CellCountsAlignedMatches(a, b, |a| - 1, |b| - 1);
    PyAt(PyAt(m, -1), -1)
  }

  /** `0` when `length / size` falls below the threshold, `length` otherwise. */
  function Gate(length: nat, size: nat, threshold: real): (n: nat)
    requires size > 0
    ensures n == (if (length as real) < threshold * (size as real) then 0 else length)
  {
    RatioBelow(length, size, threshold);
    if (length as real) / (size as real) < threshold then 0 else length
  }

  lemma RatioBelow(length: int, size: nat, threshold: real)
    requires size > 0
    ensures (length as real) / (size as real) < threshold <==> (length as real) < threshold * (size as real)
  {
    var q := (length as real) / (size as real);
    assert q * (size as real) == length as real;
    if q < threshold {
      assert q * (size as real) < threshold * (size as real);
    } else {
      assert q * (size as real) >= threshold * (size as real);
    }
  }

  /** A threshold of 0 never gates: the length is the number of aligned agreements. */
  lemma ZeroThresholdNeverGates(a: Sentence, b: Sentence)
    ensures FindLcsLength(a, b, 0.0) == AlignedMatches(a, b)
  {
  }

  // ---------------------------------------------------------------------------
  // find_lcs

  /** Where one pass of the backtrace loop body moves from (r, c): diagonally
      on equal tokens; otherwise up when the cell above (Python index r - 1,
      so row -1 is the last row) is strictly greater than the cell to the left
      (column -1 is the last column), else left. Then the boundary rule: a
      column that fell below 0 is reset to 0 and the row moves up once more; a
      row that fell below 0 moves the column left. Either way r + c drops. */
  function Step(a: Sentence, b: Sentence, m: Matrix, r: nat, c: nat): (next: (int, int))
    requires IsGrid(m, |a|, |b|) && r < |a| && c < |b|
    ensures next.0 + next.1 < r + c
    ensures next.0 <= r && next.1 < |b|
    ensures a[r] == b[c] ==> next.0 < r
  {
    var (r1, c1) :=
      if a[r] == b[c] then (r - 1, c - 1)
      else if PyAt(PyAt(m, r - 1), c) > PyAt(PyAt(m, r), c - 1) then (r - 1, c)
      else (r, c - 1);
    if c1 < 0 then (r1 - 1, 0)
    else if r1 < 0 then (r1, c1 - 1)
    else (r1, c1)
  }

  /** The tokens the backtrace loop collects from (r, c) on, in the order they
      end up in the result (the loop appends them, then reverses the list). */
  function Backtrace(a: Sentence, b: Sentence, m: Matrix, r: int, c: int): (lcs: Sentence)
    requires IsGrid(m, |a|, |b|) && r < |a| && c < |b|
    ensures |lcs| <= Max(r + 1, 0)
    decreases r + c + 2
  {
    if r < 0 || c < 0 then []
    else
      var next := Step(a, b, m, r, c);
      Backtrace(a, b, m, next.0, next.1) + (if a[r] == b[c] then [b[c]] else [])
  }

  /** find_lcs without its loop: the empty tuple unless the supplied grid is
      non-empty, equals the freshly filled one and has a corner of 0 or 1. */
  function FindLcsResult(a: Sentence, b: Sentence, m: Matrix): (lcs: Sentence)
    ensures m == [] || m != LcsMatrix(a, b) ==> lcs == []
    ensures |lcs| <= |a|
  {
    if m == [] || m != LcsMatrix(a, b) then []
    else if m[0][0] != 0 && m[0][0] != 1 then []
    else Backtrace(a, b, m, |a| - 1, |b| - 1)
  }

  /** Every collected token occurs in both sentences. */
  lemma {:induction false} BacktraceTokensShared(a: Sentence, b: Sentence, m: Matrix, r: int, c: int)
    requires IsGrid(m, |a|, |b|) && r < |a| && c < |b|
    ensures forall t :: t in Backtrace(a, b, m, r, c) ==> t in a && t in b
    decreases r + c + 2
  {
    if r >= 0 && c >= 0 {
      var next := Step(a, b, m, r, c);
      BacktraceTokensShared(a, b, m, next.0, next.1);
    }
  }

  /** The collected tokens form a subsequence of the first sentence up to row
      r: every collection moves the row up. */
  lemma {:induction false} BacktraceSubsequenceOfFirst(a: Sentence, b: Sentence, m: Matrix, r: int, c: int)
    requires IsGrid(m, |a|, |b|) && r < |a| && c < |b|
    ensures IsSubsequence(Backtrace(a, b, m, r, c), a[..Max(r + 1, 0)])
    decreases r + c + 2
  {
    if r >= 0 && c >= 0 {
      var next := Step(a, b, m, r, c);
      var rest := Backtrace(a, b, m, next.0, next.1);
      var k := Max(next.0 + 1, 0);
      BacktraceSubsequenceOfFirst(a, b, m, next.0, next.1);
      if a[r] == b[c] {
        SubsequenceWidenSnoc(rest, a, k, r);
        assert Backtrace(a, b, m, r, c) == rest + [a[r]];
      } else {
        SubsequenceWiden(rest, a, k, r + 1);
        assert Backtrace(a, b, m, r, c) == rest;
      }
    } else {
      SubsequenceEmpty(a[..0]);
    }
  }

  /** On two copies of one sentence the backtrace walks the diagonal and
      collects the whole prefix. */
  lemma {:induction false} BacktraceIdentical(a: Sentence, m: Matrix, r: int)
    requires IsGrid(m, |a|, |a|) && -1 <= r < |a|
    ensures Backtrace(a, a, m, r, r) == a[..r + 1]
    decreases r + 1
  {
    if r == 0 {
      assert Step(a, a, m, 0, 0) == (-2, 0);
    } else if r > 0 {
      assert Step(a, a, m, r, r) == (r - 1, r - 1);
      BacktraceIdentical(a, m, r - 1);
      assert a[..r] + [a[r]] == a[..r + 1];
    }
  }

  /** What find_lcs promises: nothing unless the grid is the filled one for
      two non-empty sentences; otherwise tokens found in both sentences, in the
      order of the first; and a sentence backtraced against itself gives
      itself back. */
  lemma FindLcsResultProperties(a: Sentence, b: Sentence, m: Matrix)
    ensures m == [] || m != LcsMatrix(a, b) || a == [] || b == [] ==> FindLcsResult(a, b, m) == []
    ensures forall t :: t in FindLcsResult(a, b, m) ==> t in a && t in b
    ensures IsSubsequence(FindLcsResult(a, b, m), a) && |FindLcsResult(a, b, m)| <= |a|
    ensures a != [] && a == b && m == LcsMatrix(a, a) ==> FindLcsResult(a, b, m) == a
  {
    if m == [] || m != LcsMatrix(a, b) || (m[0][0] != 0 && m[0][0] != 1) {
      SubsequenceEmpty(a);
    } else {
      var lcs := Backtrace(a, b, m, |a| - 1, |b| - 1);
      assert FindLcsResult(a, b, m) == lcs;
      BacktraceTokensShared(a, b, m, |a| - 1, |b| - 1);
      BacktraceSubsequenceOfFirst(a, b, m, |a| - 1, |b| - 1);
      assert a[..|a|] == a;
      SubsequenceElements(lcs, a);
      if a == b {
        BacktraceIdentical(a, m, |a| - 1);
      }
    }
  }

  /** find_lcs: validates the grid against a freshly filled one, then walks
      it back from the bottom-right cell. */
  method FindLcs(a: Sentence, b: Sentence, m: Matrix) returns (lcs: Sentence)
    ensures lcs == FindLcsResult(a, b, m)
    ensures m == [] || m != LcsMatrix(a, b) || a == [] || b == [] ==> lcs == []
    ensures forall t :: t in lcs ==> t in a && t in b
    ensures IsSubsequence(lcs, a) && |lcs| <= |a|
    ensures a != [] && a == b && m == LcsMatrix(a, a) ==> lcs == a
  {
    FindLcsResultProperties(a, b, m);
    if m == [] {
      return [];
    }
    var expected := FillLcsMatrix(a, b);
    if m != expected {
      return [];
    }
    assert IsGrid(m, |a|, |b|);
    if m[0][0] != 0 && m[0][0] != 1 {
      return [];
    }
    lcs := WalkBack(a, b, m);
  }

  /** The loop of find_lcs: collects tokens while both indices are in the
      grid, then reverses what it collected. */
  method WalkBack(a: Sentence, b: Sentence, m: Matrix) returns (lcs: Sentence)
    requires IsGrid(m, |a|, |b|)
    ensures lcs == Backtrace(a, b, m, |a| - 1, |b| - 1)
  {
    var collected: Sentence := [];
    var r, c := |a| - 1, |b| - 1;
    assert Reverse(collected) == [];
    while r >= 0 && c >= 0
      invariant -2 <= r < |a| && 0 <= c + 1 <= |b|
      invariant Backtrace(a, b, m, |a| - 1, |b| - 1) == Backtrace(a, b, m, r, c) + Reverse(collected)
      decreases r + c + 2
    {
      ghost var r0, c0, before := r, c, collected;
      if a[r] == b[c] {
        collected := collected + [b[c]];
        r := r - 1;
        c := c - 1;
      } else if PyAt(PyAt(m, r - 1), c) > PyAt(PyAt(m, r), c - 1) {
        r := r - 1;
      } else {
        c := c - 1;
      }
      if c < 0 {
        c := 0;
        r := r - 1;
      } else if r < 0 {
        c := c - 1;
      }
      ghost var emitted := if a[r0] == b[c0] then [b[c0]] else [];
      assert (r, c) == Step(a, b, m, r0, c0);
      assert Backtrace(a, b, m, r0, c0) == Backtrace(a, b, m, r, c) + emitted;
      assert Reverse(collected) == emitted + Reverse(before) by {
        if a[r0] == b[c0] {
          assert collected[..|collected| - 1] == before;
        }
      }
      ConcatAssociative(Backtrace(a, b, m, r, c), emitted, Reverse(before));
    }
    lcs := Reverse(collected);
  }

  // The column reset lets the walk compare against the first token of the
  // second sentence again after a diagonal step has already used it, so the
  // result need not be a subsequence of the second sentence and can be longer
  // than it.

  /** On a = [a, x, a] and b = [a] the filled grid is accepted and the walk
      collects "a" twice: the result is not a subsequence of b. */
  lemma FindLcsRepeatsFirstToken()
    ensures var a, b := ["a", "x", "a"], ["a"];
      FindLcsResult(a, b, LcsMatrix(a, b)) == ["a", "a"] &&
      !IsSubsequence(FindLcsResult(a, b, LcsMatrix(a, b)), b)
  {
    var a, b := ["a", "x", "a"], ["a"];
    var m := LcsMatrix(a, b);
    assert Cell(a, b, 0, 0) == 1;
    assert m[0][0] == 1;
    assert Step(a, b, m, 2, 0) == (0, 0);
    assert Step(a, b, m, 0, 0) == (-2, 0);
    assert Backtrace(a, b, m, 0, 0) == ["a"];
    assert Backtrace(a, b, m, 2, 0) == ["a", "a"];
  }

  /** The walk as evidently intended: the same steps, but it ends as soon as
      either index leaves the grid, with no column reset. */
  function CommonBacktrace(a: Sentence, b: Sentence, m: Matrix, r: int, c: int): (lcs: Sentence)
    requires IsGrid(m, |a|, |b|) && r < |a| && c < |b|
    ensures |lcs| <= Max(Min(r, c) + 1, 0)
    decreases r + c + 2
  {
    if r < 0 || c < 0 then []
    else if a[r] == b[c] then CommonBacktrace(a, b, m, r - 1, c - 1) + [b[c]]
    else if PyAt(PyAt(m, r - 1), c) > PyAt(PyAt(m, r), c - 1) then CommonBacktrace(a, b, m, r - 1, c)
    else CommonBacktrace(a, b, m, r, c - 1)
  }

  lemma {:induction false} CommonBacktraceInFirst(a: Sentence, b: Sentence, m: Matrix, r: int, c: int)
    requires IsGrid(m, |a|, |b|) && -1 <= r < |a| && -1 <= c < |b|
    ensures IsSubsequence(CommonBacktrace(a, b, m, r, c), a[..r + 1])
    decreases r + c + 2
  {
    if r < 0 || c < 0 {
      SubsequenceEmpty(a[..r + 1]);
    } else if a[r] == b[c] {
      var rest := CommonBacktrace(a, b, m, r - 1, c - 1);
      CommonBacktraceInFirst(a, b, m, r - 1, c - 1);
      SubsequenceWidenSnoc(rest, a, r, r);
      assert CommonBacktrace(a, b, m, r, c) == rest + [a[r]];
    } else if PyAt(PyAt(m, r - 1), c) > PyAt(PyAt(m, r), c - 1) {
      var rest := CommonBacktrace(a, b, m, r - 1, c);
      CommonBacktraceInFirst(a, b, m, r - 1, c);
      assert a[..r + 1][..r] == a[..r];
      SubsequenceOfPrefix(rest, a[..r + 1], r);
      assert CommonBacktrace(a, b, m, r, c) == rest;
    } else {
      CommonBacktraceInFirst(a, b, m, r, c - 1);
      assert CommonBacktrace(a, b, m, r, c) == CommonBacktrace(a, b, m, r, c - 1);
    }
  }

  lemma {:induction false} CommonBacktraceInSecond(a: Sentence, b: Sentence, m: Matrix, r: int, c: int)
    requires IsGrid(m, |a|, |b|) && -1 <= r < |a| && -1 <= c < |b|
    ensures IsSubsequence(CommonBacktrace(a, b, m, r, c), b[..c + 1])
    decreases r + c + 2
  {
    if r < 0 || c < 0 {
      SubsequenceEmpty(b[..c + 1]);
    } else if a[r] == b[c] {
      var rest := CommonBacktrace(a, b, m, r - 1, c - 1);
      CommonBacktraceInSecond(a, b, m, r - 1, c - 1);
      SubsequenceWidenSnoc(rest, b, c, c);
      assert CommonBacktrace(a, b, m, r, c) == rest + [b[c]];
    } else if PyAt(PyAt(m, r - 1), c) > PyAt(PyAt(m, r), c - 1) {
      CommonBacktraceInSecond(a, b, m, r - 1, c);
      assert CommonBacktrace(a, b, m, r, c) == CommonBacktrace(a, b, m, r - 1, c);
    } else {
      var rest := CommonBacktrace(a, b, m, r, c - 1);
      CommonBacktraceInSecond(a, b, m, r, c - 1);
      assert b[..c + 1][..c] == b[..c];
      SubsequenceOfPrefix(rest, b[..c + 1], c);
      assert CommonBacktrace(a, b, m, r, c) == rest;
    }
  }

  /** find_lcs with the walk corrected: its result is a common subsequence of
      both sentences. */
  function FindLcsCorrected(a: Sentence, b: Sentence, m: Matrix): (lcs: Sentence)
    ensures m == [] || m != LcsMatrix(a, b) ==> lcs == []
    ensures IsSubsequence(lcs, a) && IsSubsequence(lcs, b)
  {
    if m == [] || m != LcsMatrix(a, b) then
      SubsequenceEmpty(a);
      SubsequenceEmpty(b);
      []
    else
      CommonBacktraceInFirst(a, b, m, |a| - 1, |b| - 1);
      CommonBacktraceInSecond(a, b, m, |a| - 1, |b| - 1);
      assert a[..|a|] == a && b[..|b|] == b;
      CommonBacktrace(a, b, m, |a| - 1, |b| - 1)
  }

  /** On the input that shows the discrepancy, the corrected walk collects "a" once. */
  lemma FindLcsCorrectedOnRepeat()
    ensures var a, b := ["a", "x", "a"], ["a"];
      FindLcsCorrected(a, b, LcsMatrix(a, b)) == ["a"]
  {
    var a, b := ["a", "x", "a"], ["a"];
    var m := LcsMatrix(a, b);
    assert CommonBacktrace(a, b, m, 1, -1) == [];
  }

  // ---------------------------------------------------------------------------
  // calculate_plagiarism_score

  /** The share of the suspicious sentence covered by `lcsLength`: 0.0 for an
      empty sentence (checked first), -1.0 for a negative length or one longer
      than the sentence. */
  function CalculatePlagiarismScore(lcsLength: int, suspicious: Sentence): (score: real)
    ensures suspicious == [] ==> score == 0.0
    ensures suspicious != [] && (lcsLength < 0 || lcsLength > |suspicious|) ==> score == -1.0
    ensures suspicious != [] && 0 <= lcsLength <= |suspicious| ==>
      0.0 <= score <= 1.0 && score * (|suspicious| as real) == lcsLength as real
  {
    if suspicious == [] then 0.0
    else if lcsLength < 0 then -1.0
    else if lcsLength > |suspicious| then -1.0
    else (lcsLength as real) / (|suspicious| as real)
  }

  // ---------------------------------------------------------------------------
  // calculate_text_plagiarism_score

  /** The original text cut down, or padded with empty sentences, to `n`
      sentences. */
  function Aligned(original: seq<Sentence>, n: nat): (r: seq<Sentence>)
    ensures |r| == n
    ensures forall k :: 0 <= k < n ==> r[k] == (if k < |original| then original[k] else [])
  {
    if n <= |original| then original[..n] else original + seq(n - |original|, _ => [])
  }

  predicate NoEmptySentence(text: seq<Sentence>) {
    forall k :: 0 <= k < |text| ==> text[k] != []
  }

  /** The score of one aligned pair of sentences. */
  function PairScore(original: Sentence, suspicious: Sentence, threshold: real): real
  {
    CalculatePlagiarismScore(FindLcsLength(original, suspicious, threshold), suspicious)
  }

  /** A pair with an empty suspicious sentence scores 0.0; a threshold
      outside [0, 1] makes every other pair score -1.0; otherwise the score
      lies in [0, 1]. */
  lemma PairScoreBounds(original: Sentence, suspicious: Sentence, threshold: real)
    ensures suspicious == [] ==> PairScore(original, suspicious, threshold) == 0.0
    ensures suspicious != [] && !(0.0 <= threshold <= 1.0) ==> PairScore(original, suspicious, threshold) == -1.0
    ensures 0.0 <= threshold <= 1.0 ==> 0.0 <= PairScore(original, suspicious, threshold) <= 1.0
  {
  }

  /** The sum of the scores of the first k aligned pairs. */
  function ScoreSum(original: seq<Sentence>, suspicious: seq<Sentence>, threshold: real, k: nat): real
    requires k <= |original| && k <= |suspicious|
  {
    if k == 0 then 0.0
    else ScoreSum(original, suspicious, threshold, k - 1) + PairScore(original[k - 1], suspicious[k - 1], threshold)
  }

  /** A sentence compared with itself scores 1.0 whatever the threshold in [0, 1]. */
  lemma PairScoreIdentical(s: Sentence, threshold: real)
    requires s != [] && 0.0 <= threshold <= 1.0
    ensures PairScore(s, s, threshold) == 1.0
  {
    SelfLcsLength(s, threshold);
    var n := |s| as real;
    assert PairScore(s, s, threshold) == n / n;
  }

  /** Every token of a sentence agrees with itself, so the gate never fires. */
  lemma SelfLcsLength(s: Sentence, threshold: real)
    requires s != [] && 0.0 <= threshold <= 1.0
    ensures FindLcsLength(s, s, threshold) == |s|
  {
    MatchCountSelf(s, |s|);
    assert AlignedMatches(s, s) == |s|;
    FractionAtMost(threshold, |s| as real);
    assert !((|s| as real) < threshold * (|s| as real));
  }

  lemma FractionAtMost(t: real, n: real)
    requires 0.0 <= t <= 1.0 && 0.0 <= n
    ensures t * n <= n
  {
    assert (1.0 - t) * n >= 0.0;
  }

  /** A sum of per-sentence scores in [0, n], divided by n, lies in [0, 1];
      it is 1 exactly when the sum is n. */
  lemma MeanBounds(sum: real, n: real)
    requires n > 0.0 && 0.0 <= sum <= n
    ensures 0.0 <= sum / n <= 1.0
    ensures sum == n ==> sum / n == 1.0
  {
    var q := sum / n;
    assert q * n == sum;
    assert (1.0 - q) * n >= 0.0;
  }

  lemma {:induction false} ScoreSumBounds(original: seq<Sentence>, suspicious: seq<Sentence>, threshold: real, k: nat)
    requires k <= |original| && k <= |suspicious| && 0.0 <= threshold <= 1.0
    ensures 0.0 <= ScoreSum(original, suspicious, threshold, k) <= k as real
  {
    if k > 0 {
      ScoreSumBounds(original, suspicious, threshold, k - 1);
      PairScoreBounds(original[k - 1], suspicious[k - 1], threshold);
      var prev := ScoreSum(original, suspicious, threshold, k - 1);
      var pair := PairScore(original[k - 1], suspicious[k - 1], threshold);
      assert ScoreSum(original, suspicious, threshold, k) == prev + pair;
      assert (k - 1) as real + 1.0 == k as real;
    }
  }

  lemma {:induction false} ScoreSumIdentical(text: seq<Sentence>, threshold: real, k: nat)
    requires k <= |text| && 0.0 <= threshold <= 1.0
    requires NoEmptySentence(text)
    ensures ScoreSum(text, text, threshold, k) == k as real
  {
    if k > 0 {
      ScoreSumIdentical(text, threshold, k - 1);
      PairScoreIdentical(text[k - 1], threshold);
      var prev := ScoreSum(text, text, threshold, k - 1);
      var pair := PairScore(text[k - 1], text[k - 1], threshold);
      assert ScoreSum(text, text, threshold, k) == prev + pair;
      assert prev == (k - 1) as real && pair == 1.0;
      assert (k - 1) as real + 1.0 == k as real;
    }
  }

  /** Aligns the original text with the suspicious one (truncating or padding
      it with empty sentences) and averages the pair scores over the number of
      suspicious sentences; -1.0 when either text is empty. */
  method CalculateTextPlagiarismScore(original: seq<Sentence>, suspicious: seq<Sentence>, threshold: real := 0.3)
    returns (score: real)
    ensures original == [] || suspicious == [] ==> score == -1.0
    ensures original != [] && suspicious != [] ==>
      score == ScoreSum(Aligned(original, |suspicious|), suspicious, threshold, |suspicious|) / (|suspicious| as real)
    ensures original != [] && suspicious != [] && 0.0 <= threshold <= 1.0 ==> 0.0 <= score <= 1.0
    ensures original != [] && original == suspicious && 0.0 <= threshold <= 1.0 && NoEmptySentence(original)
      ==> score == 1.0
  {
    if original == [] || suspicious == [] {
      return -1.0;
    }
    var aligned := AlignText(original, |suspicious|);
    var sum := SumScores(aligned, suspicious, threshold);
    score := sum / (|suspicious| as real);
    TextScoreBounds(original, suspicious, threshold);
  }

  /** Cuts the original text down to `n` sentences, or pads it with empty
      ones until it has `n`. */
  method AlignText(original: seq<Sentence>, n: nat) returns (aligned: seq<Sentence>)
    ensures aligned == Aligned(original, n)
  {
    aligned := original;
    if n < |aligned| {
      aligned := aligned[..n];
    } else if |aligned| < n {
      while |aligned| < n
        invariant |original| <= |aligned| <= n
        invariant aligned == original + seq(|aligned| - |original|, _ => [])
        decreases n - |aligned|
      {
        aligned := aligned + [[]];
      }
    }
  }

  /** Adds up the pair scores of two aligned texts. */
  method SumScores(aligned: seq<Sentence>, suspicious: seq<Sentence>, threshold: real) returns (sum: real)
    requires |aligned| == |suspicious|
    ensures sum == ScoreSum(aligned, suspicious, threshold, |suspicious|)
  {
    sum := 0.0;
    for k := 0 to |suspicious|
      invariant sum == ScoreSum(aligned, suspicious, threshold, k)
    {
      var length := FindLcsLength(aligned[k], suspicious[k], threshold);
      var pairScore := CalculatePlagiarismScore(length, suspicious[k]);
      assert ScoreSum(aligned, suspicious, threshold, k + 1) == sum + pairScore;
      sum := sum + pairScore;
    }
  }

  /** The text score lies in [0, 1], and is 1 for a text compared with
      itself. */
  lemma TextScoreBounds(original: seq<Sentence>, suspicious: seq<Sentence>, threshold: real)
    requires original != [] && suspicious != []
    ensures var n := |suspicious|;
      var mean := ScoreSum(Aligned(original, n), suspicious, threshold, n) / (n as real);
      (0.0 <= threshold <= 1.0 ==> 0.0 <= mean <= 1.0) &&
      (original == suspicious && 0.0 <= threshold <= 1.0 && NoEmptySentence(original) ==> mean == 1.0)
  {
    var n := |suspicious|;
    var aligned := Aligned(original, n);
    if 0.0 <= threshold <= 1.0 {
      ScoreSumBounds(aligned, suspicious, threshold, n);
      if original == suspicious && NoEmptySentence(original) {
        assert aligned == original;
        ScoreSumIdentical(original, threshold, n);
      }
      MeanBounds(ScoreSum(aligned, suspicious, threshold, n), n as real);
    }
  }

  // ---------------------------------------------------------------------------
  // tokenize_by_lines

  /** The stripped lines that are not empty, in line order. */
  function NonBlankLines(lines: seq<string>): (r: seq<string>)
    ensures |r| <= |lines|
    ensures forall k :: 0 <= k < |r| ==> r[k] != [] && !IsSpace(r[k][0]) && !IsSpace(r[k][|r[k]| - 1])
  {
    if lines == [] then []
    else
      var line := Strip(lines[|lines| - 1]);
      NonBlankLines(lines[..|lines| - 1]) + (if line == [] then [] else [line])
  }

  /** `tokenize` applied to each line, in order. */
  function TokenizeEach(lines: seq<string>, tokenize: string -> Sentence): (r: seq<Sentence>)
    ensures |r| == |lines|
    ensures forall k :: 0 <= k < |r| ==> r[k] == tokenize(lines[k])
  {
    if lines == [] then [] else TokenizeEach(lines[..|lines| - 1], tokenize) + [tokenize(lines[|lines| - 1])]
  }

  /** Splits the text at line feeds, strips each line, skips the lines left
      empty and tokenizes the others with the external `tokenize`, which is a
      parameter here. */
  method TokenizeByLines(text: string, tokenize: string -> Sentence) returns (sentences: seq<Sentence>)
    ensures |sentences| == |NonBlankLines(Split(text, '\n'))|
    ensures forall k :: 0 <= k < |sentences| ==> sentences[k] == tokenize(NonBlankLines(Split(text, '\n'))[k])
  {
    var lines := Split(text, '\n');
    sentences := TokenizeLines(lines, tokenize);
  }

  /** The loop of `tokenize_by_lines` over the lines of the text. */
  method TokenizeLines(lines: seq<string>, tokenize: string -> Sentence) returns (sentences: seq<Sentence>)
    ensures sentences == TokenizeEach(NonBlankLines(lines), tokenize)
  {
    sentences := [];
    for k := 0 to |lines|
      invariant sentences == TokenizeEach(NonBlankLines(lines[..k]), tokenize)
    {
      var line := Strip(lines[k]);
      TokenizeStep(lines, k, tokenize);
      if line != [] {
        sentences := sentences + [tokenize(line)];
      }
    }
    assert lines[..|lines|] == lines;
  }

  lemma TokenizeStep(lines: seq<string>, k: nat, tokenize: string -> Sentence)
    requires k < |lines|
    ensures TokenizeEach(NonBlankLines(lines[..k + 1]), tokenize) ==
      TokenizeEach(NonBlankLines(lines[..k]), tokenize) + (if Strip(lines[k]) == [] then [] else [tokenize(Strip(lines[k]))])
  {
    var done := NonBlankLines(lines[..k]);
    NonBlankLinesStep(lines, k);
    if Strip(lines[k]) != [] {
      assert (done + [Strip(lines[k])])[..|done|] == done;
    }
  }

  lemma NonBlankLinesStep(lines: seq<string>, k: nat)
    requires k < |lines|
    ensures NonBlankLines(lines[..k + 1]) ==
      NonBlankLines(lines[..k]) + (if Strip(lines[k]) == [] then [] else [Strip(lines[k])])
  {
    assert lines[..k + 1][..k] == lines[..k];
  }

  /** A line that is blank or whitespace-only contributes no sentence. */
  lemma BlankLineContributesNothing(lines: seq<string>, blank: string)
    requires forall i :: 0 <= i < |blank| ==> IsSpace(blank[i])
    ensures NonBlankLines(lines + [blank]) == NonBlankLines(lines)
  {
    StripEmpty(blank);
    assert (lines + [blank])[..|lines|] == lines;
  }

  /** A text with no visible character yields no sentence at all. */
  lemma {:induction false} BlankTextHasNoSentences(lines: seq<string>)
    requires forall k :: 0 <= k < |lines| ==> forall i :: 0 <= i < |lines[k]| ==> IsSpace(lines[k][i])
    ensures NonBlankLines(lines) == []
  {
    if lines != [] {
      BlankTextHasNoSentences(lines[..|lines| - 1]);
      StripEmpty(lines[|lines| - 1]);
    }
  }
}
