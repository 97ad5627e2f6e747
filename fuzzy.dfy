/** Fuzzy-matching primitives of the completion engine: the unrestricted
    Damerau-Levenshtein distance (`dl_distance`) and the literal prefix count
    (`metrics(...).prefix_matches`). */
module Fuzzy {

  function Min(x: int, y: int): int { if x <= y then x else y }

  function Min3(x: int, y: int, z: int): int { Min(Min(x, y), z) }

  function Max(x: int, y: int): int { if x <= y then y else x }

  /** The 1-based position of the last occurrence of `c` among the first `n`
      characters of `s`, or 0 when `c` does not occur there. */
  function LastSeen(s: string, n: nat, c: char): (k: nat)
    requires n <= |s|
    ensures k <= n
    ensures 0 < k ==> s[k - 1] == c
  {
    if n == 0 then 0 else if s[n - 1] == c then n else LastSeen(s, n - 1, c)
  }

  /** `LastSeen` is the last occurrence: a position holding `c` with no
      occurrence of `c` after it. */
  lemma {:induction false} LastSeenIs(s: string, n: nat, c: char, k: nat)
    requires k <= n <= |s|
    requires 0 < k ==> s[k - 1] == c
    requires forall t :: k <= t < n ==> s[t] != c
    ensures LastSeen(s, n, c) == k
    decreases n
  {
    if k < n {
      LastSeenIs(s, n - 1, c, k);
    }
  }

  /** Every row of `t` holds `w` cells. */
  predicate Rect(t: seq<seq<int>>, w: nat)
  {
    forall r :: 0 <= r < |t| ==> |t[r]| == w
  }

  /** The Lowrance-Wagner recurrence for the cell in row `i`, column `j` of
      the distance table, given the rows above it (`t`) and the cells to its
      left (`row`). Beside deletion, insertion and substitution, the
      character `b[j-1]`, last seen in `a` at row `k`, may be transposed with
      `a[i-1]`, last seen in `b` at column `l`: one edit, plus the deletions
      and insertions of whatever lies between them. */
  function Cell(a: string, b: string, t: seq<seq<int>>, row: seq<int>, i: nat, j: nat): int
    requires 0 < i <= |a| && 0 < j <= |b|
    requires |t| == i && Rect(t, |b| + 1) && |row| == j
  {
    var cost := if a[i - 1] == b[j - 1] then 0 else 1;
    var k := LastSeen(a, i - 1, b[j - 1]);
    var l := LastSeen(b, j - 1, a[i - 1]);
    var best := Min3(t[i - 1][j - 1] + cost, row[j - 1] + 1, t[i - 1][j] + 1);
    if 0 < k && 0 < l then Min(best, t[k - 1][l - 1] + (i - k - 1) + 1 + (j - l - 1))
    else best
  }

  /** Columns 0 to `j` of row `i`, filled left to right. */
  function RowCells(a: string, b: string, t: seq<seq<int>>, i: nat, j: nat): (row: seq<int>)
    requires 0 < i <= |a| && j <= |b|
    requires |t| == i && Rect(t, |b| + 1)
    ensures |row| == j + 1
  {
    if j == 0 then [i]
    else
      var prev := RowCells(a, b, t, i, j - 1);
      prev + [Cell(a, b, t, prev, i, j)]
  }

  /** Rows 0 to `i` of the distance table between `a` and `b`. */
  function Table(a: string, b: string, i: nat): (t: seq<seq<int>>)
    requires i <= |a|
    ensures |t| == i + 1 && Rect(t, |b| + 1)
  {
    if i == 0 then [seq(|b| + 1, c => c)]
    else
      var t := Table(a, b, i - 1);
      t + [RowCells(a, b, t, i, |b|)]
  }

  /** The distance between the first `i` characters of `a` and the first
      `j` characters of `b`. */
  function Dist(a: string, b: string, i: nat, j: nat): int
    requires i <= |a| && j <= |b|
  {
    Table(a, b, |a|)[i][j]
  }

  /**
   * `dl_distance(a, b)`: zero exactly for identical strings, and between the
   * difference of the lengths and the larger length.
   */
  function Distance(a: string, b: string): (d: int)
    ensures d == 0 <==> a == b
    ensures |a| - |b| <= d <= Max(|a|, |b|)
    ensures |b| - |a| <= d
  {
    var d := Dist(a, b, |a|, |b|);
    assert a[..|a|] == a && b[..|b|] == b;
    DistAtMostMax(a, b, |a|, |b|);
    DistAtLeastLengthGap(a, b, |a|, |b|);
    if a == b then DistIdentical(a, b, |a|); d
    else if d == 0 then DistZeroOnlyIdentical(a, b, |a|, |b|); d
    else d
  }

  /** A row, once filled, is not changed by filling more of it. */
  lemma {:induction false} RowCellsPrefix(a: string, b: string, t: seq<seq<int>>, i: nat, j: nat, j': nat)
    requires 0 < i <= |a| && j <= j' <= |b|
    requires |t| == i && Rect(t, |b| + 1)
    ensures RowCells(a, b, t, i, j')[..j + 1] == RowCells(a, b, t, i, j)
    decreases j'
  {
    if j < j' {
      RowCellsPrefix(a, b, t, i, j, j' - 1);
    }
  }

  /** A row of the table, once filled, is not changed by filling later ones. */
  lemma {:induction false} TablePrefix(a: string, b: string, r: nat, i: nat)
    requires r <= i <= |a|
    ensures Table(a, b, i)[r] == Table(a, b, r)[r]
    decreases i
  {
    if r < i {
      TablePrefix(a, b, r, i - 1);
    }
  }

  /** The borders of the table: from or to an empty prefix the distance is
      the other prefix's length. */
  lemma DistBorder(a: string, b: string, i: nat, j: nat)
    requires i <= |a| && j <= |b|
    ensures Dist(a, b, 0, j) == j
    ensures Dist(a, b, i, 0) == i
  {
    TablePrefix(a, b, 0, |a|);
    TablePrefix(a, b, i, |a|);
    if i > 0 {
      RowCellsPrefix(a, b, Table(a, b, i - 1), i, 0, |b|);
    }
  }

  /** Row `i > 0` of the table is the row filled from the rows above it. */
  lemma DistInRow(a: string, b: string, i: nat, j: nat)
    requires 0 < i <= |a| && j <= |b|
    ensures Dist(a, b, i, j) == RowCells(a, b, Table(a, b, i - 1), i, |b|)[j]
  {
    TablePrefix(a, b, i, |a|);
  }

  /** The rows above row `i` are those of the full table. */
  lemma DistAbove(a: string, b: string, r: nat, i: nat, c: nat)
    requires r < i <= |a| && c <= |b|
    ensures Table(a, b, i - 1)[r][c] == Dist(a, b, r, c)
  {
    TablePrefix(a, b, r, i - 1);
    TablePrefix(a, b, r, |a|);
  }

  /** A cell of a filled row, and the cell to its left. */
  lemma RowCellAt(a: string, b: string, t: seq<seq<int>>, i: nat, j: nat)
    requires 0 < i <= |a| && 0 < j <= |b|
    requires |t| == i && Rect(t, |b| + 1)
    ensures RowCells(a, b, t, i, |b|)[j] == Cell(a, b, t, RowCells(a, b, t, i, j - 1), i, j)
    ensures RowCells(a, b, t, i, |b|)[j - 1] == RowCells(a, b, t, i, j - 1)[j - 1]
  {
    RowCellsPrefix(a, b, t, i, j, |b|);
    RowCellsPrefix(a, b, t, i, j - 1, |b|);
  }

  /** The borders of the table, for every row and column. */
  lemma DistBorders(a: string, b: string)
    ensures forall j :: 0 <= j <= |b| ==> Dist(a, b, 0, j) == j
    ensures forall i :: 0 <= i <= |a| ==> Dist(a, b, i, 0) == i
  {
    forall j | 0 <= j <= |b| ensures Dist(a, b, 0, j) == j {
      DistBorder(a, b, 0, j);
    }
    forall i | 0 <= i <= |a| ensures Dist(a, b, i, 0) == i {
      DistBorder(a, b, i, 0);
    }
  }

  /** One step of the recurrence, in terms of the distances of smaller
      prefixes. */
  lemma DistUnfold(a: string, b: string, i: nat, j: nat)
    requires 0 < i <= |a| && 0 < j <= |b|
    ensures Dist(a, b, i, j) ==
      var best := Min3(Dist(a, b, i - 1, j - 1) + (if a[i - 1] == b[j - 1] then 0 else 1), Dist(a, b, i, j - 1) + 1, Dist(a, b, i - 1, j) + 1);
      var k := LastSeen(a, i - 1, b[j - 1]);
      var l := LastSeen(b, j - 1, a[i - 1]);
      if 0 < k && 0 < l then Min(best, Dist(a, b, k - 1, l - 1) + (i - k - 1) + 1 + (j - l - 1)) else best
  {
    var t := Table(a, b, i - 1);
    var row := RowCells(a, b, t, i, j - 1);
    var k := LastSeen(a, i - 1, b[j - 1]);
    var l := LastSeen(b, j - 1, a[i - 1]);
    DistIsCell(a, b, i, j);
    DistAbove(a, b, i - 1, i, j - 1);
    DistAbove(a, b, i - 1, i, j);
    if 0 < k && 0 < l {
      DistAbove(a, b, k - 1, i, l - 1);
    }
    CellValue(a, b, t, row, i, j);
  }

  /** The recurrence of one cell, in terms of the distances the cells it reads hold. */
  lemma CellValue(a: string, b: string, t: seq<seq<int>>, row: seq<int>, i: nat, j: nat)
    requires 0 < i <= |a| && 0 < j <= |b|
    requires |t| == i && Rect(t, |b| + 1) && |row| == j
    requires t[i - 1][j - 1] == Dist(a, b, i - 1, j - 1) && t[i - 1][j] == Dist(a, b, i - 1, j)
    requires row[j - 1] == Dist(a, b, i, j - 1)
    requires var k := LastSeen(a, i - 1, b[j - 1]);
      var l := LastSeen(b, j - 1, a[i - 1]);
      0 < k && 0 < l ==> t[k - 1][l - 1] == Dist(a, b, k - 1, l - 1)
    ensures Cell(a, b, t, row, i, j) ==
      var best := Min3(Dist(a, b, i - 1, j - 1) + (if a[i - 1] == b[j - 1] then 0 else 1), Dist(a, b, i, j - 1) + 1, Dist(a, b, i - 1, j) + 1);
      var k := LastSeen(a, i - 1, b[j - 1]);
      var l := LastSeen(b, j - 1, a[i - 1]);
      if 0 < k && 0 < l then Min(best, Dist(a, b, k - 1, l - 1) + (i - k - 1) + 1 + (j - l - 1)) else best
  {
  }

  /** Cell `(i, j)` of the table is the recurrence applied to the rows above it and the cells to its left. */
  lemma DistIsCell(a: string, b: string, i: nat, j: nat)
    requires 0 < i <= |a| && 0 < j <= |b|
    ensures var t := Table(a, b, i - 1);
      && Dist(a, b, i, j) == Cell(a, b, t, RowCells(a, b, t, i, j - 1), i, j)
      && RowCells(a, b, t, i, j - 1)[j - 1] == Dist(a, b, i, j - 1)
  {
    DistInRow(a, b, i, j);
    DistInRow(a, b, i, j - 1);
    RowCellAt(a, b, Table(a, b, i - 1), i, j);
  }

  /** The dynamic programme of `dl_distance`: a table of prefix distances
      filled row by row, and a map from each character to the last row of `a`
      holding it. */
  method DlDistance(a: string, b: string) returns (d: int)
    ensures d == Distance(a, b)
  {
    var n, m := |a|, |b|;
    var table := new int[n + 1, m + 1];
    var lastRow: map<char, nat> := map[];
    for j := 0 to m + 1
      invariant forall c :: 0 <= c < j ==> table[0, c] == Dist(a, b, 0, c)
    {
      DistBorder(a, b, 0, j);
      table[0, j] := j;
    }
    for i := 1 to n + 1
      invariant forall r, c :: 0 <= r < i && 0 <= c <= m ==> table[r, c] == Dist(a, b, r, c)
      invariant forall ch :: ch in lastRow ==> lastRow[ch] == LastSeen(a, i - 1, ch)
      invariant forall ch :: ch !in lastRow ==> LastSeen(a, i - 1, ch) == 0
    {
      FillRow(a, b, table, lastRow, i);
      lastRow := lastRow[a[i - 1] := i];
    }
    d := table[n, m];
  }

  /** Row `i` of the dynamic programme, left to right, keeping the last column
      of `b` that matched the row's character. */
  method FillRow(a: string, b: string, table: array2<int>, lastRow: map<char, nat>, i: nat)
    requires 0 < i <= |a| && table.Length0 == |a| + 1 && table.Length1 == |b| + 1
    requires forall r, c :: 0 <= r < i && 0 <= c <= |b| ==> table[r, c] == Dist(a, b, r, c)
    requires forall ch :: ch in lastRow ==> lastRow[ch] == LastSeen(a, i - 1, ch)
    requires forall ch :: ch !in lastRow ==> LastSeen(a, i - 1, ch) == 0
    modifies table
    ensures forall c :: 0 <= c <= |b| ==> table[i, c] == Dist(a, b, i, c)
    ensures forall r, c :: 0 <= r < table.Length0 && r != i && 0 <= c < table.Length1 ==> table[r, c] == old(table[r, c])
  {
    DistBorder(a, b, i, 0);
    table[i, 0] := i;
    var lastCol := 0;
    for j := 1 to |b| + 1
      invariant forall c :: 0 <= c < j ==> table[i, c] == Dist(a, b, i, c)
      invariant forall r, c :: 0 <= r < table.Length0 && r != i && 0 <= c < table.Length1 ==> table[r, c] == old(table[r, c])
      invariant lastCol == LastSeen(b, j - 1, a[i - 1])
    {
      var k := if b[j - 1] in lastRow then lastRow[b[j - 1]] else 0;
      var l := lastCol;
      var cost := if a[i - 1] == b[j - 1] then 0 else 1;
      if cost == 0 {
        lastCol := j;
      }
      var best := Min3(table[i - 1, j - 1] + cost, table[i, j - 1] + 1, table[i - 1, j] + 1);
      if 0 < k && 0 < l {
        best := Min(best, table[k - 1, l - 1] + (i - k - 1) + 1 + (j - l - 1));
      }
      DistUnfold(a, b, i, j);
      table[i, j] := best;
    }
  }

  /** Each step of the recurrence is the cheapest of its candidate edits:
      no dearer than any of them and equal to one of them. */
  lemma DistStep(a: string, b: string, i: nat, j: nat)
    requires 0 < i <= |a| && 0 < j <= |b|
    ensures
      var d := Dist(a, b, i, j);
      var sub := Dist(a, b, i - 1, j - 1) + (if a[i - 1] == b[j - 1] then 0 else 1);
      var ins := Dist(a, b, i, j - 1) + 1;
      var del := Dist(a, b, i - 1, j) + 1;
      var k := LastSeen(a, i - 1, b[j - 1]);
      var l := LastSeen(b, j - 1, a[i - 1]);
      && d <= sub && d <= ins && d <= del
      && (0 < k && 0 < l ==> d <= Dist(a, b, k - 1, l - 1) + (i - k - 1) + 1 + (j - l - 1))
      && (d == sub || d == ins || d == del || (0 < k && 0 < l && d == Dist(a, b, k - 1, l - 1) + (i - k - 1) + 1 + (j - l - 1)))
  {
    DistUnfold(a, b, i, j);
  }

  /** A zero distance between prefixes forces identical prefixes. */
  lemma {:induction false} DistZeroOnlyIdentical(a: string, b: string, i: nat, j: nat)
    requires i <= |a| && j <= |b|
    requires Dist(a, b, i, j) == 0
    ensures i == j && a[..i] == b[..j]
    decreases i + j
  {
    DistBorder(a, b, i, j);
    if i > 0 && j > 0 {
      DistStep(a, b, i, j);
      DistNonNegative(a, b, i - 1, j);
      DistNonNegative(a, b, i, j - 1);
      var k := LastSeen(a, i - 1, b[j - 1]);
      var l := LastSeen(b, j - 1, a[i - 1]);
      if 0 < k && 0 < l {
        DistNonNegative(a, b, k - 1, l - 1);
      }
      DistNonNegative(a, b, i - 1, j - 1);
      DistZeroOnlyIdentical(a, b, i - 1, j - 1);
      assert a[..i] == a[..i - 1] + [a[i - 1]];
      assert b[..j] == b[..j - 1] + [b[j - 1]];
    }
  }

  /** Identical prefixes are at distance zero. */
  lemma {:induction false} DistIdentical(a: string, b: string, i: nat)
    requires i <= |a| && i <= |b| && a[..i] == b[..i]
    ensures Dist(a, b, i, i) <= 0
  {
    DistBorder(a, b, i, i);
    if i > 0 {
      assert a[..i - 1] == a[..i][..i - 1] && b[..i - 1] == b[..i][..i - 1];
      assert a[i - 1] == a[..i][i - 1] && b[i - 1] == b[..i][i - 1];
      DistIdentical(a, b, i - 1);
      DistStep(a, b, i, i);
    }
  }

  lemma Min3Swap(x: int, y: int, z: int)
    ensures Min3(x, y, z) == Min3(x, z, y)
  {
  }

  /** Swapping the strings swaps insertion with deletion and the two
      last-seen positions with each other, so one step of the recurrence is
      symmetric once the smaller cells are. */
  lemma DistSymmetricStep(a: string, b: string, i: nat, j: nat)
    requires 0 < i <= |a| && 0 < j <= |b|
    requires Dist(a, b, i - 1, j - 1) == Dist(b, a, j - 1, i - 1)
    requires Dist(a, b, i, j - 1) == Dist(b, a, j - 1, i)
    requires Dist(a, b, i - 1, j) == Dist(b, a, j, i - 1)
    requires
      var k := LastSeen(a, i - 1, b[j - 1]);
      var l := LastSeen(b, j - 1, a[i - 1]);
      0 < k && 0 < l ==> Dist(a, b, k - 1, l - 1) == Dist(b, a, l - 1, k - 1)
    ensures Dist(a, b, i, j) == Dist(b, a, j, i)
  {
    DistUnfold(a, b, i, j);
    DistUnfold(b, a, j, i);
    var cost := if a[i - 1] == b[j - 1] then 0 else 1;
    Min3Swap(Dist(a, b, i - 1, j - 1) + cost, Dist(a, b, i, j - 1) + 1, Dist(a, b, i - 1, j) + 1);
  }

  lemma {:induction false} DistSymmetric(a: string, b: string, i: nat, j: nat)
    requires i <= |a| && j <= |b|
    ensures Dist(a, b, i, j) == Dist(b, a, j, i)
    decreases i + j
  {
    DistBorder(a, b, i, j);
    DistBorder(b, a, j, i);
    if i > 0 && j > 0 {
      DistSymmetric(a, b, i - 1, j - 1);
      DistSymmetric(a, b, i, j - 1);
      DistSymmetric(a, b, i - 1, j);
      var k := LastSeen(a, i - 1, b[j - 1]);
      var l := LastSeen(b, j - 1, a[i - 1]);
      if 0 < k && 0 < l {
        DistSymmetric(a, b, k - 1, l - 1);
      }
      DistSymmetricStep(a, b, i, j);
    }
  }

  /** The distance is symmetric. */
  lemma DistanceSymmetric(a: string, b: string)
    ensures Distance(a, b) == Distance(b, a)
  {
    DistSymmetric(a, b, |a|, |b|);
  }

  /** No pair of prefixes is further apart than the longer one is long. */
  lemma {:induction false} DistAtMostMax(a: string, b: string, i: nat, j: nat)
    requires i <= |a| && j <= |b|
    ensures Dist(a, b, i, j) <= Max(i, j)
    decreases i + j
  {
    DistBorder(a, b, i, j);
    if i > 0 && j > 0 {
      DistAtMostMax(a, b, i - 1, j - 1);
      DistStep(a, b, i, j);
    }
  }

  /** Every edit changes the length by at most one, so the distance is at
      least the difference of the lengths. */
  lemma {:induction false} DistAtLeastLengthGap(a: string, b: string, i: nat, j: nat)
    requires i <= |a| && j <= |b|
    ensures Dist(a, b, i, j) >= i - j && Dist(a, b, i, j) >= j - i
    decreases i + j
  {
    DistBorder(a, b, i, j);
    if i > 0 && j > 0 {
      DistAtLeastLengthGap(a, b, i - 1, j - 1);
      DistAtLeastLengthGap(a, b, i, j - 1);
      DistAtLeastLengthGap(a, b, i - 1, j);
      var k := LastSeen(a, i - 1, b[j - 1]);
      var l := LastSeen(b, j - 1, a[i - 1]);
      if 0 < k && 0 < l {
        DistAtLeastLengthGap(a, b, k - 1, l - 1);
      }
      DistStep(a, b, i, j);
    }
  }

  /** No distance is negative. */
  lemma DistNonNegative(a: string, b: string, i: nat, j: nat)
    requires i <= |a| && j <= |b|
    ensures Dist(a, b, i, j) >= 0
  {
    DistAtLeastLengthGap(a, b, i, j);
  }

  /** Removing a prefix `p` takes at most |p| deletions. */
  lemma {:induction false} DistDeletedPrefix(p: string, s: string, t: nat)
    requires t <= |s|
    ensures Dist(p + s, s, |p| + t, t) <= |p|
    decreases t
  {
    DistBorder(p + s, s, |p| + t, t);
    if t > 0 {
      DistDeletedPrefix(p, s, t - 1);
      assert (p + s)[|p| + t - 1] == s[t - 1];
      DistStep(p + s, s, |p| + t, t);
    }
  }

  /** Deleting a prefix of `k` characters costs exactly `k`. */
  lemma DistanceDeletedPrefix(p: string, s: string)
    ensures Distance(p + s, s) == |p|
  {
    DistDeletedPrefix(p, s, |s|);
    DistAtLeastLengthGap(p + s, s, |p + s|, |s|);
  }

  /** Plain Levenshtein distance: insertion, deletion and substitution only. */
  function Lev(a: string, b: string, i: nat, j: nat): nat
    requires i <= |a| && j <= |b|
    decreases i + j
  {
    if i == 0 then j
    else if j == 0 then i
    else Min3(Lev(a, b, i - 1, j - 1) + (if a[i - 1] == b[j - 1] then 0 else 1), Lev(a, b, i, j - 1) + 1, Lev(a, b, i - 1, j) + 1)
  }

  /** Counting transpositions can only lower the price. */
  lemma {:induction false} DistAtMostLev(a: string, b: string, i: nat, j: nat)
    requires i <= |a| && j <= |b|
    ensures Dist(a, b, i, j) <= Lev(a, b, i, j)
    decreases i + j
  {
    if i > 0 && j > 0 {
      DistAtMostLev(a, b, i - 1, j - 1);
      DistAtMostLev(a, b, i, j - 1);
      DistAtMostLev(a, b, i - 1, j);
      DistStep(a, b, i, j);
    }
    DistBorder(a, b, i, j);
  }

  lemma DistanceAtMostLevenshtein(a: string, b: string)
    ensures Distance(a, b) <= Lev(a, b, |a|, |b|)
  {
    DistAtMostLev(a, b, |a|, |b|);
  }

  /** The optimal-string-alignment variant, which only swaps two characters
      that are adjacent in both strings; it is the reference the unrestricted
      distance is told apart from. */
  function Osa(a: string, b: string, i: nat, j: nat): nat
    requires i <= |a| && j <= |b|
    decreases i + j
  {
    if i == 0 then j
    else if j == 0 then i
    else
      var best := Min3(Osa(a, b, i - 1, j - 1) + (if a[i - 1] == b[j - 1] then 0 else 1), Osa(a, b, i, j - 1) + 1, Osa(a, b, i - 1, j) + 1);
      if 1 < i && 1 < j && a[i - 1] == b[j - 2] && a[i - 2] == b[j - 1] then Min(best, Osa(a, b, i - 2, j - 2) + 1)
      else best
  }

  // ---------------------------------------------------------------------
  // prefix_matches

  /** `metrics(cword, match).prefix_matches`: the number of leading
      characters the two strings share, compared position by position. */
  function PrefixMatches(a: string, b: string): (n: nat)
    ensures n <= |a| && n <= |b|
    ensures a[..n] == b[..n]
    ensures n < |a| && n < |b| ==> a[n] != b[n]
  {
    if |a| == 0 || |b| == 0 || a[0] != b[0] then 0
    else
      var n := 1 + PrefixMatches(a[1..], b[1..]);
      assert a[..n] == [a[0]] + a[1..][..n - 1];
      assert b[..n] == [b[0]] + b[1..][..n - 1];
      n
  }

  /** The count is the longest common prefix: every common prefix is at most
      that long. */
  lemma PrefixMatchesLongest(a: string, b: string, k: nat)
    requires k <= |a| && k <= |b| && a[..k] == b[..k]
    ensures k <= PrefixMatches(a, b)
  {
  }

  lemma PrefixMatchesSymmetric(a: string, b: string)
    ensures PrefixMatches(a, b) == PrefixMatches(b, a)
  {
    PrefixMatchesLongest(a, b, PrefixMatches(b, a));
    PrefixMatchesLongest(b, a, PrefixMatches(a, b));
  }

  /** Putting a common prefix in front of both strings adds exactly its
      length, so the count never decreases. */
  lemma {:induction false} PrefixMatchesExtend(p: string, a: string, b: string)
    ensures PrefixMatches(p + a, p + b) == |p| + PrefixMatches(a, b)
    decreases |p|
  {
    if p != [] {
      PrefixMatchesExtend(p[1..], a, b);
      assert (p + a)[0] == p[0] == (p + b)[0];
      assert (p + a)[1..] == p[1..] + a && (p + b)[1..] == p[1..] + b;
    } else {
      assert p + a == a && p + b == b;
    }
  }
}
