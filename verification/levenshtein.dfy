/** `levenshtein_distance(seq_a, seq_b)`: a dynamic-programming table of
    edit distances between prefixes, a table of the operation chosen for each
    cell, and a backtrace from the bottom-right corner that reports the edits.
    The reports, printed by the source, are returned here as a list. */
module Levenshtein {

  /** The operation recorded for a cell; `None` only on the borders. */
  datatype Op = None | Insert | Delete | Substitute

  /** One reported edit. Positions are 1-based, as printed: `DeleteBase(i, c)`
      deletes the `i`-th base `c` of the first string, `InsertBase(i, j, c)`
      inserts the `j`-th base `c` of the second string after the first `i`
      bases, and `SubstituteBase(i, c, d)` replaces the `i`-th base `c` by `d`. */
  datatype Edit =
    | DeleteBase(i: nat, base: char)
    | InsertBase(i: nat, j: nat, base: char)
    | SubstituteBase(i: nat, base: char, replacement: char)

  /** The smallest of three costs. */
  function Min3(x: int, y: int, z: int): int {
    if x <= y && x <= z then x else if y <= z then y else z
  }

  /** The smallest of three is one of them and at most each. */
  lemma Min3Bounds(x: int, y: int, z: int)
    ensures Min3(x, y, z) <= x && Min3(x, y, z) <= y && Min3(x, y, z) <= z
    ensures Min3(x, y, z) == x || Min3(x, y, z) == y || Min3(x, y, z) == z
  {
  }

  /** The three candidates in the fixed order DELETE, INSERT, SUBSTITUTE, of
      which the first one strictly below all earlier ones wins. */
  function Choose(del: int, ins: int, sub: int): (r: (int, Op))
    ensures r.0 == Min3(del, ins, sub) && r.1 != None
  {
    var first := (del, Delete);
    var second := if ins < first.0 then (ins, Insert) else first;
    if sub < second.0 then (sub, Substitute) else second
  }

  /** The winner is the first candidate holding the minimum: DELETE on any
      tie with it, INSERT on a tie with SUBSTITUTE only. */
  lemma ChooseFirstMinimum(del: int, ins: int, sub: int)
    ensures var r := Choose(del, ins, sub);
            r.0 <= del && r.0 <= ins && r.0 <= sub &&
            (r.1 == Delete <==> del <= ins && del <= sub) &&
            (r.1 == Insert <==> ins < del && ins <= sub) &&
            (r.1 == Substitute <==> sub < del && sub < ins) &&
            (r.1 == Delete ==> r.0 == del) &&
            (r.1 == Insert ==> r.0 == ins) &&
            (r.1 == Substitute ==> r.0 == sub)
  {
  }

  /** The substitution cost of cell `(i, j)`: 0 when the bases match. */
  function Cost(a: string, b: string, i: nat, j: nat): (c: nat)
    requires 1 <= i <= |a| && 1 <= j <= |b|
    ensures c == 0 <==> a[i - 1] == b[j - 1]
    ensures c <= 1
  {
    if a[i - 1] == b[j - 1] then 0 else 1
  }

  /** Row 0 of the distance table: `mat[0][j] = j`. */
  function TopRow(n: nat): (r: seq<int>)
    ensures |r| == n + 1
    ensures forall k :: 0 <= k <= n ==> r[k] == k
  {
    if n == 0 then [0] else TopRow(n - 1) + [n]
  }

  /** Cells `0..j` of row `i >= 1`, given the row above: the first cell
      holds `i`, each later one the cheapest of its three candidates. */
  function RowPrefix(a: string, b: string, i: nat, above: seq<int>, j: nat): (r: seq<int>)
    requires 1 <= i <= |a| && |above| == |b| + 1 && j <= |b|
    ensures |r| == j + 1 && r[0] == i
    decreases j
  {
    if j == 0 then [i]
    else
      var p := RowPrefix(a, b, i, above, j - 1);
      p + [Min3(above[j] + 1, p[j - 1] + 1, above[j - 1] + Cost(a, b, i, j))]
  }

  /** Row `i` of the distance table, computed from the rows above it. */
  function Row(a: string, b: string, i: nat): (r: seq<int>)
    requires i <= |a|
    ensures |r| == |b| + 1
    decreases i
  {
    if i == 0 then TopRow(|b|) else RowPrefix(a, b, i, Row(a, b, i - 1), |b|)
  }

  /** Cell `(i, j)` of the distance table: the distance between the first
      `i` bases of `a` and the first `j` bases of `b`. */
  function Mat(a: string, b: string, i: nat, j: nat): int
    requires i <= |a| && j <= |b|
  {
    Row(a, b, i)[j]
  }

  /** A longer prefix of a row keeps the cells of a shorter one. */
  lemma {:induction false} RowPrefixStable(a: string, b: string, i: nat, above: seq<int>, j: nat, k: nat)
    requires 1 <= i <= |a| && |above| == |b| + 1 && k <= j <= |b|
    ensures RowPrefix(a, b, i, above, j)[k] == RowPrefix(a, b, i, above, k)[k]
    decreases j
  {
    if k < j {
      RowPrefixStable(a, b, i, above, j - 1, k);
    }
  }

  /** The table satisfies the edit-distance recurrence: the borders hold
      the prefix lengths, and an interior cell the cheapest of a deletion
      from the cell above, an insertion from the cell to the left and a
      substitution or match from the cell diagonally above. */
  lemma MatRecurrence(a: string, b: string, i: nat, j: nat)
    requires i <= |a| && j <= |b|
    ensures i == 0 ==> Mat(a, b, i, j) == j
    ensures j == 0 ==> Mat(a, b, i, j) == i
    ensures i > 0 && j > 0 ==>
              Mat(a, b, i, j) == Min3(Mat(a, b, i - 1, j) + 1, Mat(a, b, i, j - 1) + 1, Mat(a, b, i - 1, j - 1) + Cost(a, b, i, j))
  {
    if i > 0 {
      var above := Row(a, b, i - 1);
      RowPrefixStable(a, b, i, above, |b|, j);
      if j > 0 {
        RowPrefixStable(a, b, i, above, |b|, j - 1);
      }
    }
  }

  /** Cell `(i, j)` of the operation table. */
  function OpAt(a: string, b: string, i: nat, j: nat): (op: Op)
    requires i <= |a| && j <= |b|
    ensures op == None <==> i == 0 || j == 0
    ensures op == Delete ==> Mat(a, b, i, j) == Mat(a, b, i - 1, j) + 1
    ensures op == Insert ==> Mat(a, b, i, j) == Mat(a, b, i, j - 1) + 1
    ensures op == Substitute ==> Mat(a, b, i, j) == Mat(a, b, i - 1, j - 1) + Cost(a, b, i, j)
  {
    if i == 0 || j == 0 then None
    else
      MatRecurrence(a, b, i, j);
      ChooseFirstMinimum(Mat(a, b, i - 1, j) + 1, Mat(a, b, i, j - 1) + 1, Mat(a, b, i - 1, j - 1) + Cost(a, b, i, j));
      Choose(Mat(a, b, i - 1, j) + 1, Mat(a, b, i, j - 1) + 1, Mat(a, b, i - 1, j - 1) + Cost(a, b, i, j)).1
  }

  /** Both tables have `|a| + 1` rows of `|b| + 1` cells, each equal to the
      recurrence. */
  predicate Tables(a: string, b: string, mat: seq<seq<int>>, ops: seq<seq<Op>>) {
    |mat| == |ops| == |a| + 1 &&
    (forall i {:trigger mat[i]} {:trigger ops[i]} :: 0 <= i <= |a| ==> mat[i] == Row(a, b, i) && |ops[i]| == |b| + 1) &&
    (forall i, j {:trigger ops[i][j]} :: 0 <= i <= |a| && 0 <= j <= |b| ==> ops[i][j] == OpAt(a, b, i, j))
  }

  /** The two border loops and the fill loop, one row at a time: row 0
      holds `0, 1, ..., |b|`, every later row starts with its index and
      continues with the cheapest candidate for each cell. */
  method Fill(a: string, b: string) returns (mat: seq<seq<int>>, ops: seq<seq<Op>>)
    ensures Tables(a, b, mat, ops)
  {
    var top := [0];
    var topOps := [None];
    var j := 1;
    while j <= |b|
      invariant 1 <= j <= |b| + 1 && top == TopRow(j - 1)
      invariant |topOps| == j && forall k :: 0 <= k < j ==> topOps[k] == None
    {
      top := top + [j];
      topOps := topOps + [None];
      j := j + 1;
    }
    mat := [top];
    ops := [topOps];
    var i := 1;
    while i <= |a|
      invariant 1 <= i <= |a| + 1 && |mat| == |ops| == i
      invariant forall r {:trigger mat[r]} {:trigger ops[r]} :: 0 <= r < i ==> mat[r] == Row(a, b, r) && |ops[r]| == |b| + 1
      invariant forall r, k {:trigger ops[r][k]} :: 0 <= r < i && 0 <= k <= |b| ==> ops[r][k] == OpAt(a, b, r, k)
    {
      var row, rowOps := FillRow(a, b, i, mat[i - 1]);
      ghost var (mat0, ops0) := (mat, ops);
      mat := mat + [row];
      ops := ops + [rowOps];
      assert forall r :: 0 <= r < i ==> mat[r] == mat0[r] && ops[r] == ops0[r];
      i := i + 1;
    }
  }

  /** The inner fill loop for row `i`, given row `i - 1`. */
  method FillRow(a: string, b: string, i: nat, above: seq<int>) returns (row: seq<int>, rowOps: seq<Op>)
    requires 1 <= i <= |a| && above == Row(a, b, i - 1)
    ensures row == Row(a, b, i) && |rowOps| == |b| + 1
    ensures forall k {:trigger rowOps[k]} :: 0 <= k <= |b| ==> rowOps[k] == OpAt(a, b, i, k)
  {
    row := [i];
    rowOps := [None];
    var j := 1;
    while j <= |b|
      invariant 1 <= j <= |b| + 1 && row == RowPrefix(a, b, i, above, j - 1)
      invariant |rowOps| == j && forall k {:trigger rowOps[k]} :: 0 <= k < j ==> rowOps[k] == OpAt(a, b, i, k)
    {
      var min := Choose(above[j] + 1, row[j - 1] + 1, above[j - 1] + Cost(a, b, i, j));
      CellStep(a, b, i, j, above);
      row := row + [min.0];
      rowOps := rowOps + [min.1];
      j := j + 1;
    }
  }

  /** Cell `(i, j)` of both tables, from row `i - 1` and the cells of row
      `i` before it. */
  lemma CellStep(a: string, b: string, i: nat, j: nat, above: seq<int>)
    requires 1 <= i <= |a| && 1 <= j <= |b| && above == Row(a, b, i - 1)
    ensures var p := RowPrefix(a, b, i, above, j - 1);
            var min := Choose(above[j] + 1, p[j - 1] + 1, above[j - 1] + Cost(a, b, i, j));
            RowPrefix(a, b, i, above, j) == p + [min.0] && OpAt(a, b, i, j) == min.1
  {
    var p := RowPrefix(a, b, i, above, j - 1);
    OpCell(a, b, i, j, above, p);
  }

  lemma OpCell(a: string, b: string, i: nat, j: nat, above: seq<int>, p: seq<int>)
    requires 1 <= i <= |a| && 1 <= j <= |b| && above == Row(a, b, i - 1)
    requires p == RowPrefix(a, b, i, above, j - 1)
    ensures OpAt(a, b, i, j) == Choose(above[j] + 1, p[j - 1] + 1, above[j - 1] + Cost(a, b, i, j)).1
  {
    RowPrefixStable(a, b, i, above, |b|, j - 1);
    var del, ins, sub := Mat(a, b, i - 1, j) + 1, Mat(a, b, i, j - 1) + 1, Mat(a, b, i - 1, j - 1) + Cost(a, b, i, j);
    assert del == above[j] + 1 && ins == p[j - 1] + 1 && sub == above[j - 1] + Cost(a, b, i, j);
    assert OpAt(a, b, i, j) == Choose(del, ins, sub).1;
  }

  /** Applies one reported edit to a string; an edit whose position does not
      fit leaves the string as it is. */
  function ApplyEdit(s: string, e: Edit): (r: string)
    ensures e.DeleteBase? && 1 <= e.i <= |s| ==> |r| == |s| - 1
    ensures e.InsertBase? && e.i <= |s| ==> |r| == |s| + 1
    ensures e.SubstituteBase? ==> |r| == |s|
  {
    match e
    case DeleteBase(i, _) => if 1 <= i <= |s| then s[..i - 1] + s[i..] else s
    case InsertBase(i, _, c) => if i <= |s| then s[..i] + [c] + s[i..] else s
    case SubstituteBase(i, _, c) => if 1 <= i <= |s| then s[i - 1 := c] else s
  }

  /** Applies the edits in the order they are reported: the last edit is
      applied to the result of all the ones before it. */
  function ApplyEdits(s: string, es: seq<Edit>): string
    decreases |es|
  {
    if |es| == 0 then s else ApplyEdit(ApplyEdits(s, es[..|es| - 1]), es[|es| - 1])
  }

  /** The backtrace has reached cell `(i, j)` with `edits` reported: the
      edits still to come cost the distance of the prefixes, and the ones
      reported so far have turned `a` into `a[..i] + b[j..]`. */
  predicate Traced(a: string, b: string, i: int, j: int, edits: seq<Edit>) {
    0 <= i <= |a| && 0 <= j <= |b| &&
    |edits| + Mat(a, b, i, j) == Mat(a, b, |a|, |b|) &&
    ApplyEdits(a, edits) == a[..i] + b[j..]
  }

  /** The backtrace: from the bottom-right corner it follows the recorded
      operations back to `(0, 0)`. The reported edits turn `a` into `b`, and
      there are exactly as many as the distance. */
  method Backtrace(a: string, b: string, mat: seq<seq<int>>, ops: seq<seq<Op>>) returns (edits: seq<Edit>)
    requires Tables(a, b, mat, ops)
    ensures |edits| == Mat(a, b, |a|, |b|)
    ensures ApplyEdits(a, edits) == b
  {
    edits := [];
    var i := |a|;
    var j := |b|;
    assert a[..i] + b[j..] == a;
    while i > 0 || j > 0
      invariant Traced(a, b, i, j, edits)
      decreases i + j
    {
      i, j, edits := BacktraceStep(a, b, mat, ops, i, j, edits);
    }
    assert a[..0] + b[0..] == b;
  }

  /** One iteration of the backtrace: DELETE when recorded or on the left
      border, else INSERT when recorded or on the top border, else a
      diagonal step that is reported only when it costs one. */
  method BacktraceStep(a: string, b: string, mat: seq<seq<int>>, ops: seq<seq<Op>>, i: int, j: int, edits: seq<Edit>)
    returns (i': int, j': int, edits': seq<Edit>)
    requires Tables(a, b, mat, ops) && Traced(a, b, i, j, edits) && (i > 0 || j > 0)
    ensures Traced(a, b, i', j', edits') && i' + j' < i + j
  {
    var op := ops[i][j];
    if op == Delete || j == 0 {
      DeleteStep(a, b, i, j, edits);
      return i - 1, j, edits + [DeleteBase(i, a[i - 1])];
    }
    if op == Insert || i == 0 {
      InsertStep(a, b, i, j, edits);
      return i, j - 1, edits + [InsertBase(i, j, b[j - 1])];
    }
    DiagonalCost(a, b, i, j);
    if mat[i][j] > mat[i - 1][j - 1] {
      MismatchStep(a, b, i, j, edits);
      edits' := edits + [SubstituteBase(i, a[i - 1], b[j - 1])];
    } else {
      MatchStep(a, b, i, j, edits);
      edits' := edits;
    }
    i', j' := i - 1, j - 1;
  }

  /** A DELETE step, chosen or forced on the left border, costs one and
      removes base `i` from the current string. */
  lemma DeleteStep(a: string, b: string, i: int, j: int, edits: seq<Edit>)
    requires Traced(a, b, i, j, edits) && (i > 0 || j > 0)
    requires OpAt(a, b, i, j) == Delete || j == 0
    ensures i > 0 && Traced(a, b, i - 1, j, edits + [DeleteBase(i, a[i - 1])])
  {
    MatRecurrence(a, b, i, j);
    if i > 0 {
      MatRecurrence(a, b, i - 1, j);
    }
    if i > 0 {
      DeletedString(a, b, i, j);
    }
  }

  lemma DeletedString(a: string, b: string, i: int, j: int)
    requires 0 < i <= |a| && 0 <= j <= |b|
    ensures ApplyEdit(a[..i] + b[j..], DeleteBase(i, a[i - 1])) == a[..i - 1] + b[j..]
  {
    var s := a[..i] + b[j..];
    assert s[..i - 1] == a[..i - 1];
    assert s[i..] == b[j..];
  }

  /** An INSERT step, chosen or forced on the top border, costs one and
      inserts base `j` of the second string after the first `i` bases. */
  lemma InsertStep(a: string, b: string, i: int, j: int, edits: seq<Edit>)
    requires Traced(a, b, i, j, edits) && 0 < j
    requires OpAt(a, b, i, j) == Insert || i == 0
    ensures Traced(a, b, i, j - 1, edits + [InsertBase(i, j, b[j - 1])])
  {
    MatRecurrence(a, b, i, j);
    MatRecurrence(a, b, i, j - 1);
    InsertedString(a, b, i, j);
  }

  lemma InsertedString(a: string, b: string, i: int, j: int)
    requires 0 <= i <= |a| && 0 < j <= |b|
    ensures ApplyEdit(a[..i] + b[j..], InsertBase(i, j, b[j - 1])) == a[..i] + b[j - 1..]
  {
    var s := a[..i] + b[j..];
    assert s[..i] == a[..i];
    assert s[i..] == b[j..];
    assert b[j - 1..] == [b[j - 1]] + b[j..];
  }

  /** A diagonal step costs one exactly when the bases differ. */
  lemma DiagonalCost(a: string, b: string, i: int, j: int)
    requires 0 < i <= |a| && 0 < j <= |b|
    requires OpAt(a, b, i, j) == Substitute
    ensures Mat(a, b, i, j) == Mat(a, b, i - 1, j - 1) + 1 <==> a[i - 1] != b[j - 1]
    ensures Mat(a, b, i, j) == Mat(a, b, i - 1, j - 1) <==> a[i - 1] == b[j - 1]
  {
  }

  /** A diagonal step over different bases is reported as a substitution. */
  lemma MismatchStep(a: string, b: string, i: int, j: int, edits: seq<Edit>)
    requires Traced(a, b, i, j, edits) && 0 < i && 0 < j
    requires Mat(a, b, i, j) == Mat(a, b, i - 1, j - 1) + 1 && a[i - 1] != b[j - 1]
    ensures Traced(a, b, i - 1, j - 1, edits + [SubstituteBase(i, a[i - 1], b[j - 1])])
  {
    SubstitutedString(a, b, i, j);
  }

  /** A diagonal step over equal bases is not reported. */
  lemma MatchStep(a: string, b: string, i: int, j: int, edits: seq<Edit>)
    requires Traced(a, b, i, j, edits) && 0 < i && 0 < j
    requires Mat(a, b, i, j) == Mat(a, b, i - 1, j - 1) && a[i - 1] == b[j - 1]
    ensures Traced(a, b, i - 1, j - 1, edits)
  {
    assert a[..i] == a[..i - 1] + [a[i - 1]];
    assert b[j - 1..] == [b[j - 1]] + b[j..];
  }

  lemma SubstitutedString(a: string, b: string, i: int, j: int)
    requires 0 < i <= |a| && 0 < j <= |b|
    ensures ApplyEdit(a[..i] + b[j..], SubstituteBase(i, a[i - 1], b[j - 1])) == a[..i - 1] + b[j - 1..]
  {
    var s := a[..i] + b[j..];
    assert a[..i] == a[..i - 1] + [a[i - 1]];
    assert b[j - 1..] == [b[j - 1]] + b[j..];
    assert s[i - 1 := b[j - 1]] == a[..i - 1] + b[j - 1..];
  }

  /** `levenshtein_distance(seq_a, seq_b)`: the distance, which is the
      bottom-right cell, and the edits the backtrace reports. */
  method Distance(a: string, b: string) returns (d: int, edits: seq<Edit>)
    ensures d == Mat(a, b, |a|, |b|)
    ensures |edits| == d && ApplyEdits(a, edits) == b
    ensures |a| == 0 ==> d == |b|
    ensures |b| == 0 ==> d == |a|
  {
    var mat, ops := Fill(a, b);
    edits := Backtrace(a, b, mat, ops);
    d := mat[|a|][|b|];
    MatRecurrence(a, b, |a|, |b|);
  }

  /** The distance between prefixes lies between the difference of their
      lengths and the larger length. */
  lemma MatBounds(a: string, b: string, i: nat, j: nat)
    requires i <= |a| && j <= |b|
    ensures i - j <= Mat(a, b, i, j) && j - i <= Mat(a, b, i, j)
    ensures Mat(a, b, i, j) <= if i < j then j else i
  {
    MatLowerBound(a, b, i, j);
    MatUpperBound(a, b, i, j);
  }

  lemma {:induction false} MatLowerBound(a: string, b: string, i: nat, j: nat)
    requires i <= |a| && j <= |b|
    ensures i - j <= Mat(a, b, i, j) && j - i <= Mat(a, b, i, j)
    decreases i + j
  {
    MatRecurrence(a, b, i, j);
    if i > 0 && j > 0 {
      MatLowerBound(a, b, i - 1, j);
      MatLowerBound(a, b, i, j - 1);
      MatLowerBound(a, b, i - 1, j - 1);
    }
  }

  lemma {:induction false} MatUpperBound(a: string, b: string, i: nat, j: nat)
    requires i <= |a| && j <= |b|
    ensures Mat(a, b, i, j) <= if i < j then j else i
    decreases i + j
  {
    MatRecurrence(a, b, i, j);
    if i > 0 && j > 0 {
      MatUpperBound(a, b, i - 1, j - 1);
    }
  }

  /** The distance between prefixes is zero exactly when they are equal. */
  lemma MatZeroIff(a: string, b: string, i: nat, j: nat)
    requires i <= |a| && j <= |b|
    ensures Mat(a, b, i, j) == 0 <==> a[..i] == b[..j]
  {
    if a[..i] == b[..j] {
      EqualPrefixesAtZero(a, b, i, j);
    }
    if Mat(a, b, i, j) == 0 {
      ZeroMeansEqual(a, b, i, j);
    }
  }

  lemma {:induction false} EqualPrefixesAtZero(a: string, b: string, i: nat, j: nat)
    requires i <= |a| && j <= |b| && a[..i] == b[..j]
    ensures Mat(a, b, i, j) == 0
    decreases i
  {
    assert i == |a[..i]| == |b[..j]| == j;
    MatRecurrence(a, b, i, j);
    if i > 0 {
      MatBounds(a, b, i - 1, j);
      MatBounds(a, b, i, j - 1);
      assert a[..i - 1] == a[..i][..i - 1] == b[..j][..j - 1] == b[..j - 1];
      assert a[i - 1] == a[..i][i - 1] == b[..j][j - 1] == b[j - 1];
      EqualPrefixesAtZero(a, b, i - 1, j - 1);
    }
  }

  lemma {:induction false} ZeroMeansEqual(a: string, b: string, i: nat, j: nat)
    requires i <= |a| && j <= |b| && Mat(a, b, i, j) == 0
    ensures a[..i] == b[..j]
    decreases i
  {
    MatBounds(a, b, i, j);
    MatRecurrence(a, b, i, j);
    if i > 0 {
      assert j == i;
      MatBounds(a, b, i - 1, j);
      MatBounds(a, b, i, j - 1);
      MatBounds(a, b, i - 1, j - 1);
      var del, ins, sub := Mat(a, b, i - 1, j) + 1, Mat(a, b, i, j - 1) + 1, Mat(a, b, i - 1, j - 1) + Cost(a, b, i, j);
      assert del >= 1 && ins >= 1 && sub >= 0;
      Min3Bounds(del, ins, sub);
      assert Min3(del, ins, sub) == 0;
      assert Mat(a, b, i - 1, j - 1) == 0;
      ZeroMeansEqual(a, b, i - 1, j - 1);
      assert a[..i] == a[..i - 1] + [a[i - 1]];
      assert b[..j] == b[..j - 1] + [b[j - 1]];
    }
  }

  /** The distance does not depend on which string comes first, although
      the tie-break between DELETE and INSERT does. */
  lemma {:induction false} MatSymmetric(a: string, b: string, i: nat, j: nat)
    requires i <= |a| && j <= |b|
    ensures Mat(a, b, i, j) == Mat(b, a, j, i)
    decreases i + j
  {
    if i > 0 && j > 0 {
      MatSymmetric(a, b, i - 1, j);
      MatSymmetric(a, b, i, j - 1);
      MatSymmetric(a, b, i - 1, j - 1);
    }
    MatRecurrence(a, b, i, j);
    MatRecurrence(b, a, j, i);
  }

  /** The distance is zero exactly for equal strings, and symmetric. */
  lemma DistanceProperties(a: string, b: string)
    ensures Mat(a, b, |a|, |b|) == 0 <==> a == b
    ensures Mat(a, b, |a|, |b|) == Mat(b, a, |b|, |a|)
  {
    MatZeroIff(a, b, |a|, |b|);
    assert a[..|a|] == a && b[..|b|] == b;
    MatSymmetric(a, b, |a|, |b|);
  }
}
