/** levenshtein_distance: the table whose first row and column stay zero. Its last cell is not the
    edit distance of the two strings but the least cost of an edit script between one of them and a
    suffix of the other: a leading part of either string is free. */
module Levenshtein {
  import opened MachineInts

  function Min(a: int, b: int): int {
    if b < a then b else a
  }

  // ---- The table

  /** Row `i` belongs to `t[..i]`, column `j` to `s[..j]`. */
  function Cell(s: string, t: string, i: nat, j: nat): nat
    requires i <= |t| && j <= |s|
  {
    if i == 0 || j == 0 then 0
    else if s[j - 1] == t[i - 1] then Cell(s, t, i - 1, j - 1)
    else Min(Cell(s, t, i - 1, j) + 1, Min(Cell(s, t, i, j - 1) + 1, Cell(s, t, i - 1, j - 1) + 1))
  }

  function Distance(s: string, t: string): nat {
    Cell(s, t, |t|, |s|)
  }

  /** Cell number `k` of the table, row by row with |s| + 1 cells a row */
  function FlatCell(s: string, t: string, k: nat): nat
    requires k < (|s| + 1) * (|t| + 1)
  {
    RowInTable(|s| + 1, |t| + 1, k);
    Cell(s, t, k / (|s| + 1), k % (|s| + 1))
  }

  lemma {:induction false} RowInTable(n: nat, m: nat, k: nat)
    requires 0 < n && k < n * m
    ensures 0 <= k / n < m && 0 <= k % n < n
  {
    if m <= k / n {
      MulMonotone(m, k / n, n);
    }
  }

  lemma {:induction false} FlatCellAt(s: string, t: string, row: nat, i: nat, j: nat)
    requires row == i * (|s| + 1) && i <= |t| && j <= |s|
    ensures 0 <= row + j < (|s| + 1) * (|t| + 1)
    ensures FlatCell(s, t, row + j) == Cell(s, t, i, j)
  {
    hide Cell;
    MulMonotone(i + 1, |t| + 1, |s| + 1);
    assert row + j < (|s| + 1) * (|t| + 1);
    QuotientUnique(row + j, |s| + 1, i, j);
  }

  /** The first `k` cells are filled and the others still zero. */
  ghost predicate Filled(d: seq<nat>, s: string, t: string, k: nat) {
    |d| == (|s| + 1) * (|t| + 1) && k <= |d|
    && (forall c :: 0 <= c < k ==> d[c] == FlatCell(s, t, c))
    && (forall c :: k <= c < |d| ==> d[c] == 0)
  }

  ghost predicate RowsFilled(d: seq<nat>, s: string, t: string, rows: nat) {
    Filled(d, s, t, rows * (|s| + 1))
  }

  /** The first row is right as memset leaves it. */
  lemma {:induction false} FirstRow(d: seq<nat>, s: string, t: string)
    requires |d| == (|s| + 1) * (|t| + 1) && forall c :: 0 <= c < |d| ==> d[c] == 0
    ensures RowsFilled(d, s, t, 1)
  {
    FlatCellAt(s, t, 0, 0, |s|);
    forall c | 0 <= c < |s| + 1
      ensures FlatCell(s, t, c) == 0
    {
      FlatCellAt(s, t, 0, 0, c);
    }
  }

  /** ... and so is the first cell of every other row. */
  lemma {:induction false} FirstCell(d: seq<nat>, s: string, t: string, i: nat)
    requires i <= |t| && RowsFilled(d, s, t, i)
    ensures Filled(d, s, t, i * (|s| + 1) + 1)
  {
    FlatCellAt(s, t, i * (|s| + 1), i, 0);
  }

  lemma {:induction false} LastCell(d: seq<nat>, s: string, t: string)
    requires RowsFilled(d, s, t, |t| + 1)
    ensures |d| > 0 && d[|d| - 1] == Distance(s, t)
  {
    NextRow(|t|, |s| + 1);
    ReadCell(d, s, t, (|t| + 1) * (|s| + 1), |t| * (|s| + 1), |t|, |s|);
  }

  method LevenshteinDistance(s: string, t: string) returns (r: nat)
    ensures r == Distance(s, t)
  {
    hide RowsFilled, Distance;
    var n, m := |s| + 1, |t| + 1;
    var d := new nat[n * m](_ => 0);
    FirstRow(d[..], s, t);
    var i := 1;
    while i < m
      invariant 1 <= i <= m && d.Length == n * m
      invariant RowsFilled(d[..], s, t, i)
    {
      FillRow(d, s, t, i);
      i := i + 1;
    }
    LastCell(d[..], s, t);
    r := d[n * m - 1];
  }

  lemma {:induction false} ReadCell(d: seq<nat>, s: string, t: string, k: nat, row: nat, i: nat, j: nat)
    requires row == i * (|s| + 1) && i <= |t| && j <= |s|
    requires Filled(d, s, t, k) && row + j < k
    ensures row + j < |d| && d[row + j] == Cell(s, t, i, j)
  {
    hide Cell, FlatCell;
    FlatCellAt(s, t, row, i, j);
  }

  lemma {:induction false} WriteCell(d: seq<nat>, s: string, t: string, row: nat, i: nat, j: nat)
    requires row == i * (|s| + 1) && i <= |t| && j <= |s|
    requires Filled(d, s, t, row + j)
    ensures row + j < |d| && Filled(d[row + j := Cell(s, t, i, j)], s, t, row + j + 1)
  {
    hide Cell, FlatCell;
    FlatCellAt(s, t, row, i, j);
  }

  lemma {:induction false} NextRow(i: nat, n: nat)
    ensures (i + 1) * n == i * n + n
  {
  }

  lemma {:induction false} CellStep(s: string, t: string, i: nat, j: nat)
    requires 1 <= i <= |t| && 1 <= j <= |s|
    ensures Cell(s, t, i, j) ==
            if s[j - 1] == t[i - 1] then Cell(s, t, i - 1, j - 1)
            else Min(Cell(s, t, i - 1, j) + 1, Min(Cell(s, t, i, j - 1) + 1, Cell(s, t, i - 1, j - 1) + 1))
  {
  }

  /** The inner loop, for one row */
  method FillRow(d: array<nat>, s: string, t: string, i: nat)
    requires 1 <= i <= |t| && RowsFilled(d[..], s, t, i)
    modifies d
    ensures RowsFilled(d[..], s, t, i + 1)
  {
    hide Filled, Cell, Min;
    FirstCell(d[..], s, t, i);
    var n := |s| + 1;
    var row, above := i * n, (i - 1) * n;
    NextRow(i, n);
    NextRow(i - 1, n);
    var j := 1;
    while j < n
      invariant 1 <= j <= n
      invariant Filled(d[..], s, t, row + j)
    {
      ghost var before := d[..];
      ReadCell(before, s, t, row + j, above, i - 1, j - 1);
      ReadCell(before, s, t, row + j, above, i - 1, j);
      ReadCell(before, s, t, row + j, row, i, j - 1);
      WriteCell(before, s, t, row, i, j);
      CellStep(s, t, i, j);
      if s[j - 1] == t[i - 1] {
        d[row + j] := d[above + (j - 1)];
      } else {
        d[row + j] := Min(d[above + j] + 1, Min(d[row + (j - 1)] + 1, d[above + (j - 1)] + 1));
      }
      assert d[..] == before[row + j := Cell(s, t, i, j)];
      j := j + 1;
    }
  }

  // ---- Edit scripts

  datatype Op = Keep(c: char) | Substitute(from: char, to: char) | Insert(to: char) | Delete(from: char)

  function Source(script: seq<Op>): string {
    if script == [] then ""
    else
      var last := script[|script| - 1];
      Source(script[..|script| - 1]) +
      match last {
        case Keep(c) => [c]
        case Substitute(a, _) => [a]
        case Insert(_) => ""
        case Delete(a) => [a]
      }
  }

  function Target(script: seq<Op>): string {
    if script == [] then ""
    else
      var last := script[|script| - 1];
      Target(script[..|script| - 1]) +
      match last {
        case Keep(c) => [c]
        case Substitute(_, b) => [b]
        case Insert(b) => [b]
        case Delete(_) => ""
      }
  }

  function Cost(script: seq<Op>): nat {
    if script == [] then 0
    else Cost(script[..|script| - 1]) + if script[|script| - 1].Keep? then 0 else 1
  }

  /** The script turns the end of `s` into the end of `t`, and leaves out a beginning of at most one
      of them. */
  predicate Aligns(script: seq<Op>, s: string, t: string, k: nat, l: nat) {
    k <= |s| && l <= |t| && (k == 0 || l == 0) && Source(script) == s[k..] && Target(script) == t[l..]
  }

  /** `op` moves from the prefixes of lengths (j', i') to those of lengths (j, i). */
  predicate Moves(op: Op, s: string, t: string, i': nat, j': nat, i: nat, j: nat) {
    i <= |t| && j <= |s|
    && (match op
        case Keep(c) => j == j' + 1 && i == i' + 1 && c == s[j'] == t[i']
        case Substitute(a, b) => j == j' + 1 && i == i' + 1 && a == s[j'] && b == t[i']
        case Insert(b) => j == j' && i == i' + 1 && b == t[i']
        case Delete(a) => j == j' + 1 && i == i' && a == s[j'])
  }

  lemma {:induction false} AppendMove(script: seq<Op>, op: Op, s: string, t: string, i': nat, j': nat, i: nat, j: nat,
          k: nat, l: nat)
    requires Moves(op, s, t, i', j', i, j) && Aligns(script, s[..j'], t[..i'], k, l)
    ensures Aligns(script + [op], s[..j], t[..i], k, l)
    ensures Cost(script + [op]) == Cost(script) + if op.Keep? then 0 else 1
  {
    var longer := script + [op];
    assert longer[..|longer| - 1] == script && longer[|longer| - 1] == op;
    if j == j' + 1 {
      assert s[..j][k..] == s[..j'][k..] + [s[j']];
    }
    if i == i' + 1 {
      assert t[..i][l..] == t[..i'][l..] + [t[i']];
    }
  }

  lemma {:induction false} LastMove(script: seq<Op>, s: string, t: string, i: nat, j: nat, k: nat, l: nat)
    returns (i': nat, j': nat)
    requires i <= |t| && j <= |s| && script != [] && Aligns(script, s[..j], t[..i], k, l)
    ensures Moves(script[|script| - 1], s, t, i', j', i, j)
    ensures Aligns(script[..|script| - 1], s[..j'], t[..i'], k, l)
  {
    var rest, op := script[..|script| - 1], script[|script| - 1];
    i' := if op.Delete? then i else i - 1;
    j' := if op.Insert? then j else j - 1;
    if !op.Insert? {
      LastOfSum(Source(rest), if op.Keep? then op.c else op.from, s, j, k);
    } else {
      assert Source(script) == Source(rest);
    }
    if !op.Delete? {
      LastOfSum(Target(rest), if op.Keep? then op.c else op.to, t, i, l);
    } else {
      assert Target(script) == Target(rest);
    }
  }

  lemma {:induction false} LastOfSum(a: string, c: char, s: string, j: nat, k: nat)
    requires k <= j <= |s| && a + [c] == s[..j][k..]
    ensures k < j && c == s[j - 1] && a == s[..j - 1][k..]
  {
    assert |a + [c]| == j - k;
    assert (a + [c])[|a|] == c;
    assert a == (a + [c])[..|a|];
  }

  /** Neighbouring cells differ by at most one, and no diagonal step loses. */
  lemma {:induction false} Neighbours(s: string, t: string, i: nat, j: nat)
    requires i <= |t| && j <= |s|
    ensures 0 < i ==> Cell(s, t, i - 1, j) <= Cell(s, t, i, j) + 1 && Cell(s, t, i, j) <= Cell(s, t, i - 1, j) + 1
    ensures 0 < j ==> Cell(s, t, i, j - 1) <= Cell(s, t, i, j) + 1 && Cell(s, t, i, j) <= Cell(s, t, i, j - 1) + 1
    ensures 0 < i && 0 < j ==> Cell(s, t, i - 1, j - 1) <= Cell(s, t, i, j)
  {
    if 0 < i && 0 < j {
      Neighbours(s, t, i - 1, j);
      Neighbours(s, t, i, j - 1);
      Neighbours(s, t, i - 1, j - 1);
    }
  }

  /** Taking the diagonal on equal characters without looking at the other two neighbours gives the
      full three-way minimum. */
  lemma {:induction false} GreedyIsFullMinimum(s: string, t: string, i: nat, j: nat)
    requires 0 < i <= |t| && 0 < j <= |s|
    ensures Cell(s, t, i, j) ==
            Min(Cell(s, t, i - 1, j) + 1,
                Min(Cell(s, t, i, j - 1) + 1,
                    Cell(s, t, i - 1, j - 1) + if s[j - 1] == t[i - 1] then 0 else 1))
  {
    hide Cell;
    Neighbours(s, t, i - 1, j);
    Neighbours(s, t, i, j - 1);
    CellStep(s, t, i, j);
  }

  lemma {:induction false} ScriptOfCell(s: string, t: string, i: nat, j: nat)
    returns (script: seq<Op>, k: nat, l: nat)
    requires i <= |t| && j <= |s|
    ensures Aligns(script, s[..j], t[..i], k, l) && Cost(script) == Cell(s, t, i, j)
  {
    if i == 0 || j == 0 {
      return [], j, i;
    } else {
      var op, i', j' := BestMove(s, t, i, j);
      var rest;
      rest, k, l := ScriptOfCell(s, t, i', j');
      AppendMove(rest, op, s, t, i', j', i, j, k, l);
      script := rest + [op];
    }
  }

  lemma {:induction false} BestMove(s: string, t: string, i: nat, j: nat) returns (op: Op, i': nat, j': nat)
    requires 0 < i <= |t| && 0 < j <= |s|
    ensures Moves(op, s, t, i', j', i, j) && i' + j' < i + j
    ensures Cell(s, t, i, j) == Cell(s, t, i', j') + if op.Keep? then 0 else 1
  {
    hide Cell;
    CellStep(s, t, i, j);
    if s[j - 1] == t[i - 1] {
      return Keep(s[j - 1]), i - 1, j - 1;
    } else if Cell(s, t, i, j) == Cell(s, t, i - 1, j - 1) + 1 {
      return Substitute(s[j - 1], t[i - 1]), i - 1, j - 1;
    } else if Cell(s, t, i, j) == Cell(s, t, i - 1, j) + 1 {
      return Insert(t[i - 1]), i - 1, j;
    } else {
      return Delete(s[j - 1]), i, j - 1;
    }
  }

  lemma {:induction false} ScriptCostsCell(s: string, t: string, i: nat, j: nat, script: seq<Op>, k: nat, l: nat)
    requires i <= |t| && j <= |s| && Aligns(script, s[..j], t[..i], k, l)
    ensures Cell(s, t, i, j) <= Cost(script)
    decreases |script|
  {
    if script != [] {
      var i', j' := LastMove(script, s, t, i, j, k, l);
      ScriptCostsCell(s, t, i', j', script[..|script| - 1], k, l);
      MoveCost(script[|script| - 1], s, t, i', j', i, j);
    }
  }

  lemma {:induction false} MoveCost(op: Op, s: string, t: string, i': nat, j': nat, i: nat, j: nat)
    requires Moves(op, s, t, i', j', i, j)
    ensures Cell(s, t, i, j) <= Cell(s, t, i', j') + if op.Keep? then 0 else 1
  {
    hide Cell;
    Neighbours(s, t, i, j);
    if i == i' + 1 && j == j' + 1 {
      GreedyIsFullMinimum(s, t, i, j);
    }
  }

  // ---- Main results

  /** The result is the least cost of an edit script between one string and a suffix of the other. */
  lemma {:induction false} DistanceIsLeastCost(s: string, t: string)
    ensures exists script, k, l :: Aligns(script, s, t, k, l) && Cost(script) == Distance(s, t)
    ensures forall script, k, l :: Aligns(script, s, t, k, l) ==> Distance(s, t) <= Cost(script)
  {
    assert s[..|s|] == s && t[..|t|] == t;
    var script, k, l := ScriptOfCell(s, t, |t|, |s|);
    forall script, k, l | Aligns(script, s, t, k, l)
      ensures Distance(s, t) <= Cost(script)
    {
      ScriptCostsCell(s, t, |t|, |s|, script, k, l);
    }
  }

  /** It never exceeds the edit distance proper, which uses whole strings. */
  lemma {:induction false} DistanceAtMostEditDistance(s: string, t: string, script: seq<Op>)
    requires Source(script) == s && Target(script) == t
    ensures Distance(s, t) <= Cost(script)
  {
    assert Aligns(script, s, t, 0, 0);
    DistanceIsLeastCost(s, t);
  }

  lemma {:induction false} CellSymmetric(s: string, t: string, i: nat, j: nat)
    requires i <= |t| && j <= |s|
    ensures Cell(s, t, i, j) == Cell(t, s, j, i)
  {
    hide Cell, Min;
    CellBorder(s, t, i, j);
    CellBorder(t, s, j, i);
    if 0 < i && 0 < j {
      CellStep(s, t, i, j);
      CellStep(t, s, j, i);
      CellSymmetric(s, t, i - 1, j - 1);
      CellSymmetric(s, t, i - 1, j);
      CellSymmetric(s, t, i, j - 1);
      MinSwap(Cell(s, t, i - 1, j) + 1, Cell(s, t, i, j - 1) + 1, Cell(s, t, i - 1, j - 1) + 1);
    }
  }

  lemma {:induction false} CellBorder(s: string, t: string, i: nat, j: nat)
    requires i <= |t| && j <= |s|
    ensures i == 0 || j == 0 ==> Cell(s, t, i, j) == 0
  {
  }

  lemma {:induction false} MinSwap(a: int, b: int, c: int)
    ensures Min(a, Min(b, c)) == Min(b, Min(a, c))
  {
  }

  lemma {:induction false} CellAtMostIndices(s: string, t: string, i: nat, j: nat)
    requires i <= |t| && j <= |s|
    ensures Cell(s, t, i, j) <= i && Cell(s, t, i, j) <= j
  {
    if 0 < i && 0 < j {
      CellAtMostIndices(s, t, i - 1, j - 1);
    }
  }

  lemma {:induction false} DistanceSymmetricAndBounded(s: string, t: string)
    ensures Distance(s, t) == Distance(t, s)
    ensures Distance(s, t) <= |s| && Distance(s, t) <= |t|
  {
    CellSymmetric(s, t, |t|, |s|);
    CellAtMostIndices(s, t, |t|, |s|);
  }

  lemma {:induction false} FreeScriptKeeps(script: seq<Op>)
    requires Cost(script) == 0
    ensures Source(script) == Target(script)
  {
    if script != [] {
      FreeScriptKeeps(script[..|script| - 1]);
    }
  }

  function KeepAll(s: string): seq<Op> {
    seq(|s|, i requires 0 <= i < |s| => Keep(s[i]))
  }

  lemma {:induction false} KeepAllIsFree(s: string)
    ensures Source(KeepAll(s)) == s && Target(KeepAll(s)) == s && Cost(KeepAll(s)) == 0
  {
    if s != "" {
      var rest := s[..|s| - 1];
      KeepAllIsFree(rest);
      assert KeepAll(s)[..|s| - 1] == KeepAll(rest);
      assert s == rest + [s[|s| - 1]];
    }
  }

  /** Distance zero does not mean equal strings: it means that one string ends with the other. */
  lemma {:induction false} ZeroIsSuffix(s: string, t: string)
    ensures Distance(s, t) == 0 <==>
            (|t| <= |s| && s[|s| - |t|..] == t) || (|s| <= |t| && t[|t| - |s|..] == s)
  {
    DistanceIsLeastCost(s, t);
    if Distance(s, t) == 0 {
      var script, k, l :| Aligns(script, s, t, k, l) && Cost(script) == Distance(s, t);
      FreeScriptKeeps(script);
    }
    KeepAllIsFree(s);
    KeepAllIsFree(t);
    if |t| <= |s| && s[|s| - |t|..] == t {
      assert Aligns(KeepAll(t), s, t, |s| - |t|, 0);
    }
    if |s| <= |t| && t[|t| - |s|..] == s {
      assert Aligns(KeepAll(s), s, t, 0, |t| - |s|);
    }
  }
}
