/**
 The input reader of the distance-vector program: the first line holds the
 node count `n`, and the next `n * n` lines hold the matrix in row-major
 order, each line an integer weight or `f` for "no edge". Any missing line
 or malformed token raises in the source and is `None` here. Lines beyond
 the matrix are ignored.
 */
module MatrixInput {
  import opened Optional
  import opened Distance
  import opened Graph
  import opened Decimal
  import opened Arith

  /** One matrix token: `f` is infinity, anything else goes through `int`. */
  function ParseEntry(tok: string): (r: Option<Dist>)
    ensures r == Some(Inf) <==> tok == "f"
    ensures tok != "f" ==> (r.Some? <==> ParseInt(tok).Some?)
    ensures tok != "f" && r.Some? ==> r.value == Fin(ParseInt(tok).value)
  {
    if tok == "f" then Some(Inf)
    else match ParseInt(tok)
      case None => None
      case Some(w) => Some(Fin(w))
  }

  /** `range(num_nodes)` is empty for a negative count. */
  function NodeCount(header: int): (n: nat)
  {
    if header > 0 then header else 0
  }

  /** The entry for row `a`, column `b` of an `n`-node matrix: line
      `1 + a * n + b`, or `None` when the input has no such line. */
  function EntryAt(lines: seq<string>, n: nat, a: nat, b: nat): (e: Option<Dist>)
  {
    var k := 1 + a * n + b;
    if k < |lines| then ParseEntry(lines[k]) else None
  }

  /** Whether every entry of the `n`-by-`n` matrix is present and well formed. */
  predicate EntriesOk(lines: seq<string>, n: nat)
  {
    forall a, b :: 0 <= a < n && 0 <= b < n ==> EntryAt(lines, n, a, b).Some?
  }

  /** The `__main__` block's parse: the node count from the first line, then
      the matrix row by row. It succeeds exactly when the count is an integer
      and every entry it needs is a line holding `f` or an integer; then the
      matrix is square with one row per node and entry `(a, b)` is the one
      read from line `1 + a * n + b`. */
  method ParseMatrix(lines: seq<string>) returns (r: Option<Matrix>)
    ensures r.Some? <==>
              |lines| >= 1 && ParseInt(lines[0]).Some? && EntriesOk(lines, NodeCount(ParseInt(lines[0]).value))
    ensures r.Some? ==>
              var n := NodeCount(ParseInt(lines[0]).value);
              && Square(r.value) && |r.value| == n
              && forall a, b :: 0 <= a < n && 0 <= b < n ==> EntryAt(lines, n, a, b) == Some(r.value[a][b])
  {
    if |lines| == 0 {
      return None;
    }
    var header := ParseInt(lines[0]);
    if header.None? {
      return None;
    }
    var n := NodeCount(header.value);
    var matrix: Matrix := [];
    var row := 0;
    while row < n
      invariant 0 <= row <= n
      invariant |matrix| == row
      invariant forall a :: 0 <= a < row ==> |matrix[a]| == n
      invariant forall a, b :: 0 <= a < row && 0 <= b < n ==> EntryAt(lines, n, a, b) == Some(matrix[a][b])
    {
      var cells: seq<Dist> := [];
      var col := 0;
      while col < n
        invariant 0 <= col <= n
        invariant |cells| == col
        invariant forall b :: 0 <= b < col ==> EntryAt(lines, n, row, b) == Some(cells[b])
      {
        var k := 1 + row * n + col;
        if k >= |lines| {
          assert EntryAt(lines, n, row, col).None?;
          return None;
        }
        var e := ParseEntry(lines[k]);
        if e.None? {
          assert EntryAt(lines, n, row, col).None?;
          return None;
        }
        cells := cells + [e.value];
        col := col + 1;
      }
      matrix := matrix + [cells];
      row := row + 1;
    }
    return Some(matrix);
  }

  /** How a matrix entry is written in the input: `f` or the weight. */
  function ShowEntry(x: Dist): (tok: string)
  {
    if x.Inf? then "f" else Show(x.v)
  }

  /** The input file for a square matrix: the node count, then every entry
      in row-major order. */
  function Render(m: Matrix): (lines: seq<string>)
    requires Square(m)
    ensures |lines| == 1 + |m| * |m|
  {
    var n := |m|;
    seq(1 + n * n, k requires 0 <= k < 1 + n * n =>
      if k == 0 then Show(n) else RenderCell(m, (k - 1) / n, (k - 1) % n))
  }

  function RenderCell(m: Matrix, a: nat, b: nat): (tok: string)
    requires Square(m)
  {
    if a < |m| && b < |m| then ShowEntry(m[a][b]) else ""
  }

  /** Line `1 + a * n + b` exists and holds cell `(a, b)` back again. */
  lemma RowMajor(n: nat, a: nat, b: nat)
    requires a < n && b < n
    ensures 1 + a * n + b < 1 + n * n
    ensures (a * n + b) / n == a && (a * n + b) % n == b
  {
    var k := a * n + b;
    MulMonotone(a + 1, n, n);
    assert (a + 1) * n == a * n + n;
    var q, r := k / n, k % n;
    assert k == q * n + r && 0 <= r < n;
    if q > a {
      MulMonotone(a + 1, q, n);
      assert false;
    } else if q < a {
      MulMonotone(q + 1, a, n);
      assert false;
    }
  }

  /** Every entry reads back as written. */
  lemma ParseShowEntry(x: Dist)
    ensures ParseEntry(ShowEntry(x)) == Some(x)
  {
    if x.Fin? {
      ParseShow(x.v);
      assert ShowEntry(x) != "f" by {
        assert IsNumeral(ShowEntry(x));
      }
    }
  }

  /** The parse inverts writing out: rendering a square matrix and reading it
      back finds the node count on the first line and every entry where
      `ParseMatrix` looks for it, so the parse succeeds with that matrix. */
  lemma RenderParses(m: Matrix)
    requires Square(m)
    ensures var lines := Render(m);
            && ParseInt(lines[0]) == Some(|m|)
            && NodeCount(|m|) == |m|
            && EntriesOk(lines, |m|)
            && forall a, b :: 0 <= a < |m| && 0 <= b < |m| ==> EntryAt(lines, |m|, a, b) == Some(m[a][b])
  {
    var n := |m|;
    var lines := Render(m);
    ParseShow(n);
    forall a, b | 0 <= a < n && 0 <= b < n ensures EntryAt(lines, n, a, b) == Some(m[a][b]) {
      RowMajor(n, a, b);
      var k := 1 + a * n + b;
      assert lines[k] == RenderCell(m, (k - 1) / n, (k - 1) % n);
      assert (k - 1) / n == a && (k - 1) % n == b;
      ParseShowEntry(m[a][b]);
    }
  }
}
