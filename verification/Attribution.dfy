/** Line-weighted token attribution of noema/experiments/runner.py, over exact rationals with Python's
half-to-even rounding. */
module Attribution {
  /** A generated file: its name, and the number of lines of its content. */
  datatype CodeBlock = CodeBlock(filename: string, lines: int)

  datatype Row = Row(filePath: string, lines: int, tokensInput: int, tokensOutput: int, totalTokens: int)

  /** `round(num / den)`: to the nearest integer, ties to the even one. */
  function RoundHalfEven(num: int, den: nat): int
    requires den > 0
  {
    var q, r := num / den, num % den;
    if 2 * r < den || (2 * r == den && q % 2 == 0) then q else q + 1
  }

  function Abs(x: int): nat {
    if x < 0 then -x else x
  }

  /** The nearest integer to `num / den`, the even one of two: this determines `x`. */
  ghost predicate IsRounded(x: int, num: int, den: nat) {
    2 * Abs(x * den - num) <= den && (2 * Abs(x * den - num) == den ==> x % 2 == 0)
  }

  lemma {:induction false} RoundIsNearest(num: int, den: nat)
    requires den > 0
    ensures IsRounded(RoundHalfEven(num, den), num, den)
  {
    var q, r := num / den, num % den;
    assert num == q * den + r;
    assert (q + 1) * den == q * den + den;
  }

  /** Blocks without a name are skipped. */
  function Named(blocks: seq<CodeBlock>): seq<CodeBlock> {
    if blocks == [] then []
    else Named(blocks[..|blocks| - 1]) + if blocks[|blocks| - 1].filename != "" then [blocks[|blocks| - 1]] else []
  }

  /** Blocks with a name are kept, as often as they occur and in their order, and others are not. */
  lemma {:induction false} NamedInOrder(a: seq<CodeBlock>, x: CodeBlock, b: seq<CodeBlock>)
    ensures Named(a + b) == Named(a) + Named(b)
    ensures Named([x]) == if x.filename == "" then [] else [x]
    decreases |b|
  {
    assert [x][..0] == [];
    if b == [] {
      assert a + b == a;
    } else {
      assert (a + b)[..|a + b| - 1] == a + b[..|b| - 1];
      NamedInOrder(a, x, b[..|b| - 1]);
    }
  }

  function LinesOf(files: seq<CodeBlock>, n: nat): int
    requires n <= |files|
  {
    if n == 0 then 0 else LinesOf(files, n - 1) + files[n - 1].lines
  }

  /** `total_lines`. */
  function TotalLines(files: seq<CodeBlock>): int {
    LinesOf(files, |files|)
  }

  function SumInput(rows: seq<Row>): int {
    if rows == [] then 0 else SumInput(rows[..|rows| - 1]) + rows[|rows| - 1].tokensInput
  }

  function SumOutput(rows: seq<Row>): int {
    if rows == [] then 0 else SumOutput(rows[..|rows| - 1]) + rows[|rows| - 1].tokensOutput
  }

  /** `tokens` is within `slack` half-units of the exact share `total * lines / all`. */
  ghost predicate NearShare(tokens: int, total: int, lines: int, all: nat, slack: nat) {
    2 * Abs(tokens * all - total * lines) <= slack * all
  }

  /** Errors add up: the drift after one more rounded row grows by at most half a unit. */
  lemma {:induction false} DriftGrows(sum: int, tokens: int, total: int, before: int, lines: int, all: nat, i: nat)
    requires NearShare(sum, total, before, all, i) && NearShare(tokens, total, lines, all, 1)
    ensures NearShare(sum + tokens, total, before + lines, all, i + 1)
  {
    assert (sum + tokens) * all - total * (before + lines) == (sum * all - total * before) + (tokens * all - total * lines);
    assert (i + 1) * all == i * all + all;
  }

  /** The last row takes what is left, so its drift is that of all the others together. */
  lemma {:induction false} LastIsNear(sum: int, total: int, before: int, lines: int, all: nat, i: nat)
    requires NearShare(sum, total, before, all, i) && before + lines == all
    ensures NearShare(total - sum, total, lines, all, i)
  {
    assert (total - sum) * all - total * lines == total * (all - lines) - sum * all;
    assert all - lines == before;
  }

  /** A row before the last holds the rounded shares. */
  ghost predicate RowIsRounded(row: Row, file: CodeBlock, input: int, output: int, all: nat) {
    && IsRounded(row.tokensInput, input * file.lines, all)
    && IsRounded(row.tokensOutput, output * file.lines, all)
  }

  /** What a produced table promises about a row. */
  ghost predicate RowOk(row: Row, file: CodeBlock, input: int, output: int, all: nat, slack: nat) {
    && row.filePath == file.filename && row.lines == file.lines && row.totalTokens == row.tokensInput + row.tokensOutput
    && NearShare(row.tokensInput, input, file.lines, all, slack) && NearShare(row.tokensOutput, output, file.lines, all, slack)
  }

  /** A table with one row per file that adds up to the run totals: every row but the last holds the rounded
  shares, and the last of k rows is within (k-1)/2 of its own. */
  ghost predicate IsTable(rows: seq<Row>, files: seq<CodeBlock>, input: int, output: int, all: nat) {
    && |rows| == |files| > 0 && SumInput(rows) == input && SumOutput(rows) == output
    && (forall i :: 0 <= i < |rows| - 1 ==>
          RowOk(rows[i], files[i], input, output, all, 1) && RowIsRounded(rows[i], files[i], input, output, all))
    && RowOk(rows[|rows| - 1], files[|rows| - 1], input, output, all, |rows| - 1)
  }

  method CollectFiles(blocks: seq<CodeBlock>) returns (files: seq<CodeBlock>, all: int)
    ensures files == Named(blocks) && all == TotalLines(files)
  {
    files := [];
    for i := 0 to |blocks|
      invariant files == Named(blocks[..i])
    {
      assert blocks[..i + 1][..i] == blocks[..i];
      if blocks[i].filename != "" {
        files := files + [blocks[i]];
      }
    }
    assert blocks[..|blocks|] == blocks;
    all := 0;
    for i := 0 to |files|
      invariant all == LinesOf(files, i)
    {
      all := all + files[i].lines;
    }
  }

  /** `attribute_file_costs`. Rows are produced exactly when there are lines and tokens; they then add up
  to the run totals, every row but the last is within 1/2 of its share, and the last of k within (k-1)/2. */
  method AttributeFileCosts(blocks: seq<CodeBlock>, input: int, output: int) returns (rows: seq<Row>)
    ensures var files := Named(blocks); var all := TotalLines(files);
            if all <= 0 || (input <= 0 && output <= 0) then rows == [] else IsTable(rows, files, input, output, all)
  {
    var files, all := CollectFiles(blocks);
    rows := [];
    if all <= 0 || (input <= 0 && output <= 0) {
      return;
    }
    rows := AttributeRows(files, all, input, output);
  }

  /** The share of file `i` and the running sum after it: rounded, except that the last takes what is left. */
  method NextShare(files: seq<CodeBlock>, all: nat, total: int, sum: int, i: nat) returns (share: int, newSum: int)
    requires i < |files| && all == TotalLines(files) > 0
    requires NearShare(sum, total, LinesOf(files, i), all, i)
    ensures newSum == sum + share
    ensures i < |files| - 1 ==>
      && NearShare(newSum, total, LinesOf(files, i + 1), all, i + 1)
      && NearShare(share, total, files[i].lines, all, 1) && IsRounded(share, total * files[i].lines, all)
    ensures i == |files| - 1 ==> newSum == total && NearShare(share, total, files[i].lines, all, i)
  {
    if i < |files| - 1 {
      share := RoundHalfEven(total * files[i].lines, all);
      RoundIsNearest(total * files[i].lines, all);
      DriftGrows(sum, share, total, LinesOf(files, i), files[i].lines, all, i);
    } else {
      share := total - sum;
      LastIsNear(sum, total, LinesOf(files, i), files[i].lines, all, i);
    }
    newSum := sum + share;
  }

  method AttributeRows(files: seq<CodeBlock>, all: nat, input: int, output: int) returns (rows: seq<Row>)
    requires all == TotalLines(files) > 0
    ensures IsTable(rows, files, input, output, all)
  {
    rows := [];
    var sumInput, sumOutput := 0, 0;
    for i := 0 to |files|
      invariant |rows| == i && sumInput == SumInput(rows) && sumOutput == SumOutput(rows)
      invariant i < |files| ==> NearShare(sumInput, input, LinesOf(files, i), all, i)
      invariant i < |files| ==> NearShare(sumOutput, output, LinesOf(files, i), all, i)
      invariant forall j :: 0 <= j < i && j < |files| - 1 ==>
        RowOk(rows[j], files[j], input, output, all, 1) && RowIsRounded(rows[j], files[j], input, output, all)
      invariant i == |files| ==> i > 0 && sumInput == input && sumOutput == output
      invariant i == |files| ==> RowOk(rows[i - 1], files[i - 1], input, output, all, i - 1)
    {
      var fileInput, fileOutput;
      fileInput, sumInput := NextShare(files, all, input, sumInput, i);
      fileOutput, sumOutput := NextShare(files, all, output, sumOutput, i);
      ghost var before := rows;
      rows := rows + [Row(files[i].filename, files[i].lines, fileInput, fileOutput, fileInput + fileOutput)];
      assert rows[..i] == before;
    }
  }
}
