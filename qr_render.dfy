/** `QrcodeRender` and the grid padding of `MetaData.__qr_terminal_str` in
    module/stdio.py: a QR module grid is framed by a one-cell light border and
    printed with block characters, two rows per line (`render_2by1`) or three rows
    and two columns per character (`render_3by2`). As in `qrcode`, a `true` cell is
    a dark module and a `false` cell a light one; the border is `false`, and a cell
    read past the edge of the grid counts as dark. The glyphs draw the light cells. */
module QrRender {

  type Grid = seq<seq<bool>>

  /** `len(qr_map[0])`, which the renderers read only when there is a row. */
  function Width(g: Grid): nat {
    if |g| == 0 then 0 else |g[0]|
  }

  /** Every row is at least as wide as the first, so `qr_map[r][c]` is defined for `c < Width`. */
  predicate WideRows(g: Grid) {
    forall r :: 0 <= r < |g| ==> |g[r]| >= Width(g)
  }

  function Bit(b: bool): nat {
    if b then 1 else 0
  }

  // ---------------------------------------------------------------------------
  // Lines

  /** The lines joined by newlines, without a trailing one. */
  function JoinLines(lines: seq<string>): string {
    if |lines| == 0 then ""
    else if |lines| == 1 then lines[0]
    else JoinLines(lines[..|lines| - 1]) + "\n" + lines[|lines| - 1]
  }

  /** Every line followed by a newline, as the render loops build it. */
  function Terminated(lines: seq<string>): string {
    if lines == [] then "" else Terminated(lines[..|lines| - 1]) + lines[|lines| - 1] + "\n"
  }

  lemma {:induction false} TerminatedIsJoined(lines: seq<string>)
    requires |lines| > 0
    ensures Terminated(lines) == JoinLines(lines) + "\n"
    decreases |lines|
  {
    if |lines| > 1 {
      TerminatedIsJoined(lines[..|lines| - 1]);
    } else {
      assert lines[..0] == [];
    }
  }

  /** `output[:-1]` of the text the loops build. */
  lemma DropLastNewline(lines: seq<string>)
    ensures Terminated(lines) == [] <==> lines == []
    ensures lines != [] ==> Terminated(lines)[..|Terminated(lines)| - 1] == JoinLines(lines)
  {
    if lines != [] {
      TerminatedIsJoined(lines);
    }
  }

  /** The position of the last newline in `s`. */
  function LastNewline(s: string): (r: int)
    ensures -1 <= r < |s|
    ensures r >= 0 ==> s[r] == '\n'
    ensures forall k :: r < k < |s| ==> s[k] != '\n'
  {
    if s == [] then -1 else if s[|s| - 1] == '\n' then |s| - 1 else LastNewline(s[..|s| - 1])
  }

  /** `s.split('\n')`. */
  function SplitLines(s: string): (r: seq<string>)
    ensures |r| >= 1
    decreases |s|
  {
    var k := LastNewline(s);
    if k < 0 then [s] else SplitLines(s[..k]) + [s[k + 1..]]
  }

  lemma NoNewlineLast(s: string)
    requires forall k :: 0 <= k < |s| ==> s[k] != '\n'
    ensures LastNewline(s) == -1
  {
    if s != [] {
      NoNewlineLast(s[..|s| - 1]);
    }
  }

  /** Splitting the printed text at its newlines gives back the lines. */
  lemma {:induction false} SplitJoined(lines: seq<string>)
    requires |lines| > 0
    requires forall i, k :: 0 <= i < |lines| && 0 <= k < |lines[i]| ==> lines[i][k] != '\n'
    ensures SplitLines(JoinLines(lines)) == lines
    decreases |lines|
  {
    if |lines| == 1 {
      NoNewlineLast(lines[0]);
    } else {
      var front := lines[..|lines| - 1];
      var last := lines[|lines| - 1];
      var j := JoinLines(front);
      var s := j + "\n" + last;
      assert forall k :: |j| < k < |s| ==> s[k] == last[k - |j| - 1];
      LastNewlineAt(s, |j|);
      assert s[..|j|] == j;
      assert s[|j| + 1..] == last;
      SplitJoined(front);
    }
  }

  lemma {:induction false} LastNewlineAt(s: string, k: nat)
    requires k < |s| && s[k] == '\n'
    requires forall m :: k < m < |s| ==> s[m] != '\n'
    ensures LastNewline(s) == k
    decreases |s|
  {
    if k < |s| - 1 {
      LastNewlineAt(s[..|s| - 1], k);
    }
  }

  // ---------------------------------------------------------------------------
  // `render_2by1`

  const BLOCKS_2BY1: seq<char> := ['\U{2588}', '\U{2580}', '\U{2584}', ' ']

  /** The cell below `(row, col)`, or dark (`true`) past the last row. */
  function Below(g: Grid, row: nat, col: nat): bool
    requires WideRows(g) && row < |g| && col < Width(g)
  {
    if row < |g| - 1 then g[row + 1][col] else true
  }

  /** `pixel_cur << 1 | pixel_below`. */
  function Index2(g: Grid, row: nat, col: nat): (idx: nat)
    requires WideRows(g) && row < |g| && col < Width(g)
    ensures idx < |BLOCKS_2BY1|
    ensures idx / 2 == Bit(g[row][col]) && idx % 2 == Bit(Below(g, row, col))
  {
    2 * Bit(g[row][col]) + Bit(Below(g, row, col))
  }

  function Line2(g: Grid, row: nat): (line: string)
    requires WideRows(g) && row < |g|
    ensures |line| == Width(g)
  {
    seq(Width(g), col requires 0 <= col < Width(g) => BLOCKS_2BY1[Index2(g, row, col)])
  }

  /** One line per pair of rows, starting at row 0. */
  function Lines2(g: Grid): (lines: seq<string>)
    requires WideRows(g)
    ensures |lines| == (|g| + 1) / 2
  {
    seq((|g| + 1) / 2, k requires 0 <= k < (|g| + 1) / 2 => Line2(g, 2 * k))
  }

  /** The inner loop of `render_2by1`: the glyphs for rows `row` and `row + 1`. */
  method RenderRow2(qrMap: Grid, row: nat) returns (line: string)
    requires WideRows(qrMap) && row < |qrMap|
    ensures line == Line2(qrMap, row)
  {
    ghost var want := Line2(qrMap, row);
    line := "";
    for col := 0 to Width(qrMap)
      invariant line == want[..col]
    {
      var pixelCur := qrMap[row][col];
      var pixelBelow := true;
      if row < |qrMap| - 1 {
        pixelBelow := qrMap[row + 1][col];
      }
      var pixelEncode := 2 * Bit(pixelCur) + Bit(pixelBelow);
      line := line + [BLOCKS_2BY1[pixelEncode]];
      assert want[..col + 1] == want[..col] + [want[col]];
    }
    assert want[..Width(qrMap)] == want;
  }

  method Render2by1(qrMap: Grid) returns (output: string)
    requires WideRows(qrMap)
    ensures output == JoinLines(Lines2(qrMap))
  {
    var lines := Lines2(qrMap);
    output := "";
    var row := 0;
    ghost var k := 0;
    while row < |qrMap|
      invariant row == 2 * k && k <= |lines|
      invariant row < |qrMap| <==> k < |lines|
      invariant output == Terminated(lines[..k])
    {
      var line := RenderRow2(qrMap, row);
      output := output + line + "\n";
      assert lines[..k + 1][..k] == lines[..k];
      row := row + 2;
      k := k + 1;
    }
    assert lines[..k] == lines;
    DropLastNewline(lines);
    if output != [] {
      output := output[..|output| - 1];
    }
  }

  // ---------------------------------------------------------------------------
  // `render_3by2`

  /** The table of `render_3by2`: full block, the Unicode block sextants, the two
      half blocks, and a space. */
  const BLOCKS_3BY2: seq<char> :=
    ['\U{2588}', '\U{1FB1D}', '\U{1FB2C}', '\U{1FB0E}', '\U{1FB34}', '\U{1FB15}', '\U{1FB25}', '\U{1FB06}']
    + ['\U{1FB38}', '\U{1FB19}', '\U{1FB28}', '\U{1FB0A}', '\U{1FB30}', '\U{1FB12}', '\U{1FB21}', '\U{1FB02}']
    + ['\U{1FB3A}', '\U{1FB1B}', '\U{1FB2A}', '\U{1FB0C}', '\U{1FB32}', '\U{258C}', '\U{1FB23}', '\U{1FB04}']
    + ['\U{1FB36}', '\U{1FB17}', '\U{1FB27}', '\U{1FB08}', '\U{1FB2E}', '\U{1FB10}', '\U{1FB1F}', '\U{1FB00}']
    + ['\U{1FB3B}', '\U{1FB1C}', '\U{1FB2B}', '\U{1FB0D}', '\U{1FB33}', '\U{1FB14}', '\U{1FB24}', '\U{1FB05}']
    + ['\U{1FB37}', '\U{1FB18}', '\U{2590}', '\U{1FB09}', '\U{1FB2F}', '\U{1FB11}', '\U{1FB20}', '\U{1FB01}']
    + ['\U{1FB39}', '\U{1FB1A}', '\U{1FB29}', '\U{1FB0B}', '\U{1FB31}', '\U{1FB13}', '\U{1FB22}', '\U{1FB03}']
    + ['\U{1FB35}', '\U{1FB16}', '\U{1FB26}', '\U{1FB07}', '\U{1FB2D}', '\U{1FB0F}', '\U{1FB1E}', ' ']

  /** `blocks_3by2[pixel_encode]`. */
  function Glyph3(idx: nat): char
    requires idx < 64
  {
    assert |BLOCKS_3BY2| == 64;
    BLOCKS_3BY2[idx]
  }

  /** `get_qr_map`: the cell, or dark (`true`) outside the grid. */
  function Cell(g: Grid, r: nat, c: nat): bool
    requires WideRows(g)
  {
    if r >= |g| || c >= Width(g) then true else g[r][c]
  }

  /** The six cells of the block at `(row, col)` as bits 5..0, in the order
      top-left, top-right, middle-left, middle-right, bottom-left, bottom-right. */
  function Index3(g: Grid, row: nat, col: nat): (idx: nat)
    requires WideRows(g) && row < |g| && col < Width(g)
    ensures idx < 64
  {
    32 * Bit(g[row][col]) + 16 * Bit(Cell(g, row, col + 1))
    + 8 * Bit(Cell(g, row + 1, col)) + 4 * Bit(Cell(g, row + 1, col + 1))
    + 2 * Bit(Cell(g, row + 2, col)) + Bit(Cell(g, row + 2, col + 1))
  }

  /** Bit `k` of `idx`. */
  function BitOf(idx: nat, k: nat): nat {
    if k == 0 then idx % 2 else BitOf(idx / 2, k - 1)
  }

  /** Six bits packed as `b5 << 5 | ... | b0` can each be read back. */
  lemma PackedBits(b5: nat, b4: nat, b3: nat, b2: nat, b1: nat, b0: nat)
    requires b5 < 2 && b4 < 2 && b3 < 2 && b2 < 2 && b1 < 2 && b0 < 2
    ensures var idx := 32 * b5 + 16 * b4 + 8 * b3 + 4 * b2 + 2 * b1 + b0;
      BitOf(idx, 5) == b5 && BitOf(idx, 4) == b4 && BitOf(idx, 3) == b3
      && BitOf(idx, 2) == b2 && BitOf(idx, 1) == b1 && BitOf(idx, 0) == b0
  {
    var i0 := 32 * b5 + 16 * b4 + 8 * b3 + 4 * b2 + 2 * b1 + b0;
    var i1 := 16 * b5 + 8 * b4 + 4 * b3 + 2 * b2 + b1;
    var i2 := 8 * b5 + 4 * b4 + 2 * b3 + b2;
    var i3 := 4 * b5 + 2 * b4 + b3;
    var i4 := 2 * b5 + b4;
    assert i0 / 2 == i1 && i0 % 2 == b0;
    assert i1 / 2 == i2 && i1 % 2 == b1;
    assert i2 / 2 == i3 && i2 % 2 == b2;
    assert i3 / 2 == i4 && i3 % 2 == b3;
    assert i4 / 2 == b5 && i4 % 2 == b4;
    assert b5 / 2 == 0 && b5 % 2 == b5;
    assert BitOf(i4, 1) == BitOf(b5, 0);
    assert BitOf(i3, 2) == BitOf(i4, 1);
    assert BitOf(i2, 3) == BitOf(i3, 2);
    assert BitOf(i1, 4) == BitOf(i2, 3);
    assert BitOf(i0, 5) == BitOf(i1, 4);
    assert BitOf(i0, 4) == BitOf(i1, 3) == BitOf(i2, 2) == BitOf(i3, 1) == BitOf(i4, 0);
    assert BitOf(i0, 3) == BitOf(i1, 2) == BitOf(i2, 1) == BitOf(i3, 0);
    assert BitOf(i0, 2) == BitOf(i1, 1) == BitOf(i2, 0);
    assert BitOf(i0, 1) == BitOf(i1, 0);
  }

  /** Each of the six cells can be read back from its bit of the index. */
  lemma Index3Bits(g: Grid, row: nat, col: nat)
    requires WideRows(g) && row < |g| && col < Width(g)
    ensures BitOf(Index3(g, row, col), 5) == Bit(Cell(g, row, col))
    ensures BitOf(Index3(g, row, col), 4) == Bit(Cell(g, row, col + 1))
    ensures BitOf(Index3(g, row, col), 3) == Bit(Cell(g, row + 1, col))
    ensures BitOf(Index3(g, row, col), 2) == Bit(Cell(g, row + 1, col + 1))
    ensures BitOf(Index3(g, row, col), 1) == Bit(Cell(g, row + 2, col))
    ensures BitOf(Index3(g, row, col), 0) == Bit(Cell(g, row + 2, col + 1))
  {
    PackedBits(Bit(Cell(g, row, col)), Bit(Cell(g, row, col + 1)), Bit(Cell(g, row + 1, col)),
      Bit(Cell(g, row + 1, col + 1)), Bit(Cell(g, row + 2, col)), Bit(Cell(g, row + 2, col + 1)));
  }

  function Line3(g: Grid, row: nat): (line: string)
    requires WideRows(g) && row < |g|
    ensures |line| == (Width(g) + 1) / 2
  {
    seq((Width(g) + 1) / 2, k requires 0 <= k < (Width(g) + 1) / 2 => Glyph3(Index3(g, row, 2 * k)))
  }

  /** One line per three rows, starting at row 0. */
  function Lines3(g: Grid): (lines: seq<string>)
    requires WideRows(g)
    ensures |lines| == (|g| + 2) / 3
  {
    seq((|g| + 2) / 3, k requires 0 <= k < (|g| + 2) / 3 => Line3(g, 3 * k))
  }

  /** The inner loop of `render_3by2`: the glyphs for rows `row..row + 2`. */
  method RenderRow3(qrMap: Grid, row: nat) returns (line: string)
    requires WideRows(qrMap) && row < |qrMap|
    ensures line == Line3(qrMap, row)
  {
    ghost var want := Line3(qrMap, row);
    line := "";
    var col := 0;
    while col < Width(qrMap)
      invariant col % 2 == 0 && col / 2 <= |want|
      invariant col < Width(qrMap) ==> col / 2 < |want|
      invariant col >= Width(qrMap) ==> col / 2 == |want|
      invariant line == want[..col / 2]
    {
      var pixelEncode := Index3(qrMap, row, col);
      line := line + [Glyph3(pixelEncode)];
      assert want[..col / 2 + 1] == want[..col / 2] + [want[col / 2]];
      col := col + 2;
    }
    assert want[..col / 2] == want;
  }

  method Render3by2(qrMap: Grid) returns (output: string)
    requires WideRows(qrMap)
    ensures output == JoinLines(Lines3(qrMap))
  {
    var lines := Lines3(qrMap);
    output := "";
    var row := 0;
    ghost var k := 0;
    while row < |qrMap|
      invariant row == 3 * k && k <= |lines|
      invariant row < |qrMap| <==> k < |lines|
      invariant output == Terminated(lines[..k])
    {
      var line := RenderRow3(qrMap, row);
      output := output + line + "\n";
      assert lines[..k + 1][..k] == lines[..k];
      row := row + 3;
      k := k + 1;
    }
    assert lines[..k] == lines;
    DropLastNewline(lines);
    if output != [] {
      output := output[..|output| - 1];
    }
  }

  // ---------------------------------------------------------------------------
  // What the glyphs and lines show

  /** A `render_2by1` glyph draws the light (`false`) cells: a full block when both
      are light, the upper half when only the top one is, the lower half when only
      the bottom one is, and a space when both are dark. */
  lemma Glyph2Shows(g: Grid, row: nat, col: nat)
    requires WideRows(g) && row < |g| && col < Width(g)
    ensures var glyph, top, bottom := BLOCKS_2BY1[Index2(g, row, col)], g[row][col], Below(g, row, col);
      (glyph == '\U{2588}' <==> !top && !bottom) && (glyph == '\U{2580}' <==> !top && bottom)
      && (glyph == '\U{2584}' <==> top && !bottom) && (glyph == ' ' <==> top && bottom)
  {
  }

  /** A `render_3by2` block of six light (`false`) cells shows a full block, one of six dark cells a space. */
  lemma Glyph3Extremes(g: Grid, row: nat, col: nat)
    requires WideRows(g) && row < |g| && col < Width(g)
    ensures Index3(g, row, col) == 0 ==> Glyph3(Index3(g, row, col)) == '\U{2588}'
    ensures Index3(g, row, col) == 63 ==> Glyph3(Index3(g, row, col)) == ' '
    ensures Index3(g, row, col) == 0 <==>
      !Cell(g, row, col) && !Cell(g, row, col + 1) && !Cell(g, row + 1, col)
      && !Cell(g, row + 1, col + 1) && !Cell(g, row + 2, col) && !Cell(g, row + 2, col + 1)
  {
  }

  lemma NoNewlineGlyph3()
    ensures '\n' !in BLOCKS_3BY2
  {
  }

  /** The text `render_2by1` prints splits into one line per two rows, each as wide
      as the grid. */
  lemma Render2Shape(g: Grid)
    requires WideRows(g) && |g| > 0
    ensures SplitLines(JoinLines(Lines2(g))) == Lines2(g)
    ensures |SplitLines(JoinLines(Lines2(g)))| == (|g| + 1) / 2
    ensures forall k :: 0 <= k < (|g| + 1) / 2 ==> |SplitLines(JoinLines(Lines2(g)))[k]| == Width(g)
  {
    var lines := Lines2(g);
    forall i, k | 0 <= i < |lines| && 0 <= k < |lines[i]| ensures lines[i][k] != '\n' {
      assert lines[i][k] in BLOCKS_2BY1;
    }
    SplitJoined(lines);
  }

  /** The text `render_3by2` prints splits into one line per three rows, each with one
      glyph per two columns. */
  lemma Render3Shape(g: Grid)
    requires WideRows(g) && |g| > 0
    ensures SplitLines(JoinLines(Lines3(g))) == Lines3(g)
    ensures |SplitLines(JoinLines(Lines3(g)))| == (|g| + 2) / 3
    ensures forall k :: 0 <= k < (|g| + 2) / 3 ==> |SplitLines(JoinLines(Lines3(g)))[k]| == (Width(g) + 1) / 2
  {
    var lines := Lines3(g);
    NoNewlineGlyph3();
    forall i, k | 0 <= i < |lines| && 0 <= k < |lines[i]| ensures lines[i][k] != '\n' {
      assert lines[i][k] in BLOCKS_3BY2;
    }
    SplitJoined(lines);
  }

  /** An empty grid prints nothing. */
  lemma RenderEmpty(g: Grid)
    requires |g| == 0
    ensures JoinLines(Lines2(g)) == "" && JoinLines(Lines3(g)) == ""
  {
  }

  // ---------------------------------------------------------------------------
  // `__qr_terminal_str`

  /** Cell `(i, j)` of the padded grid: module `(i - 1, j - 1)` inside the frame, and
      `False` on the border and where a module row is shorter than the first. */
  function FramedCell(modules: Grid, i: nat, j: nat): bool
    requires |modules| > 0
  {
    if 1 <= i <= |modules| && 1 <= j && j - 1 < |modules[i - 1]| then modules[i - 1][j - 1] else false
  }

  /** `qr_map` is the module grid framed by a one-cell border, two cells larger each way. */
  predicate IsFramed(qrMap: Grid, modules: Grid)
    requires |modules| > 0
  {
    |qrMap| == |modules| + 2
    && (forall i :: 0 <= i < |qrMap| ==> |qrMap[i]| == |modules[0]| + 2)
    && (forall i, j :: 0 <= i < |qrMap| && 0 <= j < |qrMap[i]| ==> qrMap[i][j] == FramedCell(modules, i, j))
  }

  /** The padded grid: the border is all `False` and each module sits one cell in. */
  lemma FramedCells(qrMap: Grid, modules: Grid)
    requires |modules| > 0 && IsFramed(qrMap, modules)
    requires forall r :: 0 <= r < |modules| ==> |modules[r]| == |modules[0]|
    ensures WideRows(qrMap)
    ensures forall i :: 0 <= i < |qrMap| ==> !qrMap[i][0] && !qrMap[i][|modules[0]| + 1]
    ensures forall j :: 0 <= j < |modules[0]| + 2 ==> !qrMap[0][j] && !qrMap[|modules| + 1][j]
    ensures forall r, c :: 0 <= r < |modules| && 0 <= c < |modules[0]| ==> qrMap[r + 1][c + 1] == modules[r][c]
  {
    forall r, c | 0 <= r < |modules| && 0 <= c < |modules[0]| ensures qrMap[r + 1][c + 1] == modules[r][c] {
      assert qrMap[r + 1][c + 1] == FramedCell(modules, r + 1, c + 1);
    }
  }

  /** A padded row once the first `written` modules of `row` are in: `False`, then
      those modules from index 1 on, then `False` again. */
  predicate RowSoFar(line: seq<bool>, row: seq<bool>, written: nat)
    requires written <= |row|
  {
    forall j :: 0 <= j < |line| ==> line[j] == (1 <= j <= written && row[j - 1])
  }

  lemma RowStep(line: seq<bool>, row: seq<bool>, written: nat)
    requires written < |row| && written + 1 < |line| && RowSoFar(line, row, written)
    ensures RowSoFar(line[written + 1 := row[written]], row, written + 1)
  {
  }

  /** Row `i` of the padded grid. */
  predicate IsFramedRow(line: seq<bool>, modules: Grid, i: nat)
    requires |modules| > 0
  {
    forall j :: 0 <= j < |line| ==> line[j] == FramedCell(modules, i, j)
  }

  lemma RowDone(line: seq<bool>, modules: Grid, r: nat)
    requires |modules| > 0 && r < |modules|
    requires RowSoFar(line, modules[r], |modules[r]|)
    ensures IsFramedRow(line, modules, r + 1)
  {
  }

  lemma BlankRow(line: seq<bool>, modules: Grid, i: nat)
    requires |modules| > 0 && (i == 0 || i == |modules| + 1)
    requires forall j :: 0 <= j < |line| ==> !line[j]
    ensures IsFramedRow(line, modules, i)
  {
  }

  /** The grid padding of `__qr_terminal_str`: an all-`False` grid two cells larger
      each way, with every module written one cell in. A row one longer than the
      first would overwrite the right border, and a row two or more longer would
      raise `IndexError`; `qrcode` grids are square, so neither happens. */
  method PaddedQrMap(modules: Grid) returns (qrMap: Grid)
    requires |modules| > 0
    requires forall r :: 0 <= r < |modules| ==> |modules[r]| <= |modules[0]|
    ensures IsFramed(qrMap, modules)
  {
    var qrRow := |modules| + 2;
    var qrCol := |modules[0]| + 2;
    var blank := seq(qrCol, _ => false);
    qrMap := seq(qrRow, _ => blank);
    for rowId := 0 to |modules|
      invariant |qrMap| == qrRow
      invariant forall i :: 0 <= i < qrRow ==> |qrMap[i]| == qrCol
      invariant qrMap[0] == blank
      invariant forall i :: rowId + 1 <= i < qrRow ==> qrMap[i] == blank
      invariant forall i :: 1 <= i <= rowId ==> IsFramedRow(qrMap[i], modules, i)
    {
      var row := modules[rowId];
      assert RowSoFar(qrMap[rowId + 1], row, 0);
      for colId := 0 to |row|
        invariant |qrMap| == qrRow
        invariant forall i :: 0 <= i < qrRow ==> |qrMap[i]| == qrCol
        invariant qrMap[0] == blank
        invariant forall i :: rowId + 2 <= i < qrRow ==> qrMap[i] == blank
        invariant forall i :: 1 <= i <= rowId ==> IsFramedRow(qrMap[i], modules, i)
        invariant RowSoFar(qrMap[rowId + 1], row, colId)
      {
        RowStep(qrMap[rowId + 1], row, colId);
        qrMap := qrMap[rowId + 1 := qrMap[rowId + 1][colId + 1 := row[colId]]];
      }
      RowDone(qrMap[rowId + 1], modules, rowId);
    }
    BlankRow(qrMap[0], modules, 0);
    BlankRow(qrMap[qrRow - 1], modules, qrRow - 1);
    assert forall i :: 0 <= i < qrRow ==> IsFramedRow(qrMap[i], modules, i);
  }

  /** The padding is determined by the modules. */
  lemma FramedUnique(a: Grid, b: Grid, modules: Grid)
    requires |modules| > 0
    requires IsFramed(a, modules) && IsFramed(b, modules)
    ensures a == b
  {
    forall i | 0 <= i < |a| ensures a[i] == b[i] {
      assert |a[i]| == |b[i]|;
      forall j | 0 <= j < |a[i]| ensures a[i][j] == b[i][j] {
        assert a[i][j] == FramedCell(modules, i, j);
      }
    }
  }

  datatype Renderer = TwoByOne | ThreeByTwo

  /** `__qr_terminal_str` from the module grid the QR encoder produced: pad, then render. */
  method QrTerminalStr(modules: Grid, render: Renderer) returns (output: string, qrMap: Grid)
    requires |modules| > 0
    requires forall r :: 0 <= r < |modules| ==> |modules[r]| <= |modules[0]|
    ensures IsFramed(qrMap, modules) && WideRows(qrMap)
    ensures render == TwoByOne ==> output == JoinLines(Lines2(qrMap))
    ensures render == ThreeByTwo ==> output == JoinLines(Lines3(qrMap))
  {
    qrMap := PaddedQrMap(modules);
    if render == TwoByOne {
      output := Render2by1(qrMap);
    } else {
      output := Render3by2(qrMap);
    }
  }

  /** The padded grid has `|modules| + 2` rows of `|modules[0]| + 2` cells, so
      `render_2by1` prints it in `(|modules| + 3) / 2` lines of that width. */
  lemma FramedShape2(qrMap: Grid, modules: Grid)
    requires |modules| > 0 && IsFramed(qrMap, modules)
    ensures WideRows(qrMap)
    ensures |Lines2(qrMap)| == (|modules| + 3) / 2
    ensures forall k :: 0 <= k < |Lines2(qrMap)| ==> |Lines2(qrMap)[k]| == |modules[0]| + 2
  {
  }
}
