/** scan_sheet_for_empty_cells in 3.py: the references of every empty cell of
    one sheet, in row-major order. */
module SheetScan {
  import opened Basics
  import opened Cells
  import opened CellRefs
  import Text

  /** The sheet as pd.read_excel(header=None, dtype=str) returns it: one
      sequence of cells per row. */
  type Grid = seq<seq<Cell>>

  /** The regex replace turns every text that matches the blank pattern into
      NaN, and the null mask then holds for it as for a missing value. */
  predicate IsEmptyCell(c: Cell)
  {
    c.Missing? || (c.Str? && Text.MatchesBlankPattern(c.text))
  }

  /** A cell is empty exactly when it is missing or its text is whitespace
      only, the empty text included; numbers and other values never are. */
  lemma EmptyCellMeaning(c: Cell)
    ensures IsEmptyCell(c) <==> c.Missing? || (c.Str? && Text.AllSpace(c.text))
    ensures IsEmptyCell(Str(""))
  {
    if c.Str? {
      Text.BlankPatternIffAllSpace(c.text);
    }
    Text.BlankPatternIffAllSpace("");
  }

  /** A 0-based (row, column) position, as np.argwhere reports it. */
  datatype Pos = Pos(row: nat, col: nat)

  /** Row-major order: by row, then by column. */
  predicate Before(p: Pos, q: Pos)
  {
    p.row < q.row || (p.row == q.row && p.col < q.col)
  }

  predicate RowMajor(ps: seq<Pos>)
  {
    forall i, j | 0 <= i < j < |ps| :: Before(ps[i], ps[j])
  }

  predicate IsEmptyAt(g: Grid, p: Pos)
  {
    p.row < |g| && p.col < |g[p.row]| && IsEmptyCell(g[p.row][p.col])
  }

  /** The empty positions of the grid, as a set. */
  function EmptyCells(g: Grid): set<Pos>
  {
    set r, c | 0 <= r < |g| && 0 <= c < |g[r]| && IsEmptyCell(g[r][c]) :: Pos(r, c)
  }

  lemma RowMajorAppend(a: seq<Pos>, b: seq<Pos>)
    requires RowMajor(a) && RowMajor(b)
    requires forall i, j | 0 <= i < |a| && 0 <= j < |b| :: Before(a[i], b[j])
    ensures RowMajor(a + b)
  {
    forall i, j | 0 <= i < j < |a + b| ensures Before((a + b)[i], (a + b)[j]) {
      if j < |a| {
        assert Before(a[i], a[j]);
      } else if i >= |a| {
        assert Before(b[i - |a|], b[j - |a|]);
      } else {
        assert Before(a[i], b[j - |a|]);
      }
    }
  }

  /** The empty positions in columns 0..m-1 of row r, left to right. */
  function RowEmpties(g: Grid, r: nat, m: nat): (ps: seq<Pos>)
    requires r < |g| && m <= |g[r]|
    ensures forall p :: p in ps <==> p.row == r && p.col < m && IsEmptyCell(g[r][p.col])
    ensures RowMajor(ps)
  {
    if m == 0 then []
    else
      var init := RowEmpties(g, r, m - 1);
      var last := if IsEmptyCell(g[r][m - 1]) then [Pos(r, m - 1)] else [];
      assert forall i, j | 0 <= i < |init| && 0 <= j < |last| :: Before(init[i], last[j]) by {
        forall i, j | 0 <= i < |init| && 0 <= j < |last| ensures Before(init[i], last[j]) {
          assert init[i] in init;
        }
      }
      RowMajorAppend(init, last);
      init + last
  }

  /** The empty positions of rows 0..n-1 in row-major order. */
  function EmptyPositionsUpTo(g: Grid, n: nat): (ps: seq<Pos>)
    requires n <= |g|
    ensures forall p :: p in ps <==> p.row < n && IsEmptyAt(g, p)
    ensures RowMajor(ps)
  {
    if n == 0 then []
    else
      var init := EmptyPositionsUpTo(g, n - 1);
      var row := RowEmpties(g, n - 1, |g[n - 1]|);
      assert forall i, j | 0 <= i < |init| && 0 <= j < |row| :: Before(init[i], row[j]) by {
        forall i, j | 0 <= i < |init| && 0 <= j < |row| ensures Before(init[i], row[j]) {
          assert init[i] in init;
          assert row[j] in row;
        }
      }
      RowMajorAppend(init, row);
      init + row
  }

  /** The positions argwhere finds in the null mask: every empty position
      once, row-major. */
  function EmptyPositions(g: Grid): (ps: seq<Pos>)
    ensures forall p :: p in ps <==> IsEmptyAt(g, p)
    ensures RowMajor(ps)
    ensures Distinct(ps)
    ensures |ps| == |EmptyCells(g)|
  {
    var ps := EmptyPositionsUpTo(g, |g|);
    assert Distinct(ps) by {
      forall i, j | 0 <= i < j < |ps| ensures ps[i] != ps[j] {
        assert Before(ps[i], ps[j]);
      }
    }
    assert Elements(ps) == EmptyCells(g) by {
      forall p | p in EmptyCells(g) ensures p in Elements(ps) {
        assert IsEmptyAt(g, p);
      }
    }
    DistinctCard(ps);
    ps
  }

  /** The reference one loop iteration builds for a position: the column
      letters, None where get_column_letter raises, then the 1-based row. */
  function RefAt(p: Pos): (ref: Option<string>)
    ensures ref.Some? <==> p.col + 1 <= MaxColumn
    ensures ref.Some? ==> ref.value == CellRef(p.row + 1, p.col + 1)
  {
    match GetColumnLetter(p.col + 1)
    case None => None
    case Some(letters) =>
      LettersOfColumnNumber(letters);
      Some(letters + Decimal(p.row + 1))
  }

  /** The loop that turns positions into references. get_column_letter raises
      for a column past MaxColumn; the exception leaves the loop, so the
      result is the references built before that position. */
  function RenderRefs(ps: seq<Pos>): (refs: seq<string>)
    ensures |refs| <= |ps|
  {
    if |ps| == 0 then []
    else
      match RefAt(ps[0])
      case None => []
      case Some(ref) => [ref] + RenderRefs(ps[1..])
  }

  /** Reference i is the A1 reference of position i, whose column is one
      get_column_letter accepts. */
  lemma {:induction false} RenderRefsAt(ps: seq<Pos>, i: nat)
    requires i < |RenderRefs(ps)|
    ensures ps[i].col + 1 <= MaxColumn
    ensures RenderRefs(ps)[i] == CellRef(ps[i].row + 1, ps[i].col + 1)
    decreases i
  {
    RenderRefsCons(ps);
    if i > 0 {
      RenderRefsAt(ps[1..], i - 1);
      assert ps[1..][i - 1] == ps[i];
    }
  }

  /** A non-empty rendering starts with the first position's reference. */
  lemma RenderRefsCons(ps: seq<Pos>)
    requires |RenderRefs(ps)| > 0
    ensures RefAt(ps[0]).Some?
    ensures RenderRefs(ps) == [RefAt(ps[0]).value] + RenderRefs(ps[1..])
  {
  }

  lemma RenderRefsEach(ps: seq<Pos>)
    ensures forall i | 0 <= i < |RenderRefs(ps)| ::
              RenderRefs(ps)[i] == CellRef(ps[i].row + 1, ps[i].col + 1)
  {
    forall i | 0 <= i < |RenderRefs(ps)|
      ensures RenderRefs(ps)[i] == CellRef(ps[i].row + 1, ps[i].col + 1)
    {
      RenderRefsAt(ps, i);
    }
  }

  /** The loop stops early only at a position whose column get_column_letter
      rejects. */
  lemma {:induction false} RenderRefsStop(ps: seq<Pos>)
    ensures |RenderRefs(ps)| < |ps| ==> ps[|RenderRefs(ps)|].col + 1 > MaxColumn
  {
    if |ps| > 0 && RefAt(ps[0]).Some? {
      RenderRefsStop(ps[1..]);
      var n := |RenderRefs(ps[1..])|;
      assert n < |ps| - 1 ==> ps[1..][n] == ps[n + 1];
    }
  }

  /** How pd.read_excel ended for one sheet. */
  datatype SheetRead = Loaded(grid: Grid) | LoadFailed(reason: string)

  datatype Sheet = Sheet(name: string, read: SheetRead)

  /** The (sheet_name, empty_cells) pair a scan returns. */
  datatype SheetResult = SheetResult(name: string, refs: seq<string>)

  /** The reference is the A1 reference of some empty cell. */
  ghost predicate NamesEmptyCell(g: Grid, ref: string)
  {
    exists p | IsEmptyAt(g, p) :: ref == CellRef(p.row + 1, p.col + 1)
  }

  lemma RenderedRefNamesEmptyCell(g: Grid, ps: seq<Pos>, i: nat)
    requires forall p | p in ps :: IsEmptyAt(g, p)
    requires i < |RenderRefs(ps)|
    ensures NamesEmptyCell(g, RenderRefs(ps)[i])
  {
    assert ps[i] in ps;
    RenderRefsAt(ps, i);
  }

  lemma RenderedRefsNameEmptyCells(g: Grid)
    ensures forall i | 0 <= i < |RenderRefs(EmptyPositions(g))| ::
              NamesEmptyCell(g, RenderRefs(EmptyPositions(g))[i])
  {
    var ps := EmptyPositions(g);
    forall i | 0 <= i < |RenderRefs(ps)| ensures NamesEmptyCell(g, RenderRefs(ps)[i]) {
      RenderedRefNamesEmptyCell(g, ps, i);
    }
  }

  /** One sheet's scan. A sheet that cannot be read yields no references and
      the failure never propagates; otherwise every reference names an empty
      cell of the sheet. */
  function ScanSheet(s: Sheet): (res: SheetResult)
    ensures res.name == s.name
    ensures s.read.LoadFailed? ==> res.refs == []
    ensures s.read.Loaded? ==>
              forall i | 0 <= i < |res.refs| :: NamesEmptyCell(s.read.grid, res.refs[i])
  {
    match s.read
    case LoadFailed(_) => SheetResult(s.name, [])
    case Loaded(g) =>
      RenderedRefsNameEmptyCells(g);
      SheetResult(s.name, RenderRefs(EmptyPositions(g)))
  }

  /** With no position past MaxColumn, every position is rendered. */
  lemma RenderAll(ps: seq<Pos>)
    requires forall p | p in ps :: p.col < MaxColumn
    ensures |RenderRefs(ps)| == |ps|
  {
    RenderRefsStop(ps);
  }

  /** Distinct positions give distinct references. */
  lemma RenderDistinct(ps: seq<Pos>)
    requires Distinct(ps) && |RenderRefs(ps)| == |ps|
    ensures Distinct(RenderRefs(ps))
  {
    var refs := RenderRefs(ps);
    forall i, j | 0 <= i < j < |refs| ensures refs[i] != refs[j] {
      RenderRefsAt(ps, i);
      RenderRefsAt(ps, j);
      CellRefInjective(ps[i].row + 1, ps[i].col + 1, ps[j].row + 1, ps[j].col + 1);
    }
  }

  lemma RenderAllEmpty(g: Grid)
    requires forall r | 0 <= r < |g| :: |g[r]| <= MaxColumn
    ensures |RenderRefs(EmptyPositions(g))| == |EmptyPositions(g)|
  {
    var ps := EmptyPositions(g);
    forall p | p in ps ensures p.col < MaxColumn {
      assert IsEmptyAt(g, p);
    }
    RenderAll(ps);
  }

  /** Distinct positions, none past MaxColumn, are all rendered, in order,
      and no two references are alike. */
  lemma RenderPositions(ps: seq<Pos>)
    requires Distinct(ps)
    requires forall p | p in ps :: p.col < MaxColumn
    ensures |RenderRefs(ps)| == |ps|
    ensures forall i | 0 <= i < |ps| :: RenderRefs(ps)[i] == CellRef(ps[i].row + 1, ps[i].col + 1)
    ensures Distinct(RenderRefs(ps))
  {
    RenderAll(ps);
    RenderDistinct(ps);
    RenderRefsEach(ps);
  }

  /** With every empty position inside MaxColumn, every position is
      rendered, in order, and no two references are alike. */
  lemma RenderComplete(g: Grid)
    requires forall r | 0 <= r < |g| :: |g[r]| <= MaxColumn
    ensures var ps := EmptyPositions(g);
            && |RenderRefs(ps)| == |ps|
            && (forall i | 0 <= i < |ps| :: RenderRefs(ps)[i] == CellRef(ps[i].row + 1, ps[i].col + 1))
            && Distinct(RenderRefs(ps))
  {
    EmptyPositionsInside(g);
    RenderPositions(EmptyPositions(g));
  }

  lemma EmptyPositionsInside(g: Grid)
    requires forall r | 0 <= r < |g| :: |g[r]| <= MaxColumn
    ensures forall p | p in EmptyPositions(g) :: p.col < MaxColumn
  {
    forall p | p in EmptyPositions(g) ensures p.col < MaxColumn {
      assert IsEmptyAt(g, p);
    }
  }

  /** On a sheet no wider than MaxColumn (every real worksheet: Excel stops
      at 16384 columns) the scan is complete: one reference per empty cell,
      in the row-major order of the empty positions, and no two alike. */
  lemma ScanSheetComplete(name: string, g: Grid)
    requires forall r | 0 <= r < |g| :: |g[r]| <= MaxColumn
    ensures var refs := ScanSheet(Sheet(name, Loaded(g))).refs;
            var ps := EmptyPositions(g);
            && |refs| == |ps| == |EmptyCells(g)|
            && (forall i | 0 <= i < |refs| :: refs[i] == CellRef(ps[i].row + 1, ps[i].col + 1))
            && Distinct(refs)
  {
    RenderComplete(g);
  }
}
