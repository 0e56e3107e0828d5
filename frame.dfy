/**
 * The price list as the dashboard holds it: a table of named columns whose
 * rows map every column name to a cell. A cell is missing (the library's
 * NaN), text, or a number.
 */
module Frame {
  import opened Selection

  datatype Cell = Missing | Text(s: string) | Number(x: real)

  type Row = map<string, Cell>

  datatype Table = Table(columns: seq<string>, rows: seq<Row>)

  /** The two ways the cleaning script and the summary can fail. */
  datatype Error =
    | KeyError(column: string)   // a column the script names is not in the table
    | TypeError(column: string)  // a column's cells cannot be compared or added

  datatype Result<T> = Ok(value: T) | Err(error: Error) {
    predicate IsFailure() { Err? }

    function PropagateFailure<U>(): Result<U>
      requires Err?
    {
      Err(error)
    }

    function Extract(): T
      requires Ok?
    {
      value
    }
  }

  /** The outcome of an operation that changes a table in place. */
  datatype Outcome = Pass | Fail(error: Error)

  /** Column names are unique and every row has a cell for exactly those columns. */
  predicate WellFormed(t: Table) {
    && Distinct(t.columns)
    && forall i | 0 <= i < |t.rows| :: t.rows[i].Keys == Elements(t.columns)
  }

  /** `df[col]`: the cells of one column, top to bottom. */
  function Column(t: Table, col: string): seq<Cell>
    requires WellFormed(t) && col in t.columns
  {
    seq(|t.rows|, i requires 0 <= i < |t.rows| => t.rows[i][col])
  }

  /** The text the library writes for a missing value when it converts it to text. */
  const NanText := "nan"

  /** The cellwise operations the script applies to a whole column. */
  datatype CellOp =
    | FillNa(fill: string)              // Series.fillna(fill)
    | AsStr(numText: real -> string)    // Series.astype(str); numText is the library's number formatting

  function Apply(op: CellOp, c: Cell): Cell {
    match op
    case FillNa(fill) => if c.Missing? then Text(fill) else c
    case AsStr(numText) =>
      match c
      case Missing => Text(NanText)
      case Text(_) => c
      case Number(x) => Text(numText(x))
  }

  /** Filling leaves no missing cell and keeps every present one; converting to text leaves only text. */
  lemma ApplyResult(op: CellOp, c: Cell)
    ensures op.FillNa? ==> !Apply(op, c).Missing? && (c.Missing? || Apply(op, c) == c)
    ensures op.FillNa? && c.Missing? ==> Apply(op, c) == Text(op.fill)
    ensures op.AsStr? ==> Apply(op, c).Text? && (c.Text? ==> Apply(op, c) == c)
    ensures op.AsStr? && c.Missing? ==> Apply(op, c) == Text(NanText)
    ensures op.FillNa? ==> Apply(op, Apply(op, c)) == Apply(op, c)
  {
  }

  /** The row with the cell of `col` replaced by `op` of itself. */
  function MapCell(r: Row, col: string, op: CellOp): Row
    requires col in r
  {
    r[col := Apply(op, r[col])]
  }

  /**
   * `df[col] = df[col].<op>()`: replace one column by a cellwise function of
   * itself. Indexing a column that is not there is a KeyError.
   */
  function MapColumn(t: Table, col: string, op: CellOp): (r: Result<Table>)
    requires WellFormed(t)
    ensures r.Ok? <==> col in t.columns
    ensures r.Err? ==> r.error == KeyError(col)
    ensures r.Ok? ==> WellFormed(r.value) && r.value.columns == t.columns && |r.value.rows| == |t.rows|
    ensures r.Ok? ==> forall i | 0 <= i < |t.rows| ::
                        r.value.rows[i].Keys == t.rows[i].Keys &&
                        forall c | c in t.rows[i] ::
                          r.value.rows[i][c] == if c == col then Apply(op, t.rows[i][c]) else t.rows[i][c]
  {
    if col !in t.columns then Err(KeyError(col))
    else Ok(Table(t.columns, seq(|t.rows|, i requires 0 <= i < |t.rows| => MapCell(t.rows[i], col, op))))
  }

  /** The comparison `cell > 0`: only a number above zero passes; a missing cell compares false. */
  predicate IsPositive(c: Cell) {
    c.Number? && c.x > 0.0
  }

  /**
   * `df[col] > 0`: one flag per row. Text cannot be compared with a number,
   * so one text cell makes the whole comparison a TypeError.
   */
  function GreaterThanZero(t: Table, col: string): (r: Result<seq<bool>>)
    requires WellFormed(t)
    ensures r.Ok? <==> col in t.columns && forall i | 0 <= i < |t.rows| :: !t.rows[i][col].Text?
    ensures r.Err? ==> r.error == if col in t.columns then TypeError(col) else KeyError(col)
    ensures r.Ok? ==> |r.value| == |t.rows| &&
                      forall i | 0 <= i < |t.rows| :: r.value[i] <==> t.rows[i][col].Number? && t.rows[i][col].x > 0.0
  {
    if col !in t.columns then Err(KeyError(col))
    else if exists i | 0 <= i < |t.rows| :: t.rows[i][col].Text? then Err(TypeError(col))
    else Ok(seq(|t.rows|, i requires 0 <= i < |t.rows| => IsPositive(t.rows[i][col])))
  }

  /** `df[mask]`: the rows whose flag is set, in their original order; the columns stay. */
  function SelectRows(t: Table, keep: seq<bool>): (r: Table)
    requires WellFormed(t) && |keep| == |t.rows|
    ensures WellFormed(r) && r.columns == t.columns && |r.rows| <= |t.rows|
    ensures forall row :: row in r.rows <==> exists i | 0 <= i < |t.rows| :: keep[i] && t.rows[i] == row
  {
    forall row ensures row in Mask(t.rows, keep) <==> exists i | 0 <= i < |t.rows| :: keep[i] && t.rows[i] == row {
      MaskMember(t.rows, keep, row);
    }
    SubsetOfRows(t, Mask(t.rows, keep));
    Table(t.columns, Mask(t.rows, keep))
  }

  /**
   * `df.drop_duplicates()`: a row equal on every column to an earlier row is
   * removed. No two rows of the result are equal, and it holds the same rows.
   */
  function DropDuplicateRows(t: Table): (r: Table)
    requires WellFormed(t)
    ensures WellFormed(r) && r.columns == t.columns
    ensures Distinct(r.rows) && Elements(r.rows) == Elements(t.rows)
    ensures |r.rows| == |Elements(t.rows)| <= |t.rows|
  {
    DropDuplicatesSpec(t.rows);
    ElementsBound(t.rows);
    SubsetOfRows(t, DropDuplicates(t.rows));
    Table(t.columns, DropDuplicates(t.rows))
  }

  /** Rows taken from a well-formed table form a well-formed table with the same columns. */
  lemma SubsetOfRows(t: Table, rows: seq<Row>)
    requires WellFormed(t)
    requires forall row | row in rows :: row in t.rows
    ensures WellFormed(Table(t.columns, rows))
  {
    forall k | 0 <= k < |rows| ensures rows[k].Keys == Elements(t.columns) {
      assert rows[k] in t.rows;
    }
  }

  /** The flags that keep every column name but `col`. */
  function OtherColumns(columns: seq<string>, col: string): (keep: seq<bool>)
    ensures |keep| == |columns|
  {
    seq(|columns|, i requires 0 <= i < |columns| => columns[i] != col)
  }

  /**
   * `df.drop(col, axis=1)`: the table without column `col`; the other column
   * names stay, and stay distinct, and every row keeps its other cells.
   * Dropping a column that is not there is a KeyError.
   */
  function DropColumn(t: Table, col: string): (r: Result<Table>)
    requires WellFormed(t)
    ensures r.Ok? <==> col in t.columns
    ensures r.Err? ==> r.error == KeyError(col)
    ensures r.Ok? ==> WellFormed(r.value) && col !in r.value.columns && |r.value.rows| == |t.rows|
    ensures r.Ok? ==> forall c :: c in r.value.columns <==> c in t.columns && c != col
    ensures r.Ok? ==> forall i | 0 <= i < |t.rows| ::
                        r.value.rows[i].Keys == t.rows[i].Keys - {col} &&
                        forall c | c in r.value.rows[i] :: r.value.rows[i][c] == t.rows[i][c]
  {
    if col !in t.columns then Err(KeyError(col))
    else
      var keep := OtherColumns(t.columns, col);
      var columns := Mask(t.columns, keep);
      MaskDistinct(t.columns, keep);
      assert forall c :: c in columns <==> c in t.columns && c != col by {
        forall c ensures c in columns <==> c in t.columns && c != col {
          MaskMember(t.columns, keep, c);
        }
      }
      assert Elements(columns) == Elements(t.columns) - {col};
      Ok(Table(columns, seq(|t.rows|, i requires 0 <= i < |t.rows| => t.rows[i] - {col})))
  }

  /** `Series.nunique()`: the number of different values, missing cells not counted. */
  function NUnique(cells: seq<Cell>): (n: nat)
    ensures n <= |cells|
  {
    var present := set c | c in cells && !c.Missing?;
    ElementsBound(cells);
    assert present <= Elements(cells);
    assert |present| <= |Elements(cells)| by { SubsetCard(present, Elements(cells)); }
    |present|
  }

  lemma SubsetCard<T>(a: set<T>, b: set<T>)
    requires a <= b
    ensures |a| <= |b|
  {
    assert b == a + (b - a);
  }

  /** On a column with no missing cell, the count is the length of the column without duplicates. */
  lemma NUniqueIsDeduplicatedLength(cells: seq<Cell>)
    requires forall i | 0 <= i < |cells| :: !cells[i].Missing?
    ensures NUnique(cells) == |DropDuplicates(cells)|
  {
    assert (set c | c in cells && !c.Missing?) == Elements(cells);
    DropDuplicatesSpec(cells);
  }

  /** Whether `x + y` is defined on two cells: text with text, number with number, or a missing side. */
  predicate Addable(x: Cell, y: Cell) {
    x.Missing? || y.Missing? || (x.Text? && y.Text?) || (x.Number? && y.Number?)
  }

  /** `x + y` on two cells: concatenation of text, sum of numbers, missing if either side is. */
  function AddCells(x: Cell, y: Cell): Cell
    requires Addable(x, y)
  {
    if x.Missing? || y.Missing? then Missing
    else if x.Text? then Text(x.s + y.s)
    else Number(x.x + y.x)
  }

  /**
   * `df[a] + df[b]`: the row-by-row sum of two columns. A row that adds text
   * to a number makes the whole sum a TypeError.
   */
  function AddColumns(t: Table, a: string, b: string): (r: Result<seq<Cell>>)
    requires WellFormed(t)
    ensures r.Ok? <==> (a in t.columns && b in t.columns &&
                        forall i | 0 <= i < |t.rows| :: Addable(t.rows[i][a], t.rows[i][b]))
    ensures r.Ok? ==> |r.value| == |t.rows|
    ensures r.Ok? ==> forall i | 0 <= i < |t.rows| ::
                        && (t.rows[i][a].Missing? || t.rows[i][b].Missing? ==> r.value[i] == Missing)
                        && (t.rows[i][a].Text? && t.rows[i][b].Text? ==> r.value[i] == Text(t.rows[i][a].s + t.rows[i][b].s))
                        && (t.rows[i][a].Number? && t.rows[i][b].Number? ==> r.value[i] == Number(t.rows[i][a].x + t.rows[i][b].x))
    ensures a !in t.columns ==> r == Err(KeyError(a))
    ensures a in t.columns && b !in t.columns ==> r == Err(KeyError(b))
    ensures a in t.columns && b in t.columns && r.Err? ==> r == Err(TypeError(a))
  {
    if a !in t.columns then Err(KeyError(a))
    else if b !in t.columns then Err(KeyError(b))
    else if exists i | 0 <= i < |t.rows| :: !Addable(t.rows[i][a], t.rows[i][b]) then Err(TypeError(a))
    else Ok(seq(|t.rows|, i requires 0 <= i < |t.rows| => AddCells(t.rows[i][a], t.rows[i][b])))
  }
}
