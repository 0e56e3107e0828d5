/**
 * The cleaning block of the price-list dashboard: fill missing text with
 * "N/A" in twelve columns, turn the phone column into text, keep the rows
 * with a positive unit price, drop repeated rows, and drop the total-quantity
 * column, in that order.
 */
module Cleaning {
  import opened Selection
  import opened Frame

  // The columns of the price list that the script names.
  const Date := "Fecha"
  const StoreName := "Nombre del Comercio"
  const StoreAddress := "Direccion del Comercio"
  const Neighborhood := "Vecindario del Comercio"
  const StoreArea := "Area del Comercio"
  const PostalCode := "Codigo Postal del Comercio"
  const StoreCategory := "Categoria del Comercio"
  const Website := "Web del Comercio"
  const Description := "Descripcion del Producto"
  const Sku := "SKU del Producto"
  const Uom := "UoM del Producto"
  const ProductCategory := "Categoria del Producto"
  const Phone := "Telefono del Comercio"
  const UnitPrice := "Precio Unitario del Producto"
  const Quantity := "Cantidad Total"

  /** The placeholder written into a missing text cell. */
  const Sentinel := "N/A"

  /** The twelve columns whose missing cells are filled, in the order the script fills them. */
  const NullFilledColumns: seq<string> :=
    [Date, StoreName, StoreAddress, Neighborhood, StoreArea, PostalCode,
     StoreCategory, Website, Description, Sku, Uom, ProductCategory]

  /** Every column the cleaning block reads, in the order it first reads them. */
  const RequiredColumns: seq<string> := NullFilledColumns + [Phone, UnitPrice, Quantity]

  predicate HasColumns(t: Table, columns: seq<string>) {
    forall c | c in columns :: c in t.columns
  }

  /** The columns read up to and including the price filter, in the order the script reads them. */
  const FilterReads: seq<string> := NullFilledColumns + [Phone, UnitPrice]

  /** `columns[k]` is the first of `columns` that `t` lacks: the one whose statement raises. */
  predicate FirstAbsent(t: Table, columns: seq<string>, k: int) {
    0 <= k < |columns| && columns[k] !in t.columns && forall j | 0 <= j < k :: columns[j] in t.columns
  }

  /** The first column absent from a list is still the first one absent once more columns follow. */
  lemma FirstAbsentPrefix(t: Table, a: seq<string>, b: seq<string>, k: int)
    requires FirstAbsent(t, a, k)
    ensures FirstAbsent(t, a + b, k) && (a + b)[k] == a[k]
  {
    assert forall j | 0 <= j < k :: (a + b)[j] == a[j];
  }

  /** When every column of `a` is present, the first column of `b`, if absent, is the first absent of `a + b`. */
  lemma FirstAbsentAfter(t: Table, a: seq<string>, b: seq<string>)
    requires HasColumns(t, a) && |b| > 0 && b[0] !in t.columns
    ensures FirstAbsent(t, a + b, |a|) && (a + b)[|a|] == b[0]
  {
    assert forall j | 0 <= j < |a| :: (a + b)[j] == a[j];
  }

  /** No cell of `col` is text (so `col > 0` can be evaluated). */
  predicate NoTextIn(t: Table, col: string) {
    forall i | 0 <= i < |t.rows| && col in t.rows[i] :: !t.rows[i][col].Text?
  }

  /** The row has a unit price that is a number above zero. */
  predicate HasPositivePrice(r: Row) {
    UnitPrice in r && IsPositive(r[UnitPrice])
  }

  /**
   * The invariant of a cleaned row: a price above zero, none of the twelve
   * filled columns missing, the phone as text, and no quantity cell.
   */
  predicate IsCleanRow(r: Row) {
    && HasPositivePrice(r)
    && (forall col | col in NullFilledColumns :: col in r && !r[col].Missing?)
    && Phone in r && r[Phone].Text?
    && Quantity !in r
  }

  /** The twelve `df[c] = df[c].fillna('N/A')` statements, column after column. */
  function FillNulls(t: Table, columns: seq<string>): (r: Result<Table>)
    requires WellFormed(t)
    ensures r.Ok? ==> WellFormed(r.value)
    decreases |columns|
  {
    if columns == [] then Ok(t)
    else
      var filled :- MapColumn(t, columns[0], FillNa(Sentinel));
      FillNulls(filled, columns[1..])
  }

  /** One row after filling the missing cells of `columns`. */
  function FillRow(r: Row, columns: seq<string>): Row {
    map c | c in r :: if c in columns then Apply(FillNa(Sentinel), r[c]) else r[c]
  }

  lemma FillRowStep(r: Row, col: string, rest: seq<string>)
    requires col in r
    ensures FillRow(MapCell(r, col, FillNa(Sentinel)), rest) == FillRow(r, [col] + rest)
  {
    forall c | c in r
      ensures FillRow(MapCell(r, col, FillNa(Sentinel)), rest)[c] == FillRow(r, [col] + rest)[c]
    {
      ApplyResult(FillNa(Sentinel), r[c]);
    }
  }

  /**
   * Filling a list of columns succeeds exactly when all of them are present;
   * it then fills the missing cells of those columns and of no other, and a
   * failure names a listed column that is absent.
   */
  lemma {:induction false} FillNullsEffect(t: Table, columns: seq<string>)
    requires WellFormed(t)
    ensures FillNulls(t, columns).Ok? <==> HasColumns(t, columns)
    ensures FillNulls(t, columns).Ok? ==>
              var u := FillNulls(t, columns).value;
              u.columns == t.columns && |u.rows| == |t.rows| &&
              forall i | 0 <= i < |t.rows| :: u.rows[i] == FillRow(t.rows[i], columns)
    ensures FillNulls(t, columns).Err? ==>
              exists k :: FirstAbsent(t, columns, k) && FillNulls(t, columns).error == KeyError(columns[k])
    decreases |columns|
  {
    if columns == [] {
      forall i | 0 <= i < |t.rows| ensures t.rows[i] == FillRow(t.rows[i], columns) { }
    } else {
      var col, rest := columns[0], columns[1..];
      assert columns == [col] + rest;
      if col !in t.columns {
        assert FirstAbsent(t, columns, 0);
      } else {
        var filled := MapColumn(t, col, FillNa(Sentinel)).value;
        FillNullsEffect(filled, rest);
        if FillNulls(t, columns).Err? {
          var k :| FirstAbsent(filled, rest, k) && FillNulls(filled, rest).error == KeyError(rest[k]);
          assert FirstAbsent(t, columns, k + 1);
        }
        if FillNulls(t, columns).Ok? {
          forall i | 0 <= i < |t.rows|
            ensures FillNulls(t, columns).value.rows[i] == FillRow(t.rows[i], columns)
          {
            assert filled.rows[i] == MapCell(t.rows[i], col, FillNa(Sentinel));
            FillRowStep(t.rows[i], col, rest);
          }
        }
      }
    }
  }

  /** Lines 60-74 together: the in-place part of the script. */
  function TypeFixed(raw: Table, numText: real -> string): (r: Result<Table>)
    requires WellFormed(raw)
    ensures r.Ok? ==> WellFormed(r.value)
  {
    var filled :- FillNulls(raw, NullFilledColumns);
    MapColumn(filled, Phone, AsStr(numText))
  }

  /** One row after lines 60-74: twelve columns filled, the phone turned into text, the rest untouched. */
  function FixRow(r: Row, numText: real -> string): Row {
    map c | c in r ::
      if c in NullFilledColumns then Apply(FillNa(Sentinel), r[c])
      else if c == Phone then Apply(AsStr(numText), r[c])
      else r[c]
  }

  lemma PhoneNotFilled()
    ensures Phone !in NullFilledColumns
  {
  }

  /** The price and quantity columns are neither filled nor converted. */
  lemma PriceAndQuantityUntouched()
    ensures UnitPrice !in NullFilledColumns && UnitPrice != Phone
    ensures Quantity !in NullFilledColumns && Quantity != Phone && Quantity != UnitPrice
  {
  }

  lemma FixRowSteps(r: Row, numText: real -> string)
    requires Phone in r
    ensures MapCell(FillRow(r, NullFilledColumns), Phone, AsStr(numText)) == FixRow(r, numText)
  {
    PhoneNotFilled();
  }

  /**
   * The in-place part succeeds exactly when the twelve filled columns and the
   * phone column are present, and then changes every row as FixRow says.
   */
  lemma TypeFixedEffect(raw: Table, numText: real -> string)
    requires WellFormed(raw)
    ensures TypeFixed(raw, numText).Ok? <==> HasColumns(raw, NullFilledColumns + [Phone])
    ensures TypeFixed(raw, numText).Ok? ==>
              var u := TypeFixed(raw, numText).value;
              u.columns == raw.columns && |u.rows| == |raw.rows| &&
              forall i | 0 <= i < |raw.rows| :: u.rows[i] == FixRow(raw.rows[i], numText)
    ensures TypeFixed(raw, numText).Err? ==>
              exists k :: FirstAbsent(raw, NullFilledColumns + [Phone], k) &&
                          TypeFixed(raw, numText).error == KeyError((NullFilledColumns + [Phone])[k])
  {
    FillNullsEffect(raw, NullFilledColumns);
    if FillNulls(raw, NullFilledColumns).Err? {
      var k :| FirstAbsent(raw, NullFilledColumns, k) &&
               FillNulls(raw, NullFilledColumns).error == KeyError(NullFilledColumns[k]);
      FirstAbsentPrefix(raw, NullFilledColumns, [Phone], k);
    } else if Phone !in raw.columns {
      FirstAbsentAfter(raw, NullFilledColumns, [Phone]);
    }
    if FillNulls(raw, NullFilledColumns).Ok? {
      var filled := FillNulls(raw, NullFilledColumns).value;
      if Phone in raw.columns {
        var u := TypeFixed(raw, numText).value;
        assert u == MapColumn(filled, Phone, AsStr(numText)).value;
        forall i | 0 <= i < |raw.rows| ensures u.rows[i] == FixRow(raw.rows[i], numText) {
          assert filled.rows[i] == FillRow(raw.rows[i], NullFilledColumns);
          assert u.rows[i] == MapCell(filled.rows[i], Phone, AsStr(numText));
          FixRowSteps(raw.rows[i], numText);
        }
      }
    }
  }

  /** Line 77, `df = df[df[price] > 0]`. */
  function KeepPositivePrices(t: Table): (r: Result<Table>)
    requires WellFormed(t)
    ensures r.Ok? ==> WellFormed(r.value)
  {
    var keep :- GreaterThanZero(t, UnitPrice);
    Ok(SelectRows(t, keep))
  }

  /** Lines 59-83: the whole cleaning block. */
  function Clean(raw: Table, numText: real -> string): (r: Result<Table>)
    requires WellFormed(raw)
    ensures r.Ok? ==> WellFormed(r.value)
  {
    var fixed :- TypeFixed(raw, numText);
    var positive :- KeepPositivePrices(fixed);
    DropColumn(DropDuplicateRows(positive), Quantity)
  }

  /**
   * What lines 60-74 do to one row: each of the twelve columns holds its own
   * value if present and "N/A" otherwise; the phone is text, a missing phone
   * becoming "nan" (not "N/A"); the price and quantity cells are untouched.
   */
  lemma FixRowCells(r: Row, numText: real -> string)
    ensures FixRow(r, numText).Keys == r.Keys
    ensures forall c | c in NullFilledColumns && c in r ::
              !FixRow(r, numText)[c].Missing? &&
              FixRow(r, numText)[c] == (if r[c].Missing? then Text(Sentinel) else r[c])
    ensures Phone in r ==> FixRow(r, numText)[Phone].Text?
    ensures Phone in r && r[Phone].Missing? ==> FixRow(r, numText)[Phone] == Text(NanText)
    ensures Phone in r && r[Phone].Text? ==> FixRow(r, numText)[Phone] == r[Phone]
    ensures UnitPrice in r ==> FixRow(r, numText)[UnitPrice] == r[UnitPrice]
    ensures Quantity in r ==> FixRow(r, numText)[Quantity] == r[Quantity]
  {
    PhoneNotFilled();
    PriceAndQuantityUntouched();
  }

  /**
   * The cleaning block stops at the first statement that fails: a KeyError
   * on the first absent column among those read through line 77, else the
   * TypeError of the price comparison, else the KeyError of line 83.
   */
  lemma CleanErrors(raw: Table, numText: real -> string)
    requires WellFormed(raw)
    ensures !HasColumns(raw, FilterReads) ==>
              exists k :: FirstAbsent(raw, FilterReads, k) && Clean(raw, numText) == Err(KeyError(FilterReads[k]))
    ensures HasColumns(raw, FilterReads) && !NoTextIn(raw, UnitPrice) ==>
              Clean(raw, numText) == Err(TypeError(UnitPrice))
    ensures HasColumns(raw, FilterReads) && NoTextIn(raw, UnitPrice) && Quantity !in raw.columns ==>
              Clean(raw, numText) == Err(KeyError(Quantity))
  {
    var front := NullFilledColumns + [Phone];
    assert FilterReads == front + [UnitPrice];
    TypeFixedEffect(raw, numText);
    if TypeFixed(raw, numText).Err? {
      var k :| FirstAbsent(raw, front, k) && TypeFixed(raw, numText).error == KeyError(front[k]);
      FirstAbsentPrefix(raw, front, [UnitPrice], k);
    } else {
      assert HasColumns(raw, front);
      var fixed := TypeFixed(raw, numText).value;
      if UnitPrice !in raw.columns {
        FirstAbsentAfter(raw, front, [UnitPrice]);
      } else {
        forall i | 0 <= i < |raw.rows| && UnitPrice in raw.rows[i]
          ensures fixed.rows[i][UnitPrice] == raw.rows[i][UnitPrice]
        {
          FixRowCells(raw.rows[i], numText);
        }
        assert NoTextIn(fixed, UnitPrice) <==> NoTextIn(raw, UnitPrice);
      }
    }
  }

  /**
   * The cleaning block fails exactly when a column it reads is absent or the
   * price column holds text; otherwise it produces a table.
   */
  lemma CleanSucceeds(raw: Table, numText: real -> string)
    requires WellFormed(raw)
    ensures Clean(raw, numText).Ok? <==> HasColumns(raw, RequiredColumns) && NoTextIn(raw, UnitPrice)
    ensures Clean(raw, numText).Err? ==>
              var e := Clean(raw, numText).error;
              || (exists k :: FirstAbsent(raw, FilterReads, k) && e == KeyError(FilterReads[k]))
              || (HasColumns(raw, FilterReads) && !NoTextIn(raw, UnitPrice) && e == TypeError(UnitPrice))
              || (HasColumns(raw, FilterReads) && NoTextIn(raw, UnitPrice) && Quantity !in raw.columns &&
                  e == KeyError(Quantity))
  {
    CleanErrors(raw, numText);
    TypeFixedEffect(raw, numText);
    PriceAndQuantityUntouched();
    assert HasColumns(raw, RequiredColumns) <==>
           HasColumns(raw, NullFilledColumns + [Phone]) && UnitPrice in raw.columns && Quantity in raw.columns;
    if TypeFixed(raw, numText).Ok? {
      var fixed := TypeFixed(raw, numText).value;
      forall i | 0 <= i < |raw.rows| && UnitPrice in raw.rows[i]
        ensures fixed.rows[i][UnitPrice] == raw.rows[i][UnitPrice]
      {
        FixRowCells(raw.rows[i], numText);
      }
      assert NoTextIn(fixed, UnitPrice) <==> NoTextIn(raw, UnitPrice);
    }
  }

  /**
   * Line 77 keeps exactly the rows whose price is a number above zero: a
   * zero, negative or missing price removes the row; no row is added.
   */
  lemma KeepPositiveRows(t: Table)
    requires WellFormed(t)
    ensures KeepPositivePrices(t).Ok? <==> UnitPrice in t.columns && NoTextIn(t, UnitPrice)
    ensures KeepPositivePrices(t).Ok? ==>
              var p := KeepPositivePrices(t).value;
              p.columns == t.columns && |p.rows| <= |t.rows| &&
              forall row :: row in p.rows <==>
                exists i | 0 <= i < |t.rows| :: HasPositivePrice(t.rows[i]) && t.rows[i] == row
  {
  }

  /**
   * Order survives line 77: filtering the rows of `a + b` gives the survivors
   * of `a` followed by the survivors of `b`.
   */
  lemma KeepPositiveAppend(columns: seq<string>, a: seq<Row>, b: seq<Row>)
    requires WellFormed(Table(columns, a + b))
    requires KeepPositivePrices(Table(columns, a + b)).Ok?
    ensures WellFormed(Table(columns, a)) && WellFormed(Table(columns, b))
    ensures KeepPositivePrices(Table(columns, a)).Ok? && KeepPositivePrices(Table(columns, b)).Ok?
    ensures KeepPositivePrices(Table(columns, a + b)).value.rows
         == KeepPositivePrices(Table(columns, a)).value.rows + KeepPositivePrices(Table(columns, b)).value.rows
  {
    var ta, tb, tab := Table(columns, a), Table(columns, b), Table(columns, a + b);
    SplitRows(columns, a, b);
    var ka := GreaterThanZero(ta, UnitPrice).value;
    var kb := GreaterThanZero(tb, UnitPrice).value;
    var kab := GreaterThanZero(tab, UnitPrice).value;
    assert kab == ka + kb by {
      forall i | 0 <= i < |kab| ensures kab[i] == (ka + kb)[i] {
        if i < |a| {
          assert tab.rows[i] == ta.rows[i];
        } else {
          assert tab.rows[i] == tb.rows[i - |a|];
        }
      }
    }
    MaskAppend(a, ka, b, kb);
  }

  /** The two parts of a well-formed table whose prices can be compared can be compared too. */
  lemma SplitRows(columns: seq<string>, a: seq<Row>, b: seq<Row>)
    requires WellFormed(Table(columns, a + b))
    requires UnitPrice in columns && NoTextIn(Table(columns, a + b), UnitPrice)
    ensures WellFormed(Table(columns, a)) && WellFormed(Table(columns, b))
    ensures NoTextIn(Table(columns, a), UnitPrice) && NoTextIn(Table(columns, b), UnitPrice)
  {
    var ab := a + b;
    assert forall k | 0 <= k < |a| :: a[k] == ab[k];
    assert forall k | 0 <= k < |b| :: b[k] == ab[|a| + k];
  }

  /**
   * Lines 80-83: the rows left after dropping repeats and then the column
   * `col` are exactly the input rows without `col`; no row is added.
   */
  lemma DedupThenDropRows(t: Table, col: string)
    requires WellFormed(t) && col in t.columns
    ensures var u := DropColumn(DropDuplicateRows(t), col).value;
            |u.rows| <= |t.rows| &&
            forall row :: row in u.rows <==> exists j | 0 <= j < |t.rows| :: row == t.rows[j] - {col}
  {
    var d := DropDuplicateRows(t);
    var u := DropColumn(d, col).value;
    forall row ensures row in u.rows <==> exists j | 0 <= j < |t.rows| :: row == t.rows[j] - {col} {
      if row in u.rows {
        var k :| 0 <= k < |u.rows| && u.rows[k] == row;
        assert u.rows[k] == d.rows[k] - {col};
        assert d.rows[k] in Elements(t.rows);
      }
      if exists j | 0 <= j < |t.rows| :: row == t.rows[j] - {col} {
        var j :| 0 <= j < |t.rows| && row == t.rows[j] - {col};
        assert t.rows[j] in Elements(d.rows);
        var k :| 0 <= k < |d.rows| && d.rows[k] == t.rows[j];
        assert u.rows[k] == d.rows[k] - {col};
      }
    }
  }

  /**
   * Because repeats are dropped before the quantity column, two equal rows of
   * the result come from rows that differ only in that column.
   */
  lemma RepeatsDifferOnlyInDropped(t: Table, col: string)
    requires WellFormed(t) && col in t.columns
    ensures var d := DropDuplicateRows(t);
            var u := DropColumn(d, col).value;
            forall i, j | 0 <= i < j < |u.rows| && u.rows[i] == u.rows[j] :: d.rows[i][col] != d.rows[j][col]
  {
    var d := DropDuplicateRows(t);
    var u := DropColumn(d, col).value;
    forall i, j | 0 <= i < j < |u.rows| && u.rows[i] == u.rows[j]
      ensures d.rows[i][col] != d.rows[j][col]
    {
      assert d.rows[i] != d.rows[j];
    }
  }

  /**
   * The cleaned table can hold two equal rows: two prices of the same product
   * that differ only in the total quantity survive the duplicate drop and
   * become equal once the quantity column is dropped.
   */
  lemma RepeatAfterDrop()
    ensures var t := Table([UnitPrice, Quantity],
                           [map[UnitPrice := Number(1.0), Quantity := Number(1.0)],
                            map[UnitPrice := Number(1.0), Quantity := Number(2.0)]]);
            && WellFormed(t)
            && DropColumn(DropDuplicateRows(t), Quantity).Ok?
            && var u := DropColumn(DropDuplicateRows(t), Quantity).value;
               |u.rows| == 2 && u.rows[0] == u.rows[1]
  {
    PriceAndQuantityUntouched();
    var r0 := map[UnitPrice := Number(1.0), Quantity := Number(1.0)];
    var r1 := map[UnitPrice := Number(1.0), Quantity := Number(2.0)];
    var t := Table([UnitPrice, Quantity], [r0, r1]);
    assert r0 != r1 by { assert r0[Quantity] != r1[Quantity]; }
    DropDuplicatesOfDistinct(t.rows);
    var u := DropColumn(DropDuplicateRows(t), Quantity).value;
    assert u.rows[0] == r0 - {Quantity} && u.rows[1] == r1 - {Quantity};
    assert r0 - {Quantity} == r1 - {Quantity};
  }

  /** The cleaning block as its three stages after the in-place part. */
  lemma CleanStages(raw: Table, numText: real -> string)
    requires WellFormed(raw)
    requires Clean(raw, numText).Ok?
    ensures TypeFixed(raw, numText).Ok?
    ensures KeepPositivePrices(TypeFixed(raw, numText).value).Ok?
    ensures Quantity in TypeFixed(raw, numText).value.columns
    ensures Clean(raw, numText).value
         == DropColumn(DropDuplicateRows(KeepPositivePrices(TypeFixed(raw, numText).value).value), Quantity).value
  {
  }

  /** Lines 60-74 leave the price cells as they were. */
  lemma FixedPrices(raw: Table, numText: real -> string)
    requires WellFormed(raw)
    requires TypeFixed(raw, numText).Ok?
    ensures var fixed := TypeFixed(raw, numText).value;
            |fixed.rows| == |raw.rows| &&
            forall i | 0 <= i < |raw.rows| ::
              && fixed.rows[i] == FixRow(raw.rows[i], numText)
              && (UnitPrice in raw.rows[i] ==> fixed.rows[i][UnitPrice] == raw.rows[i][UnitPrice])
  {
    TypeFixedEffect(raw, numText);
    forall i | 0 <= i < |raw.rows| {
      FixRowCells(raw.rows[i], numText);
    }
  }

  /**
   * Where the rows of the cleaned table come from: a row is in it exactly when
   * it is a raw row with a positive price, after lines 60-74 and without the
   * quantity column. No row is added, and the columns are the raw ones but
   * the quantity.
   */
  lemma CleanedRows(raw: Table, numText: real -> string)
    requires WellFormed(raw)
    requires Clean(raw, numText).Ok?
    ensures var c := Clean(raw, numText).value;
            |c.rows| <= |raw.rows| &&
            forall row :: row in c.rows <==>
              exists i | 0 <= i < |raw.rows| ::
                HasPositivePrice(raw.rows[i]) && row == FixRow(raw.rows[i], numText) - {Quantity}
    ensures var c := Clean(raw, numText).value;
            forall col :: col in c.columns <==> col in raw.columns && col != Quantity
  {
    CleanStages(raw, numText);
    TypeFixedEffect(raw, numText);
    var fixed := TypeFixed(raw, numText).value;
    FixedPrices(raw, numText);
    KeepPositiveRows(fixed);
    var positive := KeepPositivePrices(fixed).value;
    DedupThenDropRows(positive, Quantity);
    var c := Clean(raw, numText).value;
    forall row
      ensures row in c.rows <==>
              exists i | 0 <= i < |raw.rows| ::
                HasPositivePrice(raw.rows[i]) && row == FixRow(raw.rows[i], numText) - {Quantity}
    {
      if row in c.rows {
        var j :| 0 <= j < |positive.rows| && row == positive.rows[j] - {Quantity};
        assert positive.rows[j] in positive.rows;
        var i :| 0 <= i < |fixed.rows| && HasPositivePrice(fixed.rows[i]) && fixed.rows[i] == positive.rows[j];
        assert HasPositivePrice(raw.rows[i]) && row == FixRow(raw.rows[i], numText) - {Quantity};
      }
      if exists i | 0 <= i < |raw.rows| ::
           HasPositivePrice(raw.rows[i]) && row == FixRow(raw.rows[i], numText) - {Quantity} {
        var i :| 0 <= i < |raw.rows| &&
                 HasPositivePrice(raw.rows[i]) && row == FixRow(raw.rows[i], numText) - {Quantity};
        assert fixed.rows[i] in positive.rows;
        var j :| 0 <= j < |positive.rows| && positive.rows[j] == fixed.rows[i];
        assert row == positive.rows[j] - {Quantity};
      }
    }
  }

  /**
   * The invariants of the cleaned table: no quantity column, every price a
   * number above zero, none of the twelve columns missing, the phone text.
   */
  lemma CleanedInvariants(raw: Table, numText: real -> string)
    requires WellFormed(raw)
    requires Clean(raw, numText).Ok?
    ensures var c := Clean(raw, numText).value;
            Quantity !in c.columns && forall k | 0 <= k < |c.rows| :: IsCleanRow(c.rows[k])
  {
    CleanSucceeds(raw, numText);
    CleanedRows(raw, numText);
    var c := Clean(raw, numText).value;
    forall k | 0 <= k < |c.rows| ensures IsCleanRow(c.rows[k]) {
      assert c.rows[k] in c.rows;
      var i :| 0 <= i < |raw.rows| &&
               HasPositivePrice(raw.rows[i]) && c.rows[k] == FixRow(raw.rows[i], numText) - {Quantity};
      FixedRowIsClean(raw.rows[i], numText);
    }
  }

  /** One raw row with a positive price and every column the script reads becomes a clean row. */
  lemma FixedRowIsClean(r: Row, numText: real -> string)
    requires forall c | c in RequiredColumns :: c in r
    requires HasPositivePrice(r)
    ensures IsCleanRow(FixRow(r, numText) - {Quantity})
  {
    FixRowCells(r, numText);
    PriceAndQuantityUntouched();
  }
}
