/**
 * The dashboard script: the table it loads is updated in place by the null
 * fills and the phone conversion (lines 60-74), then rebound to new tables by
 * the price filter, the duplicate drop and the column drop (lines 77-83), and
 * summarised into four counts (lines 91-113).
 */
module Dashboard {
  import opened Frame
  import opened Cleaning
  import opened Summary

  /** The script's `df` while its columns are being replaced in place. */
  class DataFrame {
    var columns: seq<string>
    var rows: seq<Row>

    ghost predicate Valid()
      reads this
    {
      WellFormed(Table(columns, rows))
    }

    /** The table the frame currently holds. */
    function Value(): Table
      reads this
    {
      Table(columns, rows)
    }

    constructor (t: Table)
      requires WellFormed(t)
      ensures Valid() && Value() == t
    {
      columns := t.columns;
      rows := t.rows;
    }

    /**
     * `df[col] = df[col].<op>()`: every cell of `col` is replaced by `op` of
     * itself and nothing else changes; an absent column is a KeyError that
     * leaves the frame as it was.
     */
    method SetColumn(col: string, op: CellOp) returns (outcome: Outcome)
      requires Valid()
      modifies this
      ensures Valid()
      ensures outcome.Pass? <==> col in old(columns)
      ensures outcome.Fail? ==> outcome.error == KeyError(col) && Value() == old(Value())
      ensures outcome.Pass? ==> Value() == MapColumn(old(Value()), col, op).value
    {
      if col !in columns {
        return Fail(KeyError(col));
      }
      var current := rows;
      rows := seq(|current|, i requires 0 <= i < |current| => MapCell(current[i], col, op));
      outcome := Pass;
    }
  }

  /**
   * Lines 60-71: fill the missing cells of the twelve columns with "N/A",
   * one column after the other; the first absent column stops the script.
   */
  method FillNullColumns(df: DataFrame) returns (outcome: Outcome)
    requires df.Valid()
    modifies df
    ensures df.Valid()
    ensures outcome.Pass? <==> FillNulls(old(df.Value()), NullFilledColumns).Ok?
    ensures outcome.Pass? ==> df.Value() == FillNulls(old(df.Value()), NullFilledColumns).value
    ensures outcome.Fail? ==> outcome.error == FillNulls(old(df.Value()), NullFilledColumns).error
  {
    for k := 0 to |NullFilledColumns|
      invariant df.Valid()
      invariant FillNulls(old(df.Value()), NullFilledColumns) == FillNulls(df.Value(), NullFilledColumns[k..])
    {
      assert NullFilledColumns[k..][0] == NullFilledColumns[k];
      assert NullFilledColumns[k..][1..] == NullFilledColumns[k + 1..];
      outcome := df.SetColumn(NullFilledColumns[k], FillNa(Sentinel));
      if outcome.Fail? {
        return;
      }
    }
    outcome := Pass;
  }

  /** What the page shows: the cleaned table and the four counts. */
  datatype Page = Page(table: Table, kpis: Kpis)

  /** Lines 57-113 as one computation: clean the loaded table, then count. */
  function ShowPage(raw: Table, numText: real -> string): Result<Page>
    requires WellFormed(raw)
  {
    var cleaned :- Clean(raw, numText);
    var kpis :- Summarize(cleaned);
    Ok(Page(cleaned, kpis))
  }

  /**
   * The script from the loaded table to the page: the in-place fills and
   * conversion on a frame, the three rebinding steps, and the counts. Any
   * error stops it, as an uncaught exception stops the page.
   */
  method RunDashboard(raw: Table, numText: real -> string) returns (page: Result<Page>)
    requires WellFormed(raw)
    ensures page == ShowPage(raw, numText)
  {
    var df := new DataFrame(raw);
    var outcome := FillNullColumns(df);
    if outcome.Fail? {
      return Err(outcome.error);
    }
    outcome := df.SetColumn(Phone, AsStr(numText));
    if outcome.Fail? {
      return Err(outcome.error);
    }
    assert df.Value() == TypeFixed(raw, numText).value;
    var positive := KeepPositivePrices(df.Value());
    if positive.Err? {
      return Err(positive.error);
    }
    var unique := DropDuplicateRows(positive.value);
    var cleaned := DropColumn(unique, Quantity);
    if cleaned.Err? {
      return Err(cleaned.error);
    }
    var kpis := Summarize(cleaned.value);
    if kpis.Err? {
      return Err(kpis.error);
    }
    page := Ok(Page(cleaned.value, kpis.value));
  }

  /**
   * A price list with every column the script reads, numeric prices, and
   * text names and addresses always yields a page, whose price count is the
   * number of cleaned rows and whose other counts do not exceed it.
   */
  lemma PageShown(raw: Table, numText: real -> string)
    requires WellFormed(raw)
    requires HasColumns(raw, RequiredColumns) && NoTextIn(raw, UnitPrice)
    requires TextOrMissing(raw, StoreName) && TextOrMissing(raw, StoreAddress)
    ensures ShowPage(raw, numText).Ok?
    ensures var p := ShowPage(raw, numText).value;
            && p.kpis.prices == |p.table.rows| <= |raw.rows|
            && p.kpis.categories <= p.kpis.prices
            && p.kpis.products <= p.kpis.prices
            && p.kpis.stores <= |StorePairs(p.table)|
  {
    CleanSucceeds(raw, numText);
    CleanedRows(raw, numText);
    SummaryOfCleaned(raw, numText);
  }

  /**
   * The page appears exactly when the cleaning block succeeds and, in every
   * raw row with a positive price, the filled name and address can be added.
   * Otherwise the error is the cleaning block's, or the TypeError of line 100.
   */
  lemma PageShownExactly(raw: Table, numText: real -> string)
    requires WellFormed(raw)
    ensures ShowPage(raw, numText).Ok? <==>
              && HasColumns(raw, RequiredColumns) && NoTextIn(raw, UnitPrice)
              && forall i | 0 <= i < |raw.rows| && HasPositivePrice(raw.rows[i]) ::
                   StoreKeyDefined(FixRow(raw.rows[i], numText))
    ensures ShowPage(raw, numText).Err? ==>
              || (Clean(raw, numText).Err? && ShowPage(raw, numText).error == Clean(raw, numText).error)
              || (Clean(raw, numText).Ok? && ShowPage(raw, numText).error == TypeError(StoreName))
  {
    CleanSucceeds(raw, numText);
    if Clean(raw, numText).Ok? {
      CleanedRows(raw, numText);
      CleanedStoreKeys(raw, numText);
      SummaryColumnsFilled();
      PriceAndQuantityUntouched();
      var c := Clean(raw, numText).value;
      assert forall col | col in SummaryColumns :: col in RequiredColumns && col != Quantity;
      assert HasColumns(c, SummaryColumns);
    }
  }
}
