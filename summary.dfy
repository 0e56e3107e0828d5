/**
 * The four headline counts the dashboard shows above the table: product
 * categories, points of sale, products and prices.
 */
module Summary {
  import opened Selection
  import opened Frame
  import opened Cleaning

  datatype Kpis = Kpis(categories: nat, stores: nat, products: nat, prices: nat)

  /** The different cells of `col` (missing ones included). */
  function Values(t: Table, col: string): set<Cell>
    requires WellFormed(t) && col in t.columns
  {
    Elements(Column(t, col))
  }

  /** Every cell of `col` is text. */
  predicate AllText(t: Table, col: string) {
    col in t.columns && forall i | 0 <= i < |t.rows| && col in t.rows[i] :: t.rows[i][col].Text?
  }

  /** Every cell of `col` is text or missing, as in a text column of the raw price list. */
  predicate TextOrMissing(t: Table, col: string) {
    forall i | 0 <= i < |t.rows| && col in t.rows[i] :: t.rows[i][col].Text? || t.rows[i][col].Missing?
  }

  /** The (name, address) pairs of the stores, where both are text. */
  function StorePairs(t: Table): set<(string, string)> {
    set i | 0 <= i < |t.rows| && StoreName in t.rows[i] && StoreAddress in t.rows[i] &&
            t.rows[i][StoreName].Text? && t.rows[i][StoreAddress].Text? ::
      (t.rows[i][StoreName].s, t.rows[i][StoreAddress].s)
  }

  function Joined(p: (string, string)): string {
    p.0 + p.1
  }

  /** The row's name and address can be added: both text, both numbers, or one of them missing. */
  predicate StoreKeyDefined(r: Row) {
    StoreName in r && StoreAddress in r ==> Addable(r[StoreName], r[StoreAddress])
  }

  /** Every row's name and address can be added. */
  predicate StoresAddable(t: Table) {
    forall i | 0 <= i < |t.rows| :: StoreKeyDefined(t.rows[i])
  }

  /** The columns the four counts read, in the order the script reads them. */
  const SummaryColumns: seq<string> := [ProductCategory, StoreName, StoreAddress, Description, UnitPrice]

  /** Line 100, `(df[name] + df[address]).nunique()`: stores told apart by name and address run together. */
  function StoreCount(t: Table): (r: Result<nat>)
    requires WellFormed(t)
    ensures r.Ok? ==> r.value <= |t.rows|
    ensures r.Ok? <==> StoreName in t.columns && StoreAddress in t.columns && StoresAddable(t)
    ensures StoreName !in t.columns ==> r == Err(KeyError(StoreName))
    ensures StoreName in t.columns && StoreAddress !in t.columns ==> r == Err(KeyError(StoreAddress))
    ensures StoreName in t.columns && StoreAddress in t.columns && r.Err? ==> r == Err(TypeError(StoreName))
  {
    var keys :- AddColumns(t, StoreName, StoreAddress);
    Ok(NUnique(keys))
  }

  /** Lines 91-113: the four counts, in the order the script computes them. */
  function Summarize(t: Table): (r: Result<Kpis>)
    requires WellFormed(t)
    ensures r.Ok? ==> r.value.prices == |t.rows|
    ensures r.Ok? ==> r.value.categories <= r.value.prices && r.value.stores <= r.value.prices &&
                      r.value.products <= r.value.prices
    ensures r.Ok? <==> HasColumns(t, SummaryColumns) && StoresAddable(t)
    ensures ProductCategory !in t.columns ==> r == Err(KeyError(ProductCategory))
    ensures ProductCategory in t.columns && StoreName !in t.columns ==> r == Err(KeyError(StoreName))
    ensures ProductCategory in t.columns && StoreName in t.columns && StoreAddress !in t.columns ==>
              r == Err(KeyError(StoreAddress))
    ensures ProductCategory in t.columns && StoreName in t.columns && StoreAddress in t.columns ==>
              && (!StoresAddable(t) ==> r == Err(TypeError(StoreName)))
              && (StoresAddable(t) && Description !in t.columns ==> r == Err(KeyError(Description)))
              && (StoresAddable(t) && Description in t.columns && UnitPrice !in t.columns ==>
                    r == Err(KeyError(UnitPrice)))
  {
    if ProductCategory !in t.columns then Err(KeyError(ProductCategory))
    else
      var stores :- StoreCount(t);
      if Description !in t.columns then Err(KeyError(Description))
      else if UnitPrice !in t.columns then Err(KeyError(UnitPrice))
      else Ok(Kpis(NUnique(Column(t, ProductCategory)), stores, NUnique(Column(t, Description)), |t.rows|))
  }

  /** On a column none of whose cells is missing, `nunique` is the number of different cells. */
  lemma NUniqueOfColumn(t: Table, col: string)
    requires WellFormed(t) && col in t.columns
    requires forall i | 0 <= i < |t.rows| :: !t.rows[i][col].Missing?
    ensures NUnique(Column(t, col)) == |Values(t, col)|
  {
    var cells := Column(t, col);
    assert (set c | c in cells && !c.Missing?) == Elements(cells);
  }

  function TextCell(s: string): Cell {
    Text(s)
  }

  /** With every name and address text, the running-together of the columns is defined on every row. */
  lemma StoreKeysOfText(t: Table)
    requires WellFormed(t) && AllText(t, StoreName) && AllText(t, StoreAddress)
    ensures AddColumns(t, StoreName, StoreAddress).Ok?
    ensures var keys := AddColumns(t, StoreName, StoreAddress).value;
            (set c | c in keys && !c.Missing?) == Image(Image(StorePairs(t), Joined), TextCell)
  {
    var keys := AddColumns(t, StoreName, StoreAddress).value;
    var joined := Image(StorePairs(t), Joined);
    forall c | c in keys && !c.Missing? ensures c in Image(joined, TextCell) {
      var i :| 0 <= i < |keys| && keys[i] == c;
      var p := (t.rows[i][StoreName].s, t.rows[i][StoreAddress].s);
      assert p in StorePairs(t);
      assert Joined(p) in joined;
      assert c == TextCell(Joined(p));
    }
    forall c | c in Image(joined, TextCell) ensures c in keys && !c.Missing? {
      var s :| s in joined && c == TextCell(s);
      var p :| p in StorePairs(t) && Joined(p) == s;
      var i :| 0 <= i < |t.rows| && StoreName in t.rows[i] && StoreAddress in t.rows[i] &&
               t.rows[i][StoreName].Text? && t.rows[i][StoreAddress].Text? &&
               p == (t.rows[i][StoreName].s, t.rows[i][StoreAddress].s);
      assert keys[i] == c;
    }
  }

  /**
   * When every name and address is text, the store count is the number of
   * different name-and-address strings; it is at most the number of
   * different (name, address) pairs, and equal to it exactly when no two
   * different pairs run together into the same string.
   */
  lemma StoreCountByPairs(t: Table)
    requires WellFormed(t) && AllText(t, StoreName) && AllText(t, StoreAddress)
    ensures StoreCount(t).Ok?
    ensures StoreCount(t).value == |Image(StorePairs(t), Joined)|
    ensures StoreCount(t).value <= |StorePairs(t)|
    ensures StoreCount(t).value == |StorePairs(t)| <==> InjectiveOn(StorePairs(t), Joined)
  {
    StoreKeysOfText(t);
    var joined := Image(StorePairs(t), Joined);
    ImageCard(joined, TextCell);
    assert InjectiveOn(joined, TextCell);
    ImageCard(StorePairs(t), Joined);
  }

  /**
   * Two different stores whose names and addresses run together into the
   * same string are counted as one point of sale.
   */
  lemma StoreKeyCollision()
    ensures var t := Table([StoreName, StoreAddress],
                           [map[StoreName := Text("ab"), StoreAddress := Text("c")],
                            map[StoreName := Text("a"), StoreAddress := Text("bc")]]);
            WellFormed(t) && |StorePairs(t)| == 2 && StoreCount(t) == Ok(1)
  {
    assert StoreName[0] != StoreAddress[0];
    var t := Table([StoreName, StoreAddress],
                   [map[StoreName := Text("ab"), StoreAddress := Text("c")],
                    map[StoreName := Text("a"), StoreAddress := Text("bc")]]);
    assert t.rows[0][StoreName] == Text("ab") && t.rows[0][StoreAddress] == Text("c");
    assert t.rows[1][StoreName] == Text("a") && t.rows[1][StoreAddress] == Text("bc");
    assert ("ab", "c") in StorePairs(t) && ("a", "bc") in StorePairs(t);
    assert StorePairs(t) == {("ab", "c"), ("a", "bc")};
    assert "ab" != "a";
    StoreCountByPairs(t);
    assert Image(StorePairs(t), Joined) == {"abc"} by {
      assert Joined(("ab", "c")) == "abc" == Joined(("a", "bc"));
    }
  }

  lemma SummaryColumnsFilled()
    ensures ProductCategory in NullFilledColumns && Description in NullFilledColumns
    ensures StoreName in NullFilledColumns && StoreAddress in NullFilledColumns
  {
  }

  /** A store name or address that was text or missing is text after lines 60-74. */
  lemma FixedStoreCells(r: Row, numText: real -> string)
    requires StoreName in r && (r[StoreName].Text? || r[StoreName].Missing?)
    requires StoreAddress in r && (r[StoreAddress].Text? || r[StoreAddress].Missing?)
    ensures var f := FixRow(r, numText) - {Quantity};
            StoreName in f && f[StoreName].Text? && StoreAddress in f && f[StoreAddress].Text?
  {
    FixRowCells(r, numText);
    SummaryColumnsFilled();
    assert StoreName != Quantity && StoreAddress != Quantity;
  }

  /** In a cleaned table whose raw names and addresses were text or missing, they are all text. */
  lemma CleanedStoresAreText(raw: Table, numText: real -> string)
    requires WellFormed(raw) && Clean(raw, numText).Ok?
    requires TextOrMissing(raw, StoreName) && TextOrMissing(raw, StoreAddress)
    ensures var c := Clean(raw, numText).value;
            AllText(c, StoreName) && AllText(c, StoreAddress)
  {
    CleanSucceeds(raw, numText);
    CleanedRows(raw, numText);
    SummaryColumnsFilled();
    var c := Clean(raw, numText).value;
    assert StoreName in raw.columns && StoreAddress in raw.columns;
    assert StoreName != Quantity && StoreAddress != Quantity;
    forall k | 0 <= k < |c.rows|
      ensures StoreName in c.rows[k] && c.rows[k][StoreName].Text?
      ensures StoreAddress in c.rows[k] && c.rows[k][StoreAddress].Text?
    {
      assert c.rows[k] in c.rows;
      var i :| 0 <= i < |raw.rows| &&
               HasPositivePrice(raw.rows[i]) && c.rows[k] == FixRow(raw.rows[i], numText) - {Quantity};
      FixedStoreCells(raw.rows[i], numText);
    }
  }

  /** Dropping the quantity cell does not change whether name and address can be added. */
  lemma StoreKeyWithoutQuantity(r: Row)
    ensures StoreKeyDefined(r - {Quantity}) <==> StoreKeyDefined(r)
  {
    assert StoreName != Quantity && StoreAddress != Quantity;
  }

  /**
   * The names and addresses of a cleaned table can all be added exactly when
   * they can in every raw row with a positive price after lines 60-74.
   */
  lemma CleanedStoreKeys(raw: Table, numText: real -> string)
    requires WellFormed(raw) && Clean(raw, numText).Ok?
    ensures StoresAddable(Clean(raw, numText).value) <==>
              forall i | 0 <= i < |raw.rows| && HasPositivePrice(raw.rows[i]) ::
                StoreKeyDefined(FixRow(raw.rows[i], numText))
  {
    CleanedRows(raw, numText);
    var c := Clean(raw, numText).value;
    if StoresAddable(c) {
      forall i | 0 <= i < |raw.rows| && HasPositivePrice(raw.rows[i])
        ensures StoreKeyDefined(FixRow(raw.rows[i], numText))
      {
        var row := FixRow(raw.rows[i], numText) - {Quantity};
        assert row in c.rows;
        var k :| 0 <= k < |c.rows| && c.rows[k] == row;
        StoreKeyWithoutQuantity(FixRow(raw.rows[i], numText));
      }
    }
    if forall i | 0 <= i < |raw.rows| && HasPositivePrice(raw.rows[i]) :: StoreKeyDefined(FixRow(raw.rows[i], numText)) {
      forall k | 0 <= k < |c.rows| ensures StoreKeyDefined(c.rows[k]) {
        assert c.rows[k] in c.rows;
        var i :| 0 <= i < |raw.rows| &&
                 HasPositivePrice(raw.rows[i]) && c.rows[k] == FixRow(raw.rows[i], numText) - {Quantity};
        StoreKeyWithoutQuantity(FixRow(raw.rows[i], numText));
      }
    }
  }

  /**
   * Whenever the counts of a cleaned table exist, the price count is the
   * number of rows and the category and product counts are the numbers of
   * different values in their columns (none of which is missing).
   */
  lemma CountsOfCleaned(raw: Table, numText: real -> string)
    requires WellFormed(raw) && Clean(raw, numText).Ok? && Summarize(Clean(raw, numText).value).Ok?
    ensures var c := Clean(raw, numText).value;
            && ProductCategory in c.columns && Description in c.columns
            && Summarize(c).value.prices == |c.rows|
            && Summarize(c).value.categories == |Values(c, ProductCategory)|
            && Summarize(c).value.products == |Values(c, Description)|
  {
    CleanedInvariants(raw, numText);
    SummaryColumnsFilled();
    var c := Clean(raw, numText).value;
    assert ProductCategory in c.columns && Description in c.columns;
    forall k | 0 <= k < |c.rows|
      ensures !c.rows[k][ProductCategory].Missing? && !c.rows[k][Description].Missing?
    {
      assert IsCleanRow(c.rows[k]);
    }
    NUniqueOfColumn(c, ProductCategory);
    NUniqueOfColumn(c, Description);
  }

  /**
   * On a cleaned table whose raw names and addresses were text or missing,
   * the counts exist, with the values CountsOfCleaned gives, and the store
   * count is the number of different name-and-address strings, at most the
   * number of (name, address) pairs.
   */
  lemma SummaryOfCleaned(raw: Table, numText: real -> string)
    requires WellFormed(raw) && Clean(raw, numText).Ok?
    requires TextOrMissing(raw, StoreName) && TextOrMissing(raw, StoreAddress)
    ensures var c := Clean(raw, numText).value;
            && Summarize(c).Ok?
            && Summarize(c).value.prices == |c.rows|
            && Summarize(c).value.categories == |Values(c, ProductCategory)|
            && Summarize(c).value.products == |Values(c, Description)|
            && Summarize(c).value.stores == |Image(StorePairs(c), Joined)| <= |StorePairs(c)|
  {
    CleanSucceeds(raw, numText);
    CleanedRows(raw, numText);
    CleanedStoresAreText(raw, numText);
    SummaryColumnsFilled();
    var c := Clean(raw, numText).value;
    assert ProductCategory in c.columns && Description in c.columns && UnitPrice in c.columns;
    StoreCountByPairs(c);
    CountsOfCleaned(raw, numText);
  }
}
