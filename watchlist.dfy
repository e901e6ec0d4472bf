/**
 * The watchlist table and the two routes that change it. `add_stock`
 * upper-cases the ticker, accepts it only when the quote service reports the
 * same symbol, fills in a company name, and inserts a row; the table's
 * UNIQUE(user_id, stock_ticker) constraint turns a second insert of the same
 * pair into a swallowed IntegrityError. `remove_stock` deletes the user's row
 * for the ticker as given.
 */
module Watchlist {
  import opened Wrappers
  import opened PyStr

  /** A row of the `watchlist` table (the autoincrement id is left out). */
  datatype Row = Row(userId: int, ticker: string, companyName: string, dateAdded: int)

  predicate HasKey(row: Row, userId: int, ticker: string) {
    row.userId == userId && row.ticker == ticker
  }

  predicate SameKey(a: Row, b: Row) {
    a.userId == b.userId && a.ticker == b.ticker
  }

  predicate Contains(rows: seq<Row>, userId: int, ticker: string) {
    exists i :: 0 <= i < |rows| && HasKey(rows[i], userId, ticker)
  }

  /** UNIQUE(user_id, stock_ticker): no two rows share a key. */
  predicate UniqueKeys(rows: seq<Row>) {
    forall i, j :: 0 <= i < j < |rows| ==> !SameKey(rows[i], rows[j])
  }

  /** The row for (user, ticker), as `SELECT ... WHERE user_id = ? AND stock_ticker = ?` finds it. */
  function Lookup(rows: seq<Row>, userId: int, ticker: string): (r: Option<Row>)
    ensures r.None? <==> !Contains(rows, userId, ticker)
    ensures r.Some? ==> r.value in rows && HasKey(r.value, userId, ticker)
  {
    if rows == [] then None
    else if HasKey(rows[0], userId, ticker) then Some(rows[0])
    else
      var r := Lookup(rows[1..], userId, ticker);
      assert Contains(rows[1..], userId, ticker) ==> Contains(rows, userId, ticker) by {
        if Contains(rows[1..], userId, ticker) {
          var i :| 0 <= i < |rows[1..]| && HasKey(rows[1..][i], userId, ticker);
          assert HasKey(rows[i + 1], userId, ticker);
        }
      }
      r
  }

  /** `INSERT` under the uniqueness constraint: a row whose key is present is dropped. */
  function InsertRow(rows: seq<Row>, row: Row): (r: seq<Row>)
    ensures UniqueKeys(rows) ==> UniqueKeys(r)
    ensures Contains(r, row.userId, row.ticker)
    ensures Contains(rows, row.userId, row.ticker) ==> r == rows
  {
    if Contains(rows, row.userId, row.ticker) then rows
    else
      var r := rows + [row];
      assert HasKey(r[|rows|], row.userId, row.ticker);
      r
  }

  /** `DELETE ... WHERE user_id = ? AND stock_ticker = ?`: the other rows, in their order. */
  function DeleteRows(rows: seq<Row>, userId: int, ticker: string): (r: seq<Row>)
    ensures !Contains(r, userId, ticker)
    ensures forall x :: x in r <==> x in rows && !HasKey(x, userId, ticker)
    ensures UniqueKeys(rows) ==> UniqueKeys(r)
  {
    if rows == [] then []
    else
      var rest := DeleteRows(rows[1..], userId, ticker);
      if HasKey(rows[0], userId, ticker) then
        UniqueTail(rows);
        rest
      else
        UniqueTail(rows);
        UniqueCons(rows[0], rest);
        [rows[0]] + rest
  }

  lemma UniqueTail(rows: seq<Row>)
    requires rows != []
    ensures UniqueKeys(rows) ==> UniqueKeys(rows[1..]) && forall y :: y in rows[1..] ==> !SameKey(rows[0], y)
  {
    if UniqueKeys(rows) {
      forall y | y in rows[1..] ensures !SameKey(rows[0], y) {
        var j :| 0 <= j < |rows[1..]| && rows[1..][j] == y;
        assert rows[j + 1] == y;
      }
      forall i, j | 0 <= i < j < |rows[1..]| ensures !SameKey(rows[1..][i], rows[1..][j]) {
        assert rows[1..][i] == rows[i + 1] && rows[1..][j] == rows[j + 1];
      }
    }
  }

  lemma UniqueCons(x: Row, rest: seq<Row>)
    ensures UniqueKeys(rest) && (forall y :: y in rest ==> !SameKey(x, y)) ==> UniqueKeys([x] + rest)
  {
    if UniqueKeys(rest) && (forall y :: y in rest ==> !SameKey(x, y)) {
      var r := [x] + rest;
      forall i, j | 0 <= i < j < |r| ensures !SameKey(r[i], r[j]) {
        if i > 0 { assert r[i] == rest[i - 1] && r[j] == rest[j - 1]; }
        else { assert r[j] in rest; }
      }
    }
  }

  // ---------------------------------------------------------------------------
  // Validation and the company-name fallback of `add_stock`.

  /** The `longName` entry of the info: missing, JSON null, or a string. */
  datatype LongName = NoLongName | NullLongName | LongName(name: string)

  /**
   * What the quote service says about a ticker: nothing (it raised), or its
   * info fields; `symbol` None is a missing or null symbol.
   */
  datatype TickerInfo = InfoUnavailable | Info(symbol: Option<string>, longName: LongName)

  datatype AddError = InvalidTicker(ticker: string) | CouldNotValidate(ticker: string)

  /** An accepted ticker and the name to store; `companyName` None is Python's None. */
  datatype Validated = Validated(ticker: string, companyName: Option<string>)

  function ErrorMessage(e: AddError): string {
    match e
    case InvalidTicker(t) => "Invalid ticker: " + t + ". Please enter a valid stock ticker."
    case CouldNotValidate(t) => "Could not validate ticker: " + t
  }

  /**
   * The name to store with the row: the form's name, else `longName` when the
   * key is present (None when its value is null), else the ticker.
   */
  function CompanyName(formName: string, longName: LongName, ticker: string): (name: Option<string>)
    ensures formName != "" ==> name == Some(formName)
    ensures formName == "" && longName.LongName? ==> name == Some(longName.name)
    ensures formName == "" && longName.NullLongName? ==> name == None
    ensures formName == "" && longName.NoLongName? ==> name == Some(ticker)
  {
    if formName == "" && !longName.NoLongName? then
      (if longName.LongName? then Some(longName.name) else None)
    else if formName == "" then Some(ticker)
    else Some(formName)
  }

  /** The form ticker is upper-cased; it is accepted exactly when the info's symbol is that upper-cased ticker. */
  function ValidateTicker(formTicker: string, formName: string, info: TickerInfo): (r: Result<Validated, AddError>)
    ensures r.Ok? <==> info.Info? && info.symbol == Some(Upper(formTicker))
    ensures r.Ok? ==> r.value == Validated(Upper(formTicker), CompanyName(formName, info.longName, Upper(formTicker)))
    ensures info.InfoUnavailable? ==> r == Err(CouldNotValidate(Upper(formTicker)))
    ensures info.Info? && r.Err? ==> r == Err(InvalidTicker(Upper(formTicker)))
  {
    var ticker := Upper(formTicker);
    match info
    case InfoUnavailable => Err(CouldNotValidate(ticker))
    case Info(symbol, longName) =>
      if symbol.None? || symbol.value != ticker then Err(InvalidTicker(ticker))
      else Ok(Validated(ticker, CompanyName(formName, longName, ticker)))
  }

  /** A stored name is empty only when no name was typed and the quote service's `longName` is empty. */
  lemma EmptyNameOnlyFromLongName(formName: string, longName: LongName, ticker: string)
    requires ticker != ""
    ensures CompanyName(formName, longName, ticker) == Some("") <==> formName == "" && longName == LongName("")
  {
  }

  /** There is no name to store exactly when no name was typed and `longName` is present with a null value. */
  lemma NoNameOnlyFromNull(formName: string, longName: LongName, ticker: string)
    ensures CompanyName(formName, longName, ticker).None? <==> formName == "" && longName.NullLongName?
  {
  }

  // ---------------------------------------------------------------------------
  // Properties of the table operations.

  lemma {:induction false} LookupAppend(rows: seq<Row>, row: Row, userId: int, ticker: string)
    ensures Lookup(rows + [row], userId, ticker) ==
      if Contains(rows, userId, ticker) then Lookup(rows, userId, ticker)
      else if HasKey(row, userId, ticker) then Some(row) else None
  {
    if rows == [] {
      assert rows + [row] == [row];
    } else {
      assert (rows + [row])[1..] == rows[1..] + [row];
      LookupAppend(rows[1..], row, userId, ticker);
    }
  }

  /** Adding a (user, ticker) pair already present leaves the table as it is, so the first company name stays. */
  lemma InsertExistingKeepsFirst(rows: seq<Row>, row: Row)
    requires Contains(rows, row.userId, row.ticker)
    ensures InsertRow(rows, row) == rows
    ensures Lookup(InsertRow(rows, row), row.userId, row.ticker) == Lookup(rows, row.userId, row.ticker)
  {
  }

  /** Adding a new pair makes it findable with the given name, and every other pair reads as before. */
  lemma InsertNew(rows: seq<Row>, row: Row, userId: int, ticker: string)
    requires !Contains(rows, row.userId, row.ticker)
    ensures Lookup(InsertRow(rows, row), row.userId, row.ticker) == Some(row)
    ensures !HasKey(row, userId, ticker) ==> Lookup(InsertRow(rows, row), userId, ticker) == Lookup(rows, userId, ticker)
  {
    LookupAppend(rows, row, row.userId, row.ticker);
    LookupAppend(rows, row, userId, ticker);
  }

  /** Deleting a pair removes that row only: every other user's rows and tickers read as before. */
  lemma {:induction false} DeleteOnlyThatRow(rows: seq<Row>, userId: int, ticker: string, u: int, t: string)
    ensures Lookup(DeleteRows(rows, userId, ticker), userId, ticker) == None
    ensures (u, t) != (userId, ticker) ==> Lookup(DeleteRows(rows, userId, ticker), u, t) == Lookup(rows, u, t)
  {
    if rows != [] {
      DeleteOnlyThatRow(rows[1..], userId, ticker, u, t);
    }
  }

  lemma {:induction false} DeleteAbsent(rows: seq<Row>, userId: int, ticker: string)
    requires !Contains(rows, userId, ticker)
    ensures DeleteRows(rows, userId, ticker) == rows
  {
    if rows != [] {
      assert !HasKey(rows[0], userId, ticker);
      DeleteAbsent(rows[1..], userId, ticker);
    }
  }

  lemma {:induction false} DeleteAppend(rows: seq<Row>, row: Row, userId: int, ticker: string)
    ensures DeleteRows(rows + [row], userId, ticker) ==
      DeleteRows(rows, userId, ticker) + (if HasKey(row, userId, ticker) then [] else [row])
  {
    if rows == [] {
      assert rows + [row] == [row];
    } else {
      assert (rows + [row])[1..] == rows[1..] + [row];
      DeleteAppend(rows[1..], row, userId, ticker);
    }
  }

  /** Under the uniqueness constraint a delete of a present pair removes exactly one row. */
  lemma {:induction false} DeleteRemovesOne(rows: seq<Row>, userId: int, ticker: string)
    requires UniqueKeys(rows) && Contains(rows, userId, ticker)
    ensures |DeleteRows(rows, userId, ticker)| == |rows| - 1
  {
    UniqueTail(rows);
    if HasKey(rows[0], userId, ticker) {
      forall i | 0 <= i < |rows[1..]| ensures !HasKey(rows[1..][i], userId, ticker) {
        assert rows[1..][i] in rows[1..];
      }
      DeleteAbsent(rows[1..], userId, ticker);
    } else {
      var i :| 0 <= i < |rows| && HasKey(rows[i], userId, ticker);
      assert HasKey(rows[1..][i - 1], userId, ticker);
      DeleteRemovesOne(rows[1..], userId, ticker);
    }
  }

  /** Removing a pair just added gives back the table it was added to. */
  lemma RemoveUndoesAdd(rows: seq<Row>, row: Row)
    requires !Contains(rows, row.userId, row.ticker)
    ensures DeleteRows(InsertRow(rows, row), row.userId, row.ticker) == rows
  {
    DeleteAppend(rows, row, row.userId, row.ticker);
    DeleteAbsent(rows, row.userId, row.ticker);
    assert rows + [] == rows;
  }

  // ---------------------------------------------------------------------------
  // The table as the routes change it.

  class WatchlistTable {
    var rows: seq<Row>

    ghost predicate Valid()
      reads this
    {
      UniqueKeys(rows)
    }

    constructor ()
      ensures Valid() && rows == []
    {
      rows := [];
    }

    /**
     * `INSERT INTO watchlist ...` with the IntegrityError swallowed: a null
     * company name (NOT NULL) or a present key (UNIQUE) leaves the table as it
     * is; `inserted` says whether a row went in.
     */
    method Insert(userId: int, ticker: string, companyName: Option<string>, now: int) returns (inserted: bool)
      requires Valid()
      modifies this
      ensures Valid()
      ensures inserted <==> companyName.Some? && !Contains(old(rows), userId, ticker)
      ensures companyName.None? ==> rows == old(rows)
      ensures companyName.Some? ==> rows == InsertRow(old(rows), Row(userId, ticker, companyName.value, now))
    {
      if companyName.None? {
        return false;
      }
      inserted := !Contains(rows, userId, ticker);
      rows := InsertRow(rows, Row(userId, ticker, companyName.value, now));
    }

    /** `remove_stock`: the ticker is used as given, without upper-casing. */
    method Remove(userId: int, ticker: string)
      requires Valid()
      modifies this
      ensures Valid()
      ensures rows == DeleteRows(old(rows), userId, ticker)
      ensures Contains(old(rows), userId, ticker) ==> |rows| == |old(rows)| - 1
      ensures !Contains(old(rows), userId, ticker) ==> rows == old(rows)
    {
      if Contains(rows, userId, ticker) {
        DeleteRemovesOne(rows, userId, ticker);
      } else {
        DeleteAbsent(rows, userId, ticker);
      }
      rows := DeleteRows(rows, userId, ticker);
    }

    /**
     * `add_stock`: validate, then insert. A rejected ticker leaves the table
     * alone and reports why; an accepted one is inserted under its upper-case
     * form, a duplicate or a null name being dropped.
     */
    method AddStock(userId: int, formTicker: string, formName: string, info: TickerInfo, now: int)
      returns (outcome: Result<bool, AddError>)
      requires Valid()
      modifies this
      ensures Valid()
      ensures outcome.Err? ==> ValidateTicker(formTicker, formName, info) == Err(outcome.error) && rows == old(rows)
      ensures outcome.Ok? ==>
        && ValidateTicker(formTicker, formName, info).Ok?
        && var v := ValidateTicker(formTicker, formName, info).value;
        && outcome.value == (v.companyName.Some? && !Contains(old(rows), userId, v.ticker))
        && (v.companyName.None? ==> rows == old(rows))
        && (v.companyName.Some? ==> rows == InsertRow(old(rows), Row(userId, v.ticker, v.companyName.value, now)))
    {
      var validated := ValidateTicker(formTicker, formName, info);
      if validated.Err? {
        return Err(validated.error);
      }
      var inserted := Insert(userId, validated.value.ticker, validated.value.companyName, now);
      outcome := Ok(inserted);
    }
  }
}
