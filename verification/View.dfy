/**
 * The heat map view: the stored rows are read back (the first row is the
 * sheet's header), every selection field is decoded into tokens, the tokens
 * are tallied, the tally is written into a zero hours-by-days table, and the
 * view shows that table, the number of respondents and the three most chosen
 * labels. Any exception on the way turns the whole view into an error
 * message.
 */
module View {
  import opened Text
  import opened Catalog
  import opened Codec
  import opened Tally
  import opened Heatmap
  import opened Grid
  import opened Record

  /** Why the view shows an error message instead of the heat map. */
  datatype Failure =
    | ColumnMismatch   // the frame cannot take the rows under its four column names
    | UnpackFailed     // a tallied label has two or more `-`

  datatype Page =
    | Failed(failure: Failure)
    | Shown(heat: seq<seq<int>>, respondents: nat, top: seq<Entry>)

  /** The frame's four column names: timestamp, name, feedback, selection. */
  const Columns: nat := 4

  /** `data[1:]`: every stored row but the header. */
  function DataRows(rows: seq<seq<string>>): (data: seq<seq<string>>)
    ensures |data| == if rows == [] then 0 else |rows| - 1
    ensures rows != [] ==> rows == [rows[0]] + data
  {
    if rows == [] then [] else rows[1..]
  }

  /** The width pandas gives a frame built from rows: its longest row's. */
  function Width(data: seq<seq<string>>): nat {
    if data == [] then 0
    else
      var w := Width(data[..|data| - 1]);
      if |data[|data| - 1]| > w then |data[|data| - 1]| else w
  }

  /** No row is wider than the frame, and a row as wide exists. */
  lemma {:induction false} WidthIsLongest(data: seq<seq<string>>)
    ensures forall i :: 0 <= i < |data| ==> |data[i]| <= Width(data)
    ensures data != [] ==> exists i :: 0 <= i < |data| && |data[i]| == Width(data)
  {
    if data != [] {
      var init := data[..|data| - 1];
      WidthIsLongest(init);
      forall i | 0 <= i < |init| ensures init[i] == data[i] { }
      if init == [] {
        assert |data[0]| == Width(data);
      } else if |data[|data| - 1]| <= Width(init) {
        var k :| 0 <= k < |init| && |init[k]| == Width(init);
        assert |data[k]| == Width(data);
      }
    }
  }

  /** `pd.DataFrame(rows, columns=[four names])` accepts the rows exactly when
      the frame they make is four wide (or there are none): no row is longer
      than four and some row is exactly four. Shorter rows are padded with
      missing values. */
  predicate FitsColumns(data: seq<seq<string>>): (fits: bool)
    ensures fits <==>
      && (forall i :: 0 <= i < |data| ==> |data[i]| <= Columns)
      && (data == [] || exists i :: 0 <= i < |data| && |data[i]| == Columns)
  {
    WidthIsLongest(data);
    data == [] || Width(data) == Columns
  }

  /** The tokens one row contributes: its selection field split on commas,
      each piece cleaned, or none when the field is missing (`dropna`). */
  function RowTokens(row: seq<string>): (tokens: seq<string>)
    ensures |row| < Columns ==> tokens == []
    ensures |row| == Columns ==> |tokens| == |SplitOn(row[Columns - 1], ',')|
    ensures |row| == Columns ==> forall i :: 0 <= i < |tokens| ==> tokens[i] == Clean(SplitOn(row[Columns - 1], ',')[i])
  {
    if |row| == Columns then
      DecodeCommaPieces(row[Columns - 1]);
      Decode(row[Columns - 1])
    else []
  }

  /** The exploded, cleaned selection column: every token comes from some
      data row, and every data row's tokens are all there. */
  function Tokens(data: seq<seq<string>>): (tokens: seq<string>)
    ensures forall t :: t in tokens <==> exists i :: 0 <= i < |data| && t in RowTokens(data[i])
  {
    if data == [] then []
    else
      var init := data[..|data| - 1];
      var before := Tokens(init);
      var last := RowTokens(data[|data| - 1]);
      ExplodeStep(data, RowTokens, init, before, last, before + last);
      before + last
  }

  /** Exploding one more row adds exactly that row's items. */
  lemma ExplodeStep(data: seq<seq<string>>, f: seq<string> -> seq<string>, init: seq<seq<string>>,
                    before: seq<string>, last: seq<string>, tokens: seq<string>)
    requires data != [] && init == data[..|data| - 1]
    requires forall t :: t in before <==> exists i :: 0 <= i < |init| && t in f(init[i])
    requires last == f(data[|data| - 1]) && tokens == before + last
    ensures forall t :: t in tokens <==> exists i :: 0 <= i < |data| && t in f(data[i])
  {
    forall t | t in tokens ensures exists i :: 0 <= i < |data| && t in f(data[i]) {
      if t in before {
        var i :| 0 <= i < |init| && t in f(init[i]);
        assert init[i] == data[i];
      } else {
        assert t in f(data[|data| - 1]);
      }
    }
    forall t, i | 0 <= i < |data| && t in f(data[i]) ensures t in tokens {
      if i < |init| {
        assert init[i] == data[i];
      }
    }
  }

  lemma TokensAppend(data: seq<seq<string>>, row: seq<string>)
    ensures Tokens(data + [row]) == Tokens(data) + RowTokens(row)
  {
    assert (data + [row])[..|data|] == data;
  }

  /** The drawn table: a zero hours-by-days table filled from the tally,
      read out row by row; nothing when the fill fails. */
  method DrawTable(counts: seq<Entry>) returns (ok: bool, table: seq<seq<int>>)
    ensures ok <==> FirstSplitFailure(counts) == |counts|
    ensures ok ==> |table| == |Hours| && forall h :: 0 <= h < |Hours| ==> |table[h]| == |Days|
    ensures ok ==> forall h, d :: 0 <= h < |Hours| && 0 <= d < |Days| ==>
      table[h][d] == LastValue(counts, CellKey(h, d), 0)
  {
    var heat := new int[|Hours|, |Days|]((h, d) => 0);
    ok := FillMatrix(heat, counts);
    if !ok {
      return ok, [];
    }
    assert counts[..FirstSplitFailure(counts)] == counts;
    table := seq(|Hours|, h requires 0 <= h < |Hours| reads heat =>
      seq(|Days|, d requires 0 <= d < |Days| reads heat => heat[h, d]));
  }

  /** A tally of the tokens written into a zero table leaves every cell with
      its key's count. */
  lemma TallyCells(tokens: seq<string>, counts: seq<Entry>)
    requires IsValueCounts(tokens, counts)
    ensures forall h, d :: 0 <= h < |Hours| && 0 <= d < |Days| ==>
      LastValue(counts, CellKey(h, d), 0) == Count(tokens, CellKey(h, d))
  {
    forall h, d | 0 <= h < |Hours| && 0 <= d < |Days|
      ensures LastValue(counts, CellKey(h, d), 0) == Count(tokens, CellKey(h, d))
    {
      ValueCountsFill(tokens, counts, h, d);
      CountMatrixAt(tokens, h, d);
    }
  }

  /**
   * The whole view. It fails with a column mismatch exactly when the data rows
   * do not fit the four columns, and otherwise fails exactly when some token
   * has two or more `-`. When it shows the heat map, every (hour, day) cell
   * holds the number of tokens equal to that cell's key, the respondent count
   * is the number of data rows, however many slots each holds, and the top
   * list is a top-three ranking of the tally.
   */
  method Render(rows: seq<seq<string>>) returns (page: Page)
    ensures page == Failed(ColumnMismatch) <==> !FitsColumns(DataRows(rows))
    ensures page == Failed(UnpackFailed) <==>
      FitsColumns(DataRows(rows)) && exists t :: t in Tokens(DataRows(rows)) && DashCount(t) >= 2
    ensures page.Shown? ==>
      && |page.heat| == |Hours|
      && (forall h :: 0 <= h < |Hours| ==> |page.heat[h]| == |Days|)
      && (forall h, d :: 0 <= h < |Hours| && 0 <= d < |Days| ==>
            page.heat[h][d] == Count(Tokens(DataRows(rows)), CellKey(h, d)))
      && page.respondents == |DataRows(rows)|
      && IsTop(Tokens(DataRows(rows)), page.top, TopCount)
  {
    var data := DataRows(rows);
    if !FitsColumns(data) {
      return Failed(ColumnMismatch);
    }
    var tokens := Tokens(data);
    var counts := ValueCounts(tokens);
    var filled, table := DrawTable(counts);
    SplitFailureIffToken(tokens, counts);
    if !filled {
      return Failed(UnpackFailed);
    }
    TallyCells(tokens, counts);
    TopOfValueCounts(tokens, counts, TopCount);
    return Shown(table, |data|, Top(counts, TopCount));
  }

  /** The rows after storing a submission under an existing header. */
  function Stored(rows: seq<seq<string>>, timestamp: string, name: string, feedback: string,
                  selected: seq<string>): seq<seq<string>>
    requires selected != []
  {
    Append(rows, Submit(timestamp, name, feedback, selected).record)
  }

  /** Appending a row below the header appends a data row. */
  lemma DataRowsAppend(rows: seq<seq<string>>, row: seq<string>)
    requires rows != []
    ensures DataRows(Append(rows, row)) == DataRows(rows) + [row]
  {
  }

  /** A full-width row keeps the data rows fitting the columns. */
  lemma FitsAppend(data: seq<seq<string>>, row: seq<string>)
    requires FitsColumns(data) && |row| == Columns
    ensures FitsColumns(data + [row])
  {
    var after := data + [row];
    assert after[|data|] == row;
    forall i | 0 <= i < |after| ensures |after[i]| <= Columns {
      if i < |data| {
        assert after[i] == data[i];
      }
    }
  }

  /** A submission of grid keys, stored under an existing header, adds one
      respondent and exactly its selected keys, in order, to the tokens. */
  lemma SubmissionTokens(rows: seq<seq<string>>, timestamp: string, name: string, feedback: string,
                         selected: seq<string>)
    requires rows != [] && FitsColumns(DataRows(rows))
    requires selected != [] && forall k :: k in selected ==> IsCellKey(k)
    ensures FitsColumns(DataRows(Stored(rows, timestamp, name, feedback, selected)))
    ensures |DataRows(Stored(rows, timestamp, name, feedback, selected))| == |DataRows(rows)| + 1
    ensures Tokens(DataRows(Stored(rows, timestamp, name, feedback, selected))) == Tokens(DataRows(rows)) + selected
  {
    var record := Submit(timestamp, name, feedback, selected).record;
    var data := DataRows(rows);
    DataRowsAppend(rows, record);
    SubmitRoundTrip(timestamp, name, feedback, selected);
    assert RowTokens(record) == selected;
    TokensAppend(data, record);
    FitsAppend(data, record);
  }

  /** So, for a selection the grid scan produced, each selected cell's count
      grows by one and every other cell's stays. */
  lemma SubmissionCounted(rows: seq<seq<string>>, timestamp: string, name: string, feedback: string,
                          ticked: set<string>, selected: seq<string>)
    requires rows != [] && FitsColumns(DataRows(rows))
    requires IsRowMajorSelection(ticked, selected) && selected != []
    ensures forall h, d :: 0 <= h < |Hours| && 0 <= d < |Days| ==>
      Count(Tokens(DataRows(Stored(rows, timestamp, name, feedback, selected))), CellKey(h, d))
        == Count(Tokens(DataRows(rows)), CellKey(h, d)) + if CellKey(h, d) in selected then 1 else 0
  {
    SubmissionTokens(rows, timestamp, name, feedback, selected);
    RowMajorNoRepeats(ticked, selected);
    var before := Tokens(DataRows(rows));
    forall h, d | 0 <= h < |Hours| && 0 <= d < |Days|
      ensures Count(before + selected, CellKey(h, d)) == Count(before, CellKey(h, d)) + if CellKey(h, d) in selected then 1 else 0
    {
      CountConcat(before, selected, CellKey(h, d));
      CountOnce(selected, CellKey(h, d));
    }
  }

  /** The first record stored in an empty sheet lands in the header row: it
      counts as no respondent and contributes no token. */
  lemma FirstSubmissionIsHeader(record: seq<string>)
    ensures DataRows(Append([], record)) == []
    ensures Tokens(DataRows(Append([], record))) == []
  {
  }

  /** A stored row whose selection field is empty still yields one token, the
      empty label, which the tally counts like any other. */
  lemma EmptySelectionCounted(data: seq<seq<string>>, row: seq<string>)
    requires |row| == Columns && row[Columns - 1] == ""
    ensures Tokens(data + [row]) == Tokens(data) + [""]
    ensures Count(Tokens(data + [row]), "") == Count(Tokens(data), "") + 1
    ensures "" in Labels(ValueCounts(Tokens(data + [row])))
  {
    TokensAppend(data, row);
    DecodeEmpty();
    CountConcat(Tokens(data), [""], "");
    assert "" in Tokens(data + [row]);
  }
}
