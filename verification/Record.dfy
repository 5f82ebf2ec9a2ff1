/**
 * The submit step of the form: a record of four text fields is built from the
 * selection, and only when something was selected; the sheet stores it as a
 * new last row.
 */
module Record {
  import opened Catalog
  import opened Codec

  /** What pressing the submit button yields: the record to store, or the
      warning that at least one slot must be chosen. */
  datatype Submission = Saved(record: seq<string>) | NothingSelected

  /** The record's fields: timestamp, name, feedback, joined selection. */
  const FieldCount: nat := 4

  /** A key the grid can produce is carried through the codec unchanged. */
  lemma CellKeysPlain(keys: seq<string>)
    requires forall k :: k in keys ==> IsCellKey(k)
    ensures forall k :: k in keys ==> Plain(k)
  {
    forall k | k in keys ensures Plain(k) {
      var c := CellOf(k);
      CellKeyPlain(c.0, c.1);
    }
  }

  /**
   * Submitting with a timestamp (the clock reading is a parameter), the
   * optional name and feedback, and the scanned selection. A record is built
   * exactly when the selection is not empty; it has four fields, the first
   * three being the inputs as given and the last the keys joined by ", ".
   */
  function Submit(timestamp: string, name: string, feedback: string, selected: seq<string>): (s: Submission)
    ensures s.Saved? <==> selected != []
    ensures s.Saved? ==> |s.record| == FieldCount
    ensures s.Saved? ==> s.record[..3] == [timestamp, name, feedback] && s.record[3] == Encode(selected)
  {
    if selected == [] then NothingSelected
    else Saved([timestamp, name, feedback, Encode(selected)])
  }

  /** The stored selection field of a submission from the grid decodes back
      to exactly the selected keys, in the order they were selected. */
  lemma SubmitRoundTrip(timestamp: string, name: string, feedback: string, selected: seq<string>)
    requires selected != []
    requires forall k :: k in selected ==> IsCellKey(k)
    ensures Decode(Submit(timestamp, name, feedback, selected).record[3]) == selected
  {
    CellKeysPlain(selected);
    DecodeEncode(selected);
  }

  /** `insert_row(record, len(rows) + 1)`: the record becomes the new last row
      and every earlier row stays where it was. */
  function Append(rows: seq<seq<string>>, record: seq<string>): (r: seq<seq<string>>)
    ensures |r| == |rows| + 1 && r[..|rows|] == rows && r[|rows|] == record
  {
    rows + [record]
  }
}
