/**
 * The checkbox grid of the submission form: one checkbox per (hour, day)
 * cell, keyed by the cell's `day-hour` key, scanned row by row (hour outer,
 * day inner) to collect the keys that are ticked.
 */
module Grid {
  import opened Text
  import opened Catalog

  /** Cell `a` comes before cell `b` in the scan: an earlier row, or the
      same row and an earlier column. */
  predicate Before(a: (nat, nat), b: (nat, nat)) {
    a.0 < b.0 || (a.0 == b.0 && a.1 < b.1)
  }

  /** A (row, column) pair inside the grid. */
  predicate InGrid(c: (nat, nat)) {
    c.0 < |Hours| && c.1 < |Days|
  }

  /** The keys of a run of grid cells. */
  function KeysOf(cells: seq<(nat, nat)>): (keys: seq<string>)
    requires forall i :: 0 <= i < |cells| ==> InGrid(cells[i])
    ensures |keys| == |cells|
  {
    seq(|cells|, i requires 0 <= i < |cells| && InGrid(cells[i]) => CellKey(cells[i].0, cells[i].1))
  }

  lemma KeysOfSnoc(cells: seq<(nat, nat)>, c: (nat, nat))
    requires forall i :: 0 <= i < |cells| ==> InGrid(cells[i])
    requires InGrid(c)
    ensures KeysOf(cells + [c]) == KeysOf(cells) + [CellKey(c.0, c.1)]
  {
  }

  /**
   * The cells whose keys the scan has collected when it reaches cell (h, d):
   * ticked cells only, in strictly increasing scan order, all before (h, d),
   * and every ticked cell before (h, d).
   */
  ghost predicate Scanned(ticked: set<string>, h: nat, d: nat, cells: seq<(nat, nat)>) {
    && (forall i :: 0 <= i < |cells| ==> InGrid(cells[i]) && CellKey(cells[i].0, cells[i].1) in ticked && Before(cells[i], (h, d)))
    && (forall i, j :: 0 <= i < j < |cells| ==> Before(cells[i], cells[j]))
    && (forall h': nat, d': nat :: h' < |Hours| && d' < |Days| && Before((h', d'), (h, d)) && CellKey(h', d') in ticked ==>
          (h', d') in cells)
  }

  /** The selection of the whole grid: every ticked grid key, each once, in
      row-major order (hour outer, day inner), and nothing else. */
  ghost predicate IsRowMajorSelection(ticked: set<string>, sel: seq<string>) {
    && (forall i :: 0 <= i < |sel| ==> IsCellKey(sel[i]) && sel[i] in ticked)
    && (forall i, j :: 0 <= i < j < |sel| ==> Before(CellOf(sel[i]), CellOf(sel[j])))
    && (forall h: nat, d: nat :: h < |Hours| && d < |Days| && CellKey(h, d) in ticked ==> CellKey(h, d) in sel)
  }

  /** Visiting cell (h, d): it is added exactly when its key is ticked. */
  lemma ScanCell(ticked: set<string>, h: nat, d: nat, cells: seq<(nat, nat)>)
    requires h < |Hours| && d < |Days|
    requires Scanned(ticked, h, d, cells)
    ensures Scanned(ticked, h, d + 1, if CellKey(h, d) in ticked then cells + [(h, d)] else cells)
  {
    if CellKey(h, d) in ticked {
      var next := cells + [(h, d)];
      assert forall i :: 0 <= i < |cells| ==> next[i] == cells[i];
      forall h': nat, d': nat | h' < |Hours| && d' < |Days| && Before((h', d'), (h, d + 1)) && CellKey(h', d') in ticked
        ensures (h', d') in next
      {
        if h' == h && d' == d {
          assert next[|cells|] == (h, d);
        } else {
          assert (h', d') in cells;
        }
      }
    } else {
      forall h': nat, d': nat | h' < |Hours| && d' < |Days| && Before((h', d'), (h, d + 1)) && CellKey(h', d') in ticked
        ensures (h', d') in cells
      {
        assert (h', d') != (h, d);
      }
    }
  }

  /** The end of a row is the start of the next. */
  lemma ScanRow(ticked: set<string>, h: nat, cells: seq<(nat, nat)>)
    requires Scanned(ticked, h, |Days|, cells)
    ensures Scanned(ticked, h + 1, 0, cells)
  {
    forall h': nat, d': nat | h' < |Hours| && d' < |Days| && Before((h', d'), (h + 1, 0)) && CellKey(h', d') in ticked
      ensures (h', d') in cells
    {
      assert Before((h', d'), (h, |Days|));
    }
  }

  /** The keys of grid cells are cell keys that lead back to their cells. */
  lemma KeysOfCells(cells: seq<(nat, nat)>)
    requires forall i :: 0 <= i < |cells| ==> InGrid(cells[i])
    ensures forall i :: 0 <= i < |cells| ==> IsCellKey(KeysOf(cells)[i]) && CellOf(KeysOf(cells)[i]) == cells[i]
  {
    var sel := KeysOf(cells);
    forall i | 0 <= i < |sel| ensures IsCellKey(sel[i]) && CellOf(sel[i]) == cells[i] {
      KeysAreCells(sel[i], cells[i].0, cells[i].1);
    }
  }

  /** Past the last row, the keys of the collected cells are the row-major
      selection of the whole grid. */
  lemma ScanDone(ticked: set<string>, cells: seq<(nat, nat)>)
    requires Scanned(ticked, |Hours|, 0, cells)
    ensures IsRowMajorSelection(ticked, KeysOf(cells))
  {
    var sel := KeysOf(cells);
    KeysOfCells(cells);
    forall i, j | 0 <= i < j < |sel| ensures Before(CellOf(sel[i]), CellOf(sel[j])) {
      assert CellOf(sel[i]) == cells[i] && CellOf(sel[j]) == cells[j];
    }
    forall h: nat, d: nat | h < |Hours| && d < |Days| && CellKey(h, d) in ticked ensures CellKey(h, d) in sel {
      assert Before((h, d), (|Hours|, 0));
      var i :| 0 <= i < |cells| && cells[i] == (h, d);
      assert sel[i] == CellKey(h, d);
    }
  }

  /** A row-major selection never holds a key twice. */
  lemma RowMajorNoRepeats(ticked: set<string>, sel: seq<string>)
    requires IsRowMajorSelection(ticked, sel)
    ensures forall i, j :: 0 <= i < j < |sel| ==> sel[i] != sel[j]
  {
    forall i, j | 0 <= i < j < |sel| ensures sel[i] != sel[j] {
      assert Before(CellOf(sel[i]), CellOf(sel[j]));
    }
  }

  /** A selected key is a ticked grid key. */
  lemma SomeTicked(ticked: set<string>, k: string)
    requires IsCellKey(k) && k in ticked
    ensures exists h: nat, d: nat :: h < |Hours| && d < |Days| && CellKey(h, d) in ticked
  {
    var c := CellOf(k);
    TickedCell(ticked, c.0, c.1);
  }

  lemma TickedCell(ticked: set<string>, h: nat, d: nat)
    requires h < |Hours| && d < |Days| && CellKey(h, d) in ticked
    ensures exists h': nat, d': nat :: h' < |Hours| && d' < |Days| && CellKey(h', d') in ticked
  {
  }

  /** The selection is empty exactly when no grid checkbox is ticked, which is
      when the form warns instead of building a record. */
  lemma NothingTicked(ticked: set<string>, sel: seq<string>)
    requires IsRowMajorSelection(ticked, sel)
    ensures sel == [] <==> forall h: nat, d: nat :: h < |Hours| && d < |Days| ==> CellKey(h, d) !in ticked
  {
    if sel != [] {
      SomeTicked(ticked, sel[0]);
    }
  }

  /** The cells whose checkboxes are ticked among those before (h, d) in
      scan order, in that order. */
  function TickedBefore(ticked: set<string>, h: nat, d: nat): seq<(nat, nat)>
    requires h < |Hours| || (h == |Hours| && d == 0)
    requires d <= |Days|
    decreases h, d
  {
    if d > 0 then
      TickedBefore(ticked, h, d - 1) + if CellKey(h, d - 1) in ticked then [(h, d - 1)] else []
    else if h > 0 then TickedBefore(ticked, h - 1, |Days|)
    else []
  }

  /** The keys the checkbox loop has collected when it reaches (h, d). */
  function SelectionBefore(ticked: set<string>, h: nat, d: nat): seq<string>
    requires h < |Hours| || (h == |Hours| && d == 0)
    requires d <= |Days|
    decreases h, d
  {
    if d > 0 then
      SelectionBefore(ticked, h, d - 1) + if CellKey(h, d - 1) in ticked then [CellKey(h, d - 1)] else []
    else if h > 0 then SelectionBefore(ticked, h - 1, |Days|)
    else []
  }

  /** The ticked cells before (h, d) lie inside the grid. */
  lemma {:induction false} TickedBeforeInGrid(ticked: set<string>, h: nat, d: nat)
    requires h < |Hours| || (h == |Hours| && d == 0)
    requires d <= |Days|
    ensures forall i :: 0 <= i < |TickedBefore(ticked, h, d)| ==> InGrid(TickedBefore(ticked, h, d)[i])
    decreases h, d
  {
    if d > 0 {
      TickedBeforeInGrid(ticked, h, d - 1);
    } else if h > 0 {
      TickedBeforeInGrid(ticked, h - 1, |Days|);
    }
  }

  /** The ticked cells before (h, d) are exactly what the scan has found
      there. */
  lemma {:induction false} TickedBeforeScanned(ticked: set<string>, h: nat, d: nat)
    requires h < |Hours| || (h == |Hours| && d == 0)
    requires d <= |Days|
    ensures Scanned(ticked, h, d, TickedBefore(ticked, h, d))
    decreases h, d
  {
    if d > 0 {
      var cells := TickedBefore(ticked, h, d - 1);
      TickedBeforeScanned(ticked, h, d - 1);
      ScanCell(ticked, h, d - 1, cells);
      assert TickedBefore(ticked, h, d) == if CellKey(h, d - 1) in ticked then cells + [(h, d - 1)] else cells;
    } else if h > 0 {
      TickedBeforeScanned(ticked, h - 1, |Days|);
      ScanRow(ticked, h - 1, TickedBefore(ticked, h - 1, |Days|));
    }
  }

  /** The keys collected by (h, d) are the keys of the ticked cells before
      it. */
  lemma {:induction false} SelectionKeys(ticked: set<string>, h: nat, d: nat)
    requires h < |Hours| || (h == |Hours| && d == 0)
    requires d <= |Days|
    ensures forall i :: 0 <= i < |TickedBefore(ticked, h, d)| ==> InGrid(TickedBefore(ticked, h, d)[i])
    ensures SelectionBefore(ticked, h, d) == KeysOf(TickedBefore(ticked, h, d))
    decreases h, d
  {
    TickedBeforeInGrid(ticked, h, d);
    if d > 0 {
      var cells := TickedBefore(ticked, h, d - 1);
      SelectionKeys(ticked, h, d - 1);
      if CellKey(h, d - 1) in ticked {
        KeysOfSnoc(cells, (h, d - 1));
      }
    } else if h > 0 {
      SelectionKeys(ticked, h - 1, |Days|);
    }
  }

  /** The keys collected over the whole grid are its row-major selection. */
  lemma SelectionIsRowMajor(ticked: set<string>)
    ensures IsRowMajorSelection(ticked, SelectionBefore(ticked, |Hours|, 0))
  {
    TickedBeforeScanned(ticked, |Hours|, 0);
    SelectionKeys(ticked, |Hours|, 0);
    ScanDone(ticked, TickedBefore(ticked, |Hours|, 0));
  }

  /**
   * The form's checkbox loop: for each hour in row order, for each day in
   * column order, append the key `day-hour` when its checkbox is ticked.
   */
  method ScanGrid(ticked: set<string>) returns (selected: seq<string>)
    ensures selected == SelectionBefore(ticked, |Hours|, 0)
    ensures IsRowMajorSelection(ticked, selected)
  {
    selected := [];
    var h := 0;
    while h < |Hours|
      invariant 0 <= h <= |Hours|
      invariant selected == SelectionBefore(ticked, h, 0)
    {
      var d := 0;
      while d < |Days|
        invariant 0 <= d <= |Days|
        invariant selected == SelectionBefore(ticked, h, d)
      {
        var key := Days[d] + "-" + Hours[h];
        assert key == CellKey(h, d);
        if key in ticked {
          selected := selected + [key];
        }
        d := d + 1;
      }
      h := h + 1;
    }
    SelectionIsRowMajor(ticked);
  }
}
