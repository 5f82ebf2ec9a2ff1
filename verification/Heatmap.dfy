/**
 * The heat map: a table with one row per catalogue hour and one column per
 * catalogue day, all zero at first, into which every tallied label that names
 * a cell writes its count.
 */
module Heatmap {
  import opened Text
  import opened Catalog
  import opened Tally

  /** The intended content of the heat map: each cell holds the number of
      tokens that are exactly its key. */
  function CountMatrix(tokens: seq<string>): (m: seq<seq<nat>>)
    ensures |m| == |Hours|
    ensures forall h :: 0 <= h < |Hours| ==> |m[h]| == |Days|
  {
    seq(|Hours|, h requires 0 <= h < |Hours| =>
      seq(|Days|, d requires 0 <= d < |Days| => Count(tokens, CellKey(h, d))))
  }

  /** The value a cell holds after the entries are written in order: the count
      of the last entry labelled with its key, or what it held before. */
  function LastValue(entries: seq<Entry>, key: string, init: int): int {
    if entries == [] then init
    else if entries[|entries| - 1].0 == key then entries[|entries| - 1].1
    else LastValue(entries[..|entries| - 1], key, init)
  }

  /** The position of the first entry whose label has two or more `-`, where
      the two-name unpack raises; `|entries|` when there is none. */
  function FirstSplitFailure(entries: seq<Entry>): (k: nat)
    ensures k <= |entries|
    ensures forall i :: 0 <= i < k ==> !Unpack(entries[i].0).TooManyParts?
    ensures k < |entries| ==> Unpack(entries[k].0).TooManyParts?
  {
    if entries == [] then 0
    else if Unpack(entries[0].0).TooManyParts? then 0
    else 1 + FirstSplitFailure(entries[1..])
  }

  lemma LastValueStep(entries: seq<Entry>, i: nat, key: string, init: int)
    requires i < |entries|
    ensures LastValue(entries[..i + 1], key, init)
         == if entries[i].0 == key then entries[i].1 else LastValue(entries[..i], key, init)
  {
    assert entries[..i + 1][..i] == entries[..i];
  }

  /** A label that unpacks into the day and hour of cell (h, d) is the key of
      that cell and of no other. */
  lemma PairCell(item: string, h: nat, d: nat)
    requires h < |Hours| && d < |Days|
    requires Unpack(item) == Pair(Days[d], Hours[h])
    ensures forall h': nat, d': nat :: h' < |Hours| && d' < |Days| ==> (item == CellKey(h', d') <==> h' == h && d' == d)
  {
    assert item == CellKey(h, d);
    forall h': nat, d': nat | h' < |Hours| && d' < |Days| && item == CellKey(h', d') ensures h' == h && d' == d {
      CellKeyInjective(h, d, h', d');
    }
  }

  /** Where a label is written: a catalogue cell, or nowhere. */
  datatype Target = NoCell | CellAt(h: nat, d: nat)

  /** The cell a label addresses: when it unpacks into a day and an hour
      found in the catalogue, the cell at `hours.index(hour)`,
      `days.index(day)`; otherwise none, and then it is the key of no cell. */
  function Locate(item: string): (t: Target)
    ensures t.CellAt? <==> IsCellKey(item)
    ensures t.CellAt? ==> t.h < |Hours| && t.d < |Days| && Unpack(item) == Pair(Days[t.d], Hours[t.h])
  {
    if IsCellKey(item) then
      var c := CellOf(item);
      CellKeyUnpack(c.0, c.1);
      CellAt(c.0, c.1)
    else NoCell
  }

  /** The located cell is the one cell whose key is the label. */
  lemma TargetIsOnlyCell(item: string, target: Target)
    requires target == Locate(item)
    ensures target.CellAt? ==> target.h < |Hours| && target.d < |Days|
    ensures forall h: nat, d: nat :: h < |Hours| && d < |Days| ==>
      (item == CellKey(h, d) <==> target == CellAt(h, d))
  {
    if target.CellAt? {
      PairCell(item, target.h, target.d);
    } else {
      NoCellOf(item);
    }
  }

  /**
   * One step of the fill loop: `item` with its `count`. A label without `-`
   * is skipped; a label with two or more fails (the two-name unpack raises);
   * a label `day-hour` whose day and hour are in the catalogue writes its
   * count into that cell, any other is skipped. So exactly the cell whose key
   * is the label changes, if there is one.
   */
  method WriteEntry(heat: array2<int>, item: string, count: nat) returns (ok: bool)
    requires heat.Length0 == |Hours| && heat.Length1 == |Days|
    modifies heat
    ensures ok <==> !Unpack(item).TooManyParts?
    ensures forall h: nat, d: nat :: h < |Hours| && d < |Days| ==>
      heat[h, d] == if ok && item == CellKey(h, d) then count else old(heat[h, d])
  {
    if Unpack(item).TooManyParts? {
      return false;
    }
    var target := Locate(item);
    TargetIsOnlyCell(item, target);
    match target {
      case CellAt(h, d) =>
        heat[h, d] := count;
      case NoCell =>
    }
    return true;
  }

  /**
   * The fill loop over the tally. It stops with failure at the first label
   * with two or more `-`; every cell ends as the count of the last entry
   * before that point labelled with its key, and keeps its old value when
   * there is none.
   */
  method FillMatrix(heat: array2<int>, entries: seq<Entry>) returns (ok: bool)
    requires heat.Length0 == |Hours| && heat.Length1 == |Days|
    modifies heat
    ensures ok <==> FirstSplitFailure(entries) == |entries|
    ensures forall h, d :: 0 <= h < |Hours| && 0 <= d < |Days| ==>
      heat[h, d] == LastValue(entries[..FirstSplitFailure(entries)], CellKey(h, d), old(heat[h, d]))
  {
    var i := 0;
    while i < |entries|
      invariant 0 <= i <= FirstSplitFailure(entries)
      invariant forall h, d :: 0 <= h < |Hours| && 0 <= d < |Days| ==>
        heat[h, d] == LastValue(entries[..i], CellKey(h, d), old(heat[h, d]))
    {
      label Before:
      var written := WriteEntry(heat, entries[i].0, entries[i].1);
      if !written {
        assert i == FirstSplitFailure(entries);
        return false;
      }
      assert i < FirstSplitFailure(entries);
      forall h, d | 0 <= h < |Hours| && 0 <= d < |Days|
        ensures heat[h, d] == LastValue(entries[..i + 1], CellKey(h, d), old(heat[h, d]))
      {
        LastValueStep(entries, i, CellKey(h, d), old(heat[h, d]));
        assert old@Before(heat[h, d]) == LastValue(entries[..i], CellKey(h, d), old(heat[h, d]));
      }
      i := i + 1;
    }
    assert i == FirstSplitFailure(entries) == |entries|;
    assert entries[..i] == entries;
    return true;
  }

  /** Cell (h, d) of the count matrix counts the key of that cell. */
  lemma CountMatrixAt(tokens: seq<string>, h: nat, d: nat)
    requires h < |Hours| && d < |Days|
    ensures CountMatrix(tokens)[h][d] == Count(tokens, CellKey(h, d))
  {
  }

  /** Written from a tally whose counts are those of the tokens, a cell that
      starts at zero ends with its key's count. */
  lemma {:induction false} LastValueOfCounts(tokens: seq<string>, entries: seq<Entry>, key: string)
    requires CountsOf(tokens, entries)
    ensures LastValue(entries, key, 0) == if key in Labels(entries) then Count(tokens, key) else 0
  {
    if entries != [] {
      var prefix := entries[..|entries| - 1];
      assert CountsOf(tokens, prefix);
      LastValueOfCounts(tokens, prefix, key);
      assert Labels(entries) == Labels(prefix) + [entries[|entries| - 1].0];
    }
  }

  /** Filling a zero table from `value_counts()` yields the count matrix. */
  lemma ValueCountsFill(tokens: seq<string>, vc: seq<Entry>, h: nat, d: nat)
    requires IsValueCounts(tokens, vc)
    requires h < |Hours| && d < |Days|
    ensures LastValue(vc, CellKey(h, d), 0) == CountMatrix(tokens)[h][d]
  {
    LastValueOfCounts(tokens, vc, CellKey(h, d));
  }

  /** The fill fails exactly when some token has two or more `-`. */
  lemma SplitFailureIffToken(tokens: seq<string>, vc: seq<Entry>)
    requires IsValueCounts(tokens, vc)
    ensures FirstSplitFailure(vc) < |vc| <==> exists t :: t in tokens && DashCount(t) >= 2
  {
    var k := FirstSplitFailure(vc);
    if k < |vc| {
      assert Labels(vc)[k] in tokens;
    }
    if t :| t in tokens && DashCount(t) >= 2 {
      var j :| 0 <= j < |vc| && Labels(vc)[j] == t;
      assert Unpack(vc[j].0).TooManyParts?;
    }
  }

  /** A token that is not a cell key leaves the count matrix as it is: one
      without `-`, or with a day or hour outside the catalogue. */
  lemma NonKeyTokenIgnored(tokens: seq<string>, t: string)
    requires !IsCellKey(t)
    ensures CountMatrix(tokens + [t]) == CountMatrix(tokens)
  {
    var m, m' := CountMatrix(tokens), CountMatrix(tokens + [t]);
    forall h | 0 <= h < |Hours| ensures m'[h] == m[h] {
      forall d | 0 <= d < |Days| ensures m'[h][d] == m[h][d] {
        KeysAreCells(t, h, d);
        CountConcat(tokens, [t], CellKey(h, d));
      }
    }
  }

  /** The matrix `m` with one more at cell `c`. */
  function Bump(m: seq<seq<nat>>, c: (nat, nat)): seq<seq<nat>>
    requires c.0 < |m| && c.1 < |m[c.0]|
  {
    m[c.0 := m[c.0][c.1 := m[c.0][c.1] + 1]]
  }

  /** What a bumped matrix holds. */
  lemma BumpAt(m: seq<seq<nat>>, c: (nat, nat), h: nat, d: nat)
    requires c.0 < |m| && c.1 < |m[c.0]|
    requires h < |m| && d < |m[h]|
    ensures |Bump(m, c)| == |m| && |Bump(m, c)[h]| == |m[h]|
    ensures Bump(m, c)[h][d] == m[h][d] + if (h, d) == c then 1 else 0
  {
  }

  /** The key of cell (h0, d0) as a token adds one to that cell and nothing
      else. */
  lemma KeyTokenCounted(tokens: seq<string>, h0: nat, d0: nat)
    requires h0 < |Hours| && d0 < |Days|
    ensures forall h, d :: 0 <= h < |Hours| && 0 <= d < |Days| ==>
      CountMatrix(tokens + [CellKey(h0, d0)])[h][d] == CountMatrix(tokens)[h][d] + if (h, d) == (h0, d0) then 1 else 0
  {
    var t := CellKey(h0, d0);
    forall h, d | 0 <= h < |Hours| && 0 <= d < |Days|
      ensures CountMatrix(tokens + [t])[h][d] == CountMatrix(tokens)[h][d] + if (h, d) == (h0, d0) then 1 else 0
    {
      CountMatrixAt(tokens, h, d);
      CountMatrixAt(tokens + [t], h, d);
      if t == CellKey(h, d) {
        CellKeyInjective(h0, d0, h, d);
      }
      CountConcat(tokens, [t], CellKey(h, d));
    }
  }

  /** Two matrices of the grid's shape with equal cells are equal. */
  lemma GridEqual(a: seq<seq<nat>>, b: seq<seq<nat>>)
    requires |a| == |b| == |Hours|
    requires forall h :: 0 <= h < |Hours| ==> |a[h]| == |b[h]| == |Days|
    requires forall h, d :: 0 <= h < |Hours| && 0 <= d < |Days| ==> a[h][d] == b[h][d]
    ensures a == b
  {
    forall h | 0 <= h < |Hours| ensures a[h] == b[h] {
    }
  }

  /** So the matrix after a cell key is the matrix before, bumped at the
      key's cell. */
  lemma KeyTokenBumps(tokens: seq<string>, h0: nat, d0: nat)
    requires h0 < |Hours| && d0 < |Days|
    ensures CountMatrix(tokens + [CellKey(h0, d0)]) == Bump(CountMatrix(tokens), (h0, d0))
  {
    var m, m' := CountMatrix(tokens), CountMatrix(tokens + [CellKey(h0, d0)]);
    KeyTokenCounted(tokens, h0, d0);
    forall h, d | 0 <= h < |Hours| && 0 <= d < |Days| ensures Bump(m, (h0, d0))[h][d] == m'[h][d] {
      BumpAt(m, (h0, d0), h, d);
    }
    forall h | 0 <= h < |Hours| ensures |Bump(m, (h0, d0))[h]| == |Days| {
      BumpAt(m, (h0, d0), h, 0);
    }
    GridEqual(m', Bump(m, (h0, d0)));
  }

  function Sum(s: seq<nat>): nat {
    if s == [] then 0 else s[0] + Sum(s[1..])
  }

  lemma {:induction false} SumBump(s: seq<nat>, k: nat)
    requires k < |s|
    ensures Sum(s[k := s[k] + 1]) == Sum(s) + 1
  {
    var s' := s[k := s[k] + 1];
    if k == 0 {
      assert s'[1..] == s[1..];
    } else {
      SumBump(s[1..], k - 1);
      assert s'[1..] == s[1..][k - 1 := s[k] + 1];
    }
  }

  lemma {:induction false} ZeroSum(s: seq<nat>)
    requires forall i :: 0 <= i < |s| ==> s[i] == 0
    ensures Sum(s) == 0
  {
    if s != [] {
      ZeroSum(s[1..]);
    }
  }

  /** The sum of every cell of a matrix. */
  function Total(m: seq<seq<nat>>): nat {
    Sum(seq(|m|, h requires 0 <= h < |m| => Sum(m[h])))
  }

  lemma TotalBump(m: seq<seq<nat>>, c: (nat, nat))
    requires c.0 < |m| && c.1 < |m[c.0]|
    ensures Total(Bump(m, c)) == Total(m) + 1
  {
    var rows := seq(|m|, h requires 0 <= h < |m| => Sum(m[h]));
    var b := Bump(m, c);
    SumBump(m[c.0], c.1);
    assert seq(|b|, h requires 0 <= h < |b| => Sum(b[h])) == rows[c.0 := rows[c.0] + 1];
    SumBump(rows, c.0);
  }

  /** How many tokens are cell keys. */
  function CellTokens(tokens: seq<string>): nat {
    if tokens == [] then 0
    else CellTokens(tokens[..|tokens| - 1]) + (if IsCellKey(tokens[|tokens| - 1]) then 1 else 0)
  }

  /** With no tokens every cell is zero. */
  lemma TotalEmpty()
    ensures Total(CountMatrix([])) == 0
  {
    var m := CountMatrix([]);
    forall h | 0 <= h < |m| ensures Sum(m[h]) == 0 {
      ZeroSum(m[h]);
    }
    ZeroSum(seq(|m|, h requires 0 <= h < |m| => Sum(m[h])));
  }

  lemma TotalKeyStep(tokens: seq<string>, h: nat, d: nat)
    requires h < |Hours| && d < |Days|
    ensures Total(CountMatrix(tokens + [CellKey(h, d)])) == Total(CountMatrix(tokens)) + 1
  {
    KeyTokenBumps(tokens, h, d);
    TotalBump(CountMatrix(tokens), (h, d));
  }

  /** One more token adds one to the total when it is a cell key. */
  lemma TotalStep(tokens: seq<string>, t: string)
    ensures Total(CountMatrix(tokens + [t])) == Total(CountMatrix(tokens)) + if IsCellKey(t) then 1 else 0
  {
    if IsCellKey(t) {
      var c := CellOf(t);
      TotalKeyStep(tokens, c.0, c.1);
    } else {
      NonKeyTokenIgnored(tokens, t);
    }
  }

  /** The matrix counts every token that is a cell key once, and nothing else. */
  lemma {:induction false} MatrixTotal(tokens: seq<string>)
    ensures Total(CountMatrix(tokens)) == CellTokens(tokens)
  {
    if tokens == [] {
      TotalEmpty();
    } else {
      var prefix, t := tokens[..|tokens| - 1], tokens[|tokens| - 1];
      assert tokens == prefix + [t];
      MatrixTotal(prefix);
      TotalStep(prefix, t);
    }
  }

  /** At most every token is counted, and every token exactly when all of
      them are cell keys. */
  lemma {:induction false} CellTokensBound(tokens: seq<string>)
    ensures CellTokens(tokens) <= |tokens|
    ensures CellTokens(tokens) == |tokens| <==> forall t :: t in tokens ==> IsCellKey(t)
  {
    if tokens != [] {
      var prefix, t := tokens[..|tokens| - 1], tokens[|tokens| - 1];
      assert tokens == prefix + [t];
      CellTokensBound(prefix);
    }
  }

  /** A token holding whitespace anywhere is not counted: no cell key has
      any. */
  lemma SpacedTokenIgnored(t: string, i: nat)
    requires i < |t| && IsSpace(t[i])
    ensures !IsCellKey(t)
  {
    assert !KeyChar(t[i]);
    KeyCharsOf(t);
  }

  /** So a key padded with spaces around its `-` is not counted. */
  lemma PaddedKeyIgnored()
    ensures !IsCellKey("土 - 6:00")
  {
    SpacedTokenIgnored("土 - 6:00", 1);
  }
}
