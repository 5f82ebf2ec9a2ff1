/**
 * The fixed slot catalogue of the survey: four meeting days (the columns)
 * and eighteen hour labels (the rows), the textual key `day-hour` of a grid
 * cell, and the two-way unpack of a label on `-` that the tally relies on.
 */
module Catalog {
  import opened Text

  /** Meeting days in the survey's own column order: Saturday, Sunday,
      Monday, Friday (a meeting cadence, not calendar order). */
  const Days: seq<string> := ["土", "日", "月", "金"]

  /** The hours offered are `range(6, 24)`. */
  const FirstHour: nat := 6
  const HourCount: nat := 18

  function Digit(n: nat): char
    requires n < 10
  {
    ('0' as int + n) as char
  }

  /** Python's `f"{n}"` for a number below one hundred: no leading zero. */
  function Decimal(n: nat): (s: string)
    requires n < 100
    ensures 1 <= |s| <= 2
    ensures forall i :: 0 <= i < |s| ==> '0' <= s[i] <= '9'
  {
    if n < 10 then [Digit(n)] else [Digit(n / 10), Digit(n % 10)]
  }

  /** The number a string of one or two decimal digits denotes. */
  function DecimalValue(s: string): nat
    requires 1 <= |s| <= 2
    requires forall i :: 0 <= i < |s| ==> '0' <= s[i] <= '9'
  {
    if |s| == 1 then (s[0] as int - '0' as int)
    else 10 * (s[0] as int - '0' as int) + (s[1] as int - '0' as int)
  }

  /** Reading the rendered number back gives the number. */
  lemma DecimalRoundTrip(n: nat)
    requires n < 100
    ensures DecimalValue(Decimal(n)) == n
  {
    var s := Decimal(n);
    if n < 10 {
      assert s[0] == Digit(n);
    } else {
      assert s[0] == Digit(n / 10) && s[1] == Digit(n % 10);
    }
  }

  /** The row label of hour `h`: `f"{h}:00"`. */
  function HourLabel(h: nat): string
    requires h < 100
  {
    Decimal(h) + ":00"
  }

  /** The eighteen row labels "6:00" .. "23:00", in row order. */
  const Hours: seq<string> :=
    ["6:00", "7:00", "8:00", "9:00", "10:00", "11:00", "12:00", "13:00", "14:00",
     "15:00", "16:00", "17:00", "18:00", "19:00", "20:00", "21:00", "22:00", "23:00"]

  /** The row labels are `[f"{h}:00" for h in range(6, 24)]`. */
  lemma HoursAreRange()
    ensures |Hours| == HourCount
    ensures forall i :: 0 <= i < HourCount ==> Hours[i] == HourLabel(FirstHour + i)
  {
    forall i | 0 <= i < HourCount ensures Hours[i] == HourLabel(FirstHour + i) {
      var n := FirstHour + i;
      if n < 10 {
        assert Hours[i] == [Digit(n)] + ":00";
      } else {
        assert Hours[i] == [Digit(n / 10), Digit(n % 10)] + ":00";
      }
    }
  }

  /** The textual key of the cell in row `h` and column `d`. */
  function CellKey(h: nat, d: nat): string
    requires h < |Hours| && d < |Days|
  {
    Days[d] + "-" + Hours[h]
  }

  /** Every hour label names a distinct hour, so no row label repeats. */
  lemma HoursDistinct()
    ensures |Hours| == HourCount
    ensures forall i, j :: 0 <= i < j < |Hours| ==> Hours[i] != Hours[j]
  {
    HoursAreRange();
    forall i, j | 0 <= i < j < |Hours| ensures Hours[i] != Hours[j] {
      var a, b := Decimal(FirstHour + i), Decimal(FirstHour + j);
      if Hours[i] == Hours[j] {
        assert Hours[i] == a + ":00" && Hours[j] == b + ":00";
        assert a == Hours[i][..|Hours[i]| - 3];
        assert b == Hours[j][..|Hours[j]| - 3];
        DecimalRoundTrip(FirstHour + i);
        DecimalRoundTrip(FirstHour + j);
      }
    }
  }

  /** The four day labels are one character each and pairwise distinct. */
  lemma DaysDistinct()
    ensures |Days| == 4
    ensures forall d :: 0 <= d < |Days| ==> |Days[d]| == 1
    ensures forall i, j :: 0 <= i < j < |Days| ==> Days[i] != Days[j]
  {
    assert Days[0] == "土" && Days[1] == "日" && Days[2] == "月" && Days[3] == "金";
  }

  /** The characters a cell key is made of. */
  predicate KeyChar(c: char) {
    c == '土' || c == '日' || c == '月' || c == '金' || ('0' <= c <= '9') || c == ':' || c == '-'
  }

  lemma HourChars(h: nat)
    requires h < |Hours|
    ensures forall i :: 0 <= i < |Hours[h]| ==> KeyChar(Hours[h][i]) && Hours[h][i] != '-'
  {
    HoursAreRange();
    var s := Decimal(FirstHour + h);
    assert Hours[h] == s + ":00";
  }

  lemma DayChars(d: nat)
    requires d < |Days|
    ensures forall i :: 0 <= i < |Days[d]| ==> KeyChar(Days[d][i]) && Days[d][i] != '-'
  {
    assert Days[0] == "土" && Days[1] == "日" && Days[2] == "月" && Days[3] == "金";
  }

  /** The guard `day in days and hour in hours` after the unpack holds of a
      label exactly when it is the key of some grid cell. */
  lemma IsCellKeyIff(t: string)
    ensures IsCellKey(t) <==> exists h: nat, d: nat :: h < |Hours| && d < |Days| && t == CellKey(h, d)
  {
    if IsCellKey(t) {
      var c := CellOf(t);
      KeyOfCell(t, c.0, c.1);
    } else {
      NoCellOf(t);
    }
  }

  lemma KeyOfCell(t: string, h: nat, d: nat)
    requires h < |Hours| && d < |Days| && t == CellKey(h, d)
    ensures exists h': nat, d': nat :: h' < |Hours| && d' < |Days| && t == CellKey(h', d')
  {
  }

  /** Every character of a cell key is a day glyph, a digit, `:` or `-`. */
  lemma CellKeyChars(h: nat, d: nat)
    requires h < |Hours| && d < |Days|
    ensures forall i :: 0 <= i < |CellKey(h, d)| ==> KeyChar(CellKey(h, d)[i])
  {
    HourChars(h);
    DayChars(d);
    var k := CellKey(h, d);
    forall i | 0 <= i < |k| ensures KeyChar(k[i]) {
      if i < |Days[d]| {
        assert k[i] == Days[d][i];
      } else if i > |Days[d]| {
        assert k[i] == Hours[h][i - |Days[d]| - 1];
      }
    }
  }

  /** The number of `-` in a label; `item.split("-")` yields one part more. */
  function DashCount(s: string): nat {
    multiset(s)['-']
  }

  /** What `day, hour = item.split("-")` does with a label that contains a
      `-`, and what the guard `"-" in item` does with one that does not. */
  datatype Unpacked = NoDash | Pair(day: string, hour: string) | TooManyParts

  /**
   * Unpacking succeeds exactly when the label has one `-`, and then gives the
   * text on each side of it; two or more `-` give more than two parts, which
   * the two-name unpack refuses.
   */
  function Unpack(item: string): (u: Unpacked)
    ensures u.NoDash? <==> DashCount(item) == 0
    ensures u.Pair? <==> DashCount(item) == 1
    ensures u.TooManyParts? <==> DashCount(item) >= 2
    ensures u.Pair? ==> item == u.day + "-" + u.hour && '-' !in u.day && '-' !in u.hour
  {
    var i := IndexOf(item, '-');
    if i == |item| then
      NoDash
    else
      var rest := item[i + 1..];
      assert item == item[..i] + "-" + rest;
      assert '-' !in item[..i];
      if IndexOf(rest, '-') < |rest| then
        assert '-' in rest;
        TooManyParts
      else
        Pair(item[..i], rest)
  }

  /** A label that splits around one `-` splits only one way. */
  lemma DashSplitUnique(a: string, b: string, c: string, e: string)
    requires '-' !in a && '-' !in c
    requires a + "-" + b == c + "-" + e
    ensures a == c && b == e
  {
    var s := a + "-" + b;
    assert s[|a|] == '-' && s[|c|] == '-';
    assert forall i :: 0 <= i < |a| ==> s[i] == a[i];
    assert forall i :: 0 <= i < |c| ==> s[i] == c[i];
    assert |a| == |c|;
    assert a == s[..|a|] && c == s[..|c|];
    assert b == s[|a| + 1..] && e == s[|c| + 1..];
  }

  /** A cell key unpacks into exactly its day and its hour. */
  lemma CellKeyUnpack(h: nat, d: nat)
    requires h < |Hours| && d < |Days|
    ensures Unpack(CellKey(h, d)) == Pair(Days[d], Hours[h])
  {
    HourChars(h);
    DayChars(d);
    var k := CellKey(h, d);
    assert '-' !in Days[d] && '-' !in Hours[h];
    assert multiset(k)['-'] == multiset(Days[d])['-'] + 1 + multiset(Hours[h])['-'];
    var u := Unpack(k);
    DashSplitUnique(u.day, u.hour, Days[d], Hours[h]);
  }

  /** In a sequence without repeats, the first position of an element is its
      only one. */
  lemma FirstIndexOfDistinct(s: seq<string>, i: nat)
    requires i < |s|
    requires forall j, k :: 0 <= j < k < |s| ==> s[j] != s[k]
    ensures IndexOf(s, s[i]) == i
  {
  }

  /** A label the heat map has a cell for: it unpacks into a catalogue day
      and a catalogue hour. */
  predicate IsCellKey(t: string) {
    Unpack(t).Pair? && Unpack(t).day in Days && Unpack(t).hour in Hours
  }

  /** The (row, column) of a cell key; the key of that cell is the label. */
  function CellOf(t: string): (c: (nat, nat))
    requires IsCellKey(t)
    ensures c.0 < |Hours| && c.1 < |Days|
    ensures CellKey(c.0, c.1) == t
  {
    (IndexOf(Hours, Unpack(t).hour), IndexOf(Days, Unpack(t).day))
  }

  /**
   * A label equals the key of cell (h, d) exactly when it is a cell key whose
   * cell is (h, d): labels and grid cells correspond one to one.
   */
  lemma KeysAreCells(t: string, h: nat, d: nat)
    requires h < |Hours| && d < |Days|
    ensures t == CellKey(h, d) <==> IsCellKey(t) && CellOf(t) == (h, d)
  {
    if t == CellKey(h, d) {
      CellKeyUnpack(h, d);
      HoursDistinct();
      DaysDistinct();
      FirstIndexOfDistinct(Hours, h);
      FirstIndexOfDistinct(Days, d);
    }
  }

  /** Distinct cells have distinct keys. */
  lemma CellKeyInjective(h: nat, d: nat, h': nat, d': nat)
    requires h < |Hours| && d < |Days| && h' < |Hours| && d' < |Days|
    requires CellKey(h, d) == CellKey(h', d')
    ensures h == h' && d == d'
  {
    KeysAreCells(CellKey(h, d), h, d);
    KeysAreCells(CellKey(h, d), h', d');
  }

  /** A cell key is the key of its own cell and of no other. */
  lemma OnlyCellOf(t: string)
    requires IsCellKey(t)
    ensures forall h: nat, d: nat :: h < |Hours| && d < |Days| ==> (t == CellKey(h, d) <==> CellOf(t) == (h, d))
  {
    forall h: nat, d: nat | h < |Hours| && d < |Days| ensures t == CellKey(h, d) <==> CellOf(t) == (h, d) {
      KeysAreCells(t, h, d);
    }
  }

  /** A label that is not a cell key is the key of no cell. */
  lemma NoCellOf(t: string)
    requires !IsCellKey(t)
    ensures forall h: nat, d: nat :: h < |Hours| && d < |Days| ==> t != CellKey(h, d)
  {
    forall h: nat, d: nat | h < |Hours| && d < |Days| ensures t != CellKey(h, d) {
      KeysAreCells(t, h, d);
    }
  }

  /** Every character of a cell key is a day glyph, a digit, `:` or `-`. */
  lemma KeyCharsOf(t: string)
    ensures IsCellKey(t) ==> forall i :: 0 <= i < |t| ==> KeyChar(t[i])
  {
    if IsCellKey(t) {
      var c := CellOf(t);
      CellKeyChars(c.0, c.1);
    }
  }
}
