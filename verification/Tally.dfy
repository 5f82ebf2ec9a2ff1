/**
 * The tally of decoded tokens: `value_counts()` gives each distinct label with
 * the number of tokens equal to it, most frequent first, and `head(3)` keeps
 * the three most frequent labels.
 */
module Tally {

  /** How many tokens are exactly `item`. */
  function Count(tokens: seq<string>, item: string): nat {
    multiset(tokens)[item]
  }

  /** In a sequence without repeats every element occurs once. */
  lemma {:induction false} CountOnce(s: seq<string>, x: string)
    requires forall i, j :: 0 <= i < j < |s| ==> s[i] != s[j]
    ensures Count(s, x) == if x in s then 1 else 0
  {
    if s != [] {
      var prefix := s[..|s| - 1];
      assert s == prefix + [s[|s| - 1]];
      CountOnce(prefix, x);
      assert s[|s| - 1] !in prefix;
    }
  }

  /** Counting over two runs of tokens adds up. */
  lemma CountConcat(a: seq<string>, b: seq<string>, x: string)
    ensures Count(a + b, x) == Count(a, x) + Count(b, x)
  {
    assert multiset(a + b) == multiset(a) + multiset(b);
  }

  /** A tally entry: a label and its count. */
  type Entry = (string, nat)

  function Labels(entries: seq<Entry>): (labels: seq<string>)
    ensures |labels| == |entries|
    ensures forall i :: 0 <= i < |entries| ==> labels[i] == entries[i].0
  {
    seq(|entries|, i requires 0 <= i < |entries| => entries[i].0)
  }

  predicate DistinctLabels(entries: seq<Entry>) {
    forall i, j :: 0 <= i < j < |entries| ==> entries[i].0 != entries[j].0
  }

  /** Counts never increase along the tally. */
  predicate Descending(entries: seq<Entry>) {
    forall i, j :: 0 <= i < j < |entries| ==> entries[i].1 >= entries[j].1
  }

  /** Every entry carries its label's count over `tokens`. */
  predicate CountsOf(tokens: seq<string>, entries: seq<Entry>) {
    forall i :: 0 <= i < |entries| ==> entries[i].1 == Count(tokens, entries[i].0)
  }

  /**
   * What `value_counts()` promises: one entry per distinct token, each with
   * its number of occurrences, in non-increasing order of count. The order
   * among equal counts is not fixed.
   */
  ghost predicate IsValueCounts(tokens: seq<string>, entries: seq<Entry>) {
    && CountsOf(tokens, entries)
    && Descending(entries)
    && DistinctLabels(entries)
    && (forall t :: t in Labels(entries) <==> t in tokens)
  }

  /** The distinct tokens, in order of first occurrence. */
  function Distinct(tokens: seq<string>): (labels: seq<string>)
    ensures forall t :: t in labels <==> t in tokens
    ensures forall i, j :: 0 <= i < j < |labels| ==> labels[i] != labels[j]
  {
    if tokens == [] then []
    else
      var prefix := tokens[..|tokens| - 1];
      var last := tokens[|tokens| - 1];
      assert tokens == prefix + [last];
      var seen := Distinct(prefix);
      if last in seen then seen else seen + [last]
  }

  /** Places `e` after every entry counted at least as often (a stable
      insertion into a descending tally). */
  function Insert(e: Entry, entries: seq<Entry>): (r: seq<Entry>)
    ensures multiset(r) == multiset(entries) + multiset{e}
    ensures |r| == |entries| + 1
  {
    if entries == [] then [e]
    else if e.1 > entries[0].1 then [e] + entries
    else
      assert entries == [entries[0]] + entries[1..];
      [entries[0]] + Insert(e, entries[1..])
  }

  /** An entry counted at least as often as every entry of a descending
      tally can go in front of it. */
  lemma DescendingCons(x: Entry, entries: seq<Entry>)
    requires Descending(entries)
    requires forall j :: 0 <= j < |entries| ==> x.1 >= entries[j].1
    ensures Descending([x] + entries)
  {
    var r := [x] + entries;
    forall i, j | 0 <= i < j < |r| ensures r[i].1 >= r[j].1 {
      assert r[j] == entries[j - 1];
      if i > 0 {
        assert r[i] == entries[i - 1];
      }
    }
  }

  lemma {:induction false} InsertDescending(e: Entry, entries: seq<Entry>)
    requires Descending(entries)
    ensures Descending(Insert(e, entries))
  {
    if entries == [] {
    } else if e.1 > entries[0].1 {
      DescendingCons(e, entries);
    } else {
      var head, tail := entries[0], entries[1..];
      var rest := Insert(e, tail);
      InsertDescending(e, tail);
      forall j | 0 <= j < |rest| ensures head.1 >= rest[j].1 {
        assert rest[j] in multiset(tail) + multiset{e};
      }
      DescendingCons(head, rest);
    }
  }

  /** An entry with a new label can go in front of a tally with distinct
      labels. */
  lemma DistinctCons(x: Entry, entries: seq<Entry>)
    requires DistinctLabels(entries)
    requires forall j :: 0 <= j < |entries| ==> entries[j].0 != x.0
    ensures DistinctLabels([x] + entries)
  {
    var r := [x] + entries;
    forall i, j | 0 <= i < j < |r| ensures r[i].0 != r[j].0 {
      assert r[j] == entries[j - 1];
      if i > 0 {
        assert r[i] == entries[i - 1];
      }
    }
  }

  /** Inserting an entry whose label is new keeps the labels distinct. */
  lemma {:induction false} InsertDistinct(e: Entry, entries: seq<Entry>)
    requires DistinctLabels(entries)
    requires forall i :: 0 <= i < |entries| ==> entries[i].0 != e.0
    ensures DistinctLabels(Insert(e, entries))
  {
    if entries == [] {
    } else if e.1 > entries[0].1 {
      DistinctCons(e, entries);
    } else {
      var head, tail := entries[0], entries[1..];
      var rest := Insert(e, tail);
      InsertDistinct(e, tail);
      forall j | 0 <= j < |rest| ensures head.0 != rest[j].0 {
        assert rest[j] in multiset(tail) + multiset{e};
      }
      DistinctCons(head, rest);
    }
  }

  /** The tally entries sorted by count, most frequent first. */
  function SortByCount(entries: seq<Entry>): (r: seq<Entry>)
    ensures multiset(r) == multiset(entries)
    ensures |r| == |entries|
  {
    if entries == [] then []
    else
      assert entries == [entries[0]] + entries[1..];
      Insert(entries[0], SortByCount(entries[1..]))
  }

  /** Sorting yields a descending tally and keeps distinct labels distinct. */
  lemma {:induction false} SortDescending(entries: seq<Entry>)
    ensures Descending(SortByCount(entries))
    ensures DistinctLabels(entries) ==> DistinctLabels(SortByCount(entries))
  {
    if entries != [] {
      var sorted := SortByCount(entries[1..]);
      SortDescending(entries[1..]);
      InsertDescending(entries[0], sorted);
      if DistinctLabels(entries) {
        assert DistinctLabels(entries[1..]);
        forall i | 0 <= i < |sorted| ensures sorted[i].0 != entries[0].0 {
          assert sorted[i] in multiset(entries[1..]);
        }
        InsertDistinct(entries[0], sorted);
      }
    }
  }

  /** Each distinct token paired with its count. */
  function Tallied(tokens: seq<string>): (tallied: seq<Entry>)
    ensures DistinctLabels(tallied) && CountsOf(tokens, tallied)
    ensures forall t :: t in Labels(tallied) <==> t in tokens
  {
    var labels := Distinct(tokens);
    var tallied := seq(|labels|, i requires 0 <= i < |labels| => (labels[i], Count(tokens, labels[i])));
    assert Labels(tallied) == labels;
    tallied
  }

  /** Sorting keeps the entries, so it keeps the labels, the counts and the
      label set. */
  lemma SortKeeps(tokens: seq<string>, entries: seq<Entry>)
    requires CountsOf(tokens, entries)
    ensures CountsOf(tokens, SortByCount(entries))
    ensures forall t :: t in Labels(SortByCount(entries)) <==> t in Labels(entries)
  {
    var sorted := SortByCount(entries);
    forall i | 0 <= i < |sorted| ensures sorted[i].1 == Count(tokens, sorted[i].0) {
      assert sorted[i] in multiset(entries);
    }
    forall t ensures t in Labels(sorted) ==> t in Labels(entries) {
      if t in Labels(sorted) {
        var j :| 0 <= j < |sorted| && Labels(sorted)[j] == t;
        assert sorted[j] in multiset(entries);
        var i :| 0 <= i < |entries| && entries[i] == sorted[j];
        assert Labels(entries)[i] == t;
      }
    }
    forall t ensures t in Labels(entries) ==> t in Labels(sorted) {
      if t in Labels(entries) {
        var i :| 0 <= i < |entries| && Labels(entries)[i] == t;
        assert entries[i] in multiset(sorted);
        var j :| 0 <= j < |sorted| && sorted[j] == entries[i];
        assert Labels(sorted)[j] == t;
      }
    }
  }

  /** `value_counts()`: the distinct tokens with their counts, sorted by count. */
  function ValueCounts(tokens: seq<string>): (vc: seq<Entry>)
    ensures IsValueCounts(tokens, vc)
  {
    var tallied := Tallied(tokens);
    SortDescending(tallied);
    SortKeeps(tokens, tallied);
    SortByCount(tallied)
  }

  /** The number of ranked slots shown. */
  const TopCount: nat := 3

  /** `counts.head(n)`. */
  function Top(entries: seq<Entry>, n: nat): (top: seq<Entry>)
    ensures |top| == if |entries| < n then |entries| else n
    ensures top == entries[..|top|]
  {
    if |entries| < n then entries else entries[..n]
  }

  /**
   * The top-`n` ranking: at most `n` distinct labels, each from the tokens
   * with its exact count, most frequent first, and no label left out that
   * occurs more often than one kept; a label is left out only when `n`
   * labels were kept.
   */
  ghost predicate IsTop(tokens: seq<string>, top: seq<Entry>, n: nat) {
    && |top| <= n
    && CountsOf(tokens, top)
    && Descending(top)
    && DistinctLabels(top)
    && (forall i :: 0 <= i < |top| ==> top[i].0 in tokens)
    && (forall t :: t in tokens && t !in Labels(top) ==>
          |top| == n && forall i :: 0 <= i < |top| ==> Count(tokens, t) <= top[i].1)
  }

  /** The head of any value count is a top-`n` ranking. */
  lemma TopOfValueCounts(tokens: seq<string>, vc: seq<Entry>, n: nat)
    requires IsValueCounts(tokens, vc)
    ensures IsTop(tokens, Top(vc, n), n)
  {
    var top := Top(vc, n);
    forall i | 0 <= i < |top| ensures top[i].0 in tokens {
      assert Labels(vc)[i] == top[i].0;
    }
    assert forall k :: 0 <= k < |top| ==> Labels(vc)[k] in Labels(top) by {
      forall k | 0 <= k < |top| ensures Labels(vc)[k] in Labels(top) {
        assert Labels(top)[k] == Labels(vc)[k];
      }
    }
    forall t | t in tokens && t !in Labels(top)
      ensures |top| == n && forall i :: 0 <= i < |top| ==> Count(tokens, t) <= top[i].1
    {
      var j :| 0 <= j < |vc| && Labels(vc)[j] == t;
      assert j >= |top|;
    }
  }
}
