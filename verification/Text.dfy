/**
 * The string operations the survey relies on, with Python's meaning:
 * `str.isspace`, `str.strip`, `str.replace(c, "")`, `", ".join(...)` and the
 * separator split `re.split(r"\s*,\s*", s)` applied to stored selections.
 */
module Text {

  /** Python's `str.isspace()` for one character; the regex class `\s` on str
      patterns matches exactly the same characters. */
  predicate IsSpace(c: char) {
    || ('\t' <= c <= '\r')
    || ('\U{1C}' <= c <= ' ')
    || c == '\U{85}' || c == '\U{A0}' || c == '\U{1680}'
    || ('\U{2000}' <= c <= '\U{200A}')
    || c == '\U{2028}' || c == '\U{2029}' || c == '\U{202F}' || c == '\U{205F}'
    || c == '\U{3000}'
  }

  /** Position of the first `x` in `s`, or `|s|` when there is none
      (Python's `in` test and `list.index` in one). */
  function IndexOf<T(==)>(s: seq<T>, x: T): (i: nat)
    ensures i <= |s|
    ensures i < |s| ==> s[i] == x
    ensures x !in s[..i]
    ensures i == |s| <==> x !in s
  {
    if s == [] then 0
    else if s[0] == x then 0
    else
      var i := 1 + IndexOf(s[1..], x);
      assert s[..i] == [s[0]] + s[1..][..i - 1];
      i
  }

  /** An `x` with no `x` before it is found where it is. */
  lemma {:induction false} IndexOfAt<T>(s: seq<T>, x: T, j: nat)
    requires j < |s| && s[j] == x && x !in s[..j]
    ensures IndexOf(s, x) == j
  {
    if j > 0 {
      assert s[0] == s[..j][0];
      assert s[1..][..j - 1] == s[..j][1..];
      IndexOfAt(s[1..], x, j - 1);
    }
  }

  /** Every character of `t` is whitespace. */
  predicate AllSpace(t: string) {
    forall i :: 0 <= i < |t| ==> IsSpace(t[i])
  }

  /** `s.lstrip()`: drops the leading whitespace run and nothing else. */
  function TrimLeft(s: string): (r: string)
    ensures |r| <= |s| && r == s[|s| - |r|..]
    ensures AllSpace(s[..|s| - |r|])
    ensures r == [] || !IsSpace(r[0])
  {
    if s != [] && IsSpace(s[0]) then
      var t := s[1..];
      var r := TrimLeft(t);
      assert t[|t| - |r|..] == s[|s| - |r|..];
      assert s[..|s| - |r|] == [s[0]] + t[..|t| - |r|];
      r
    else s
  }

  /** `s.rstrip()`: drops the trailing whitespace run and nothing else. */
  function TrimRight(s: string): (r: string)
    ensures |r| <= |s| && r == s[..|r|]
    ensures AllSpace(s[|r|..])
    ensures r == [] || !IsSpace(r[|r| - 1])
  {
    if s != [] && IsSpace(s[|s| - 1]) then
      var r := TrimRight(s[..|s| - 1]);
      assert s[|r|..] == s[..|s| - 1][|r|..] + [s[|s| - 1]];
      r
    else s
  }

  /** `s.strip()`: the infix of `s` left after removing the whitespace run at
      each end, so it neither starts nor ends with whitespace and keeps every
      other character; a string that is already trimmed is left alone. */
  function Strip(s: string): (r: string)
    ensures exists i, j :: 0 <= i <= j <= |s| && r == s[i..j] && AllSpace(s[..i]) && AllSpace(s[j..])
    ensures r == [] || (!IsSpace(r[0]) && !IsSpace(r[|r| - 1]))
    ensures forall x :: !IsSpace(x) ==> multiset(r)[x] == multiset(s)[x]
    ensures (s == [] || (!IsSpace(s[0]) && !IsSpace(s[|s| - 1]))) ==> r == s
    ensures AllSpace(s) ==> r == []
  {
    StripSpec(s, TrimLeft(s), TrimRight(TrimLeft(s)));
    TrimRight(TrimLeft(s))
  }

  /** What `rstrip` after `lstrip` leaves, from what each trim promises. */
  lemma StripSpec(s: string, l: string, r: string)
    requires |l| <= |s| && l == s[|s| - |l|..] && AllSpace(s[..|s| - |l|]) && (l == [] || !IsSpace(l[0]))
    requires |r| <= |l| && r == l[..|r|] && AllSpace(l[|r|..]) && (r == [] || !IsSpace(r[|r| - 1]))
    ensures exists i, j :: 0 <= i <= j <= |s| && r == s[i..j] && AllSpace(s[..i]) && AllSpace(s[j..])
    ensures r == [] || (!IsSpace(r[0]) && !IsSpace(r[|r| - 1]))
    ensures forall x :: !IsSpace(x) ==> multiset(r)[x] == multiset(s)[x]
    ensures (s == [] || (!IsSpace(s[0]) && !IsSpace(s[|s| - 1]))) ==> r == s
    ensures AllSpace(s) ==> r == []
  {
    TrimInfix(s, l, r);
    TrimEnds(s, l, r);
  }

  /** How the two trims meet: the result has no whitespace at either end, is
      the whole string when that already had none, and is empty when the
      string is all whitespace. */
  lemma TrimEnds(s: string, l: string, r: string)
    requires |l| <= |s| && l == s[|s| - |l|..] && AllSpace(s[..|s| - |l|]) && (l == [] || !IsSpace(l[0]))
    requires |r| <= |l| && r == l[..|r|] && AllSpace(l[|r|..]) && (r == [] || !IsSpace(r[|r| - 1]))
    ensures r == [] || (!IsSpace(r[0]) && !IsSpace(r[|r| - 1]))
    ensures (s == [] || (!IsSpace(s[0]) && !IsSpace(s[|s| - 1]))) ==> r == s
    ensures AllSpace(s) ==> r == []
  {
    if r != [] {
      assert r[0] == l[0];
    }
    if l != [] {
      assert l[0] == s[|s| - |l|];
      assert l[|l| - 1] == s[|s| - 1];
    }
    if |l| < |s| {
      assert s[..|s| - |l|][0] == s[0];
    }
    if |r| < |l| {
      assert l[|r|..][|l| - |r| - 1] == l[|l| - 1];
    }
  }

  /** A whitespace-bounded prefix of a whitespace-bounded suffix is an
      infix between two whitespace runs, holding every other character. */
  lemma TrimInfix(s: string, l: string, r: string)
    requires |l| <= |s| && l == s[|s| - |l|..] && AllSpace(s[..|s| - |l|])
    requires |r| <= |l| && r == l[..|r|] && AllSpace(l[|r|..])
    ensures exists i, j :: 0 <= i <= j <= |s| && r == s[i..j] && AllSpace(s[..i]) && AllSpace(s[j..])
    ensures forall x :: !IsSpace(x) ==> multiset(r)[x] == multiset(s)[x]
  {
    var i, j := |s| - |l|, |s| - |l| + |r|;
    SliceOfSuffix(s, i, |r|);
    assert r == s[i..j] && AllSpace(s[..i]) && AllSpace(s[j..]);
    PaddedInfix(s, i, j);
  }

  lemma SliceOfSuffix(s: string, i: nat, k: nat)
    requires i + k <= |s|
    ensures s[i..][..k] == s[i..i + k]
    ensures s[i..][k..] == s[i + k..]
  {
  }

  /** A run of whitespace holds no other character. */
  lemma SpaceOnly(t: string, x: char)
    requires AllSpace(t) && !IsSpace(x)
    ensures multiset(t)[x] == 0
  {
    assert x !in t by {
      forall k | 0 <= k < |t| ensures t[k] != x {
        assert IsSpace(t[k]);
      }
    }
  }

  /** Cutting whitespace off both ends keeps every other character. */
  lemma PaddedInfix(s: string, i: nat, j: nat)
    requires i <= j <= |s|
    requires AllSpace(s[..i]) && AllSpace(s[j..])
    ensures forall x :: !IsSpace(x) ==> multiset(s[i..j])[x] == multiset(s)[x]
  {
    assert s == s[..i] + s[i..j] + s[j..];
    forall x | !IsSpace(x) ensures multiset(s[i..j])[x] == multiset(s)[x] {
      SpaceOnly(s[..i], x);
      SpaceOnly(s[j..], x);
    }
  }

  /** Leading whitespace in front of `x` does not survive `lstrip`. */
  lemma {:induction false} TrimLeftSpaces(pre: string, x: string)
    requires AllSpace(pre)
    ensures TrimLeft(pre + x) == TrimLeft(x)
    decreases |pre|
  {
    if pre == [] {
      assert pre + x == x;
    } else {
      assert IsSpace(pre[0]);
      assert (pre + x)[0] == pre[0];
      assert (pre + x)[1..] == pre[1..] + x;
      TrimLeftSpaces(pre[1..], x);
    }
  }

  /** `lstrip` of `a + b` stops inside `a` unless `a` is all whitespace and
      `b` starts with whitespace. */
  lemma {:induction false} TrimLeftAppend(a: string, b: string)
    requires TrimLeft(a) != [] || b == [] || !IsSpace(b[0])
    ensures TrimLeft(a + b) == TrimLeft(a) + b
    decreases |a|
  {
    if a == [] {
      assert a + b == b;
    } else {
      assert (a + b)[0] == a[0];
      if IsSpace(a[0]) {
        assert (a + b)[1..] == a[1..] + b;
        TrimLeftAppend(a[1..], b);
      }
    }
  }

  /** Trailing whitespace after `x` does not survive `rstrip`. */
  lemma {:induction false} TrimRightSpaces(x: string, suf: string)
    requires AllSpace(suf)
    ensures TrimRight(x + suf) == TrimRight(x)
    decreases |suf|
  {
    if suf == [] {
      assert x + suf == x;
    } else {
      var t := x + suf;
      assert IsSpace(suf[|suf| - 1]);
      assert t[|t| - 1] == suf[|suf| - 1];
      assert t[..|t| - 1] == x + suf[..|suf| - 1];
      TrimRightSpaces(x, suf[..|suf| - 1]);
    }
  }

  /** `strip` ignores whitespace padding on either side. */
  lemma StripPadded(pre: string, x: string, suf: string)
    requires AllSpace(pre) && AllSpace(suf)
    ensures Strip(pre + x + suf) == Strip(x)
  {
    TrimBothPadded(pre, x, suf);
  }

  lemma TrimBothPadded(pre: string, x: string, suf: string)
    requires AllSpace(pre) && AllSpace(suf)
    ensures TrimRight(TrimLeft(pre + x + suf)) == TrimRight(TrimLeft(x))
  {
    ConcatAssoc(pre, x, suf);
    TrimLeftSpaces(pre, x + suf);
    TrimBothPaddedRight(x, suf);
  }

  lemma TrimBothPaddedRight(x: string, suf: string)
    requires AllSpace(suf)
    ensures TrimRight(TrimLeft(x + suf)) == TrimRight(TrimLeft(x))
  {
    var l := TrimLeft(x);
    if l == [] {
      assert x[..|x|] == x;
      AllSpaceConcat(x, suf);
      AllSpaceTrimsAway(x + suf);
    } else {
      TrimLeftAppend(x, suf);
      TrimRightSpaces(l, suf);
    }
  }

  /** `lstrip` of whitespace alone leaves nothing. */
  lemma AllSpaceTrimsAway(t: string)
    requires AllSpace(t)
    ensures TrimLeft(t) == []
  {
    TrimLeftSpaces(t, []);
    assert t + [] == t;
  }

  lemma ConcatAssoc<T>(a: seq<T>, b: seq<T>, c: seq<T>)
    ensures a + b + c == a + (b + c)
  {
  }

  /** Two whitespace runs make one. */
  lemma AllSpaceConcat(a: string, b: string)
    requires AllSpace(a) && AllSpace(b)
    ensures AllSpace(a + b)
  {
    forall k | 0 <= k < |a + b| ensures IsSpace((a + b)[k]) {
      if k < |a| {
        assert (a + b)[k] == a[k];
      } else {
        assert (a + b)[k] == b[k - |a|];
      }
    }
  }

  /** `s.replace(c, "")`: every `c` removed, every other character kept in
      order. */
  function RemoveChar(s: string, c: char): (r: string)
    ensures c !in r
    ensures forall x :: x != c ==> multiset(r)[x] == multiset(s)[x]
    ensures c !in s ==> r == s
  {
    if s == [] then []
    else
      assert s == [s[0]] + s[1..];
      (if s[0] == c then [] else [s[0]]) + RemoveChar(s[1..], c)
  }

  /** `replace` works piece by piece, so it keeps the order of what it keeps. */
  lemma {:induction false} RemoveCharConcat(a: string, b: string, c: char)
    ensures RemoveChar(a + b, c) == RemoveChar(a, c) + RemoveChar(b, c)
    decreases |a|
  {
    if a == [] {
      assert a + b == b;
    } else {
      assert (a + b)[0] == a[0];
      assert (a + b)[1..] == a[1..] + b;
      RemoveCharConcat(a[1..], b, c);
    }
  }

  /** `sep.join(parts)`. */
  function Join(parts: seq<string>, sep: string): string {
    if |parts| == 0 then ""
    else if |parts| == 1 then parts[0]
    else parts[0] + sep + Join(parts[1..], sep)
  }

  /** `s.split(sep)` for a one-character separator: the pieces between the
      separators, which joined back with `sep` give `s`. */
  function SplitOn(s: string, sep: char): (parts: seq<string>)
    ensures |parts| >= 1
    ensures Join(parts, [sep]) == s
    ensures forall p :: p in parts ==> sep !in p
    decreases |s|
  {
    var j := IndexOf(s, sep);
    if j == |s| then [s]
    else
      var rest := SplitOn(s[j + 1..], sep);
      assert s == s[..j] + [sep] + s[j + 1..];
      assert ([s[..j]] + rest)[1..] == rest;
      [s[..j]] + rest
  }

  /** Trimming skips a leading whitespace character; a string that starts
      with no whitespace is already trimmed. */
  lemma TrimLeftSpace(c: char, t: string)
    requires IsSpace(c)
    requires t == [] || !IsSpace(t[0])
    ensures TrimLeft([c] + t) == t
  {
    assert ([c] + t)[1..] == t;
  }

  /** Trimming leading whitespace never removes a non-space character. */
  lemma TrimLeftKeeps(s: string, c: char)
    requires !IsSpace(c)
    ensures multiset(TrimLeft(s))[c] == multiset(s)[c]
  {
    var r := TrimLeft(s);
    var pre := s[..|s| - |r|];
    assert s == pre + r;
    assert multiset(s) == multiset(pre) + multiset(r);
    assert c !in pre by {
      forall i | 0 <= i < |pre| ensures pre[i] != c {
        assert IsSpace(pre[i]);
      }
    }
  }

  /** The commas of `s` are the one at `j` and those of the rest after it;
      the piece before `j` holds none. */
  lemma SeparatorStep(s: string, j: nat)
    requires j < |s| && s[j] == ',' && ',' !in s[..j]
    ensures multiset(s)[','] == multiset(TrimLeft(s[j + 1..]))[','] + 1
    ensures ',' !in TrimRight(s[..j])
  {
    assert s == s[..j] + [','] + s[j + 1..];
    TrimLeftKeeps(s[j + 1..], ',');
    var head := TrimRight(s[..j]);
    forall i | 0 <= i < |head| ensures head[i] != ',' {
      assert head[i] == s[..j][i];
    }
  }

  /**
   * `re.split(r"\s*,\s*", s)`. The leftmost match of the pattern starts at the
   * whitespace run just before the first comma and, being greedy, ends after
   * the whitespace run just after it; the search then resumes on the rest.
   * So every piece but the last loses its trailing whitespace, every piece but
   * the first loses its leading whitespace, and there is always one piece
   * more than there are commas (an empty `s` gives `[""]`, see SplitCount).
   */
  function SplitSeparators(s: string): (parts: seq<string>)
    ensures |parts| >= 1
    decreases |s|
  {
    var j := IndexOf(s, ',');
    if j == |s| then [s]
    else [TrimRight(s[..j])] + SplitSeparators(TrimLeft(s[j + 1..]))
  }

  /** The split takes the first comma, wherever it is, as the first separator. */
  lemma SplitAtFirstComma(s: string, j: nat)
    requires j < |s| && s[j] == ',' && ',' !in s[..j]
    ensures SplitSeparators(s) == [TrimRight(s[..j])] + SplitSeparators(TrimLeft(s[j + 1..]))
  {
    IndexOfAt(s, ',', j);
  }

  /** The split yields one piece more than the text has commas, and no piece
      holds a comma. */
  lemma {:induction false} SplitCount(s: string)
    ensures |SplitSeparators(s)| == multiset(s)[','] + 1
    ensures forall p :: p in SplitSeparators(s) ==> ',' !in p
    decreases |s|
  {
    var j := IndexOf(s, ',');
    if j < |s| {
      var rest := TrimLeft(s[j + 1..]);
      SeparatorStep(s, j);
      SplitAtFirstComma(s, j);
      SplitCount(rest);
      assert SplitSeparators(s) == [TrimRight(s[..j])] + SplitSeparators(rest);
    } else {
      assert SplitSeparators(s) == [s];
      assert multiset(s)[','] == 0;
    }
  }
}
