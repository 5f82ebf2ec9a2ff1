/**
 * The slot codec: a submission's selected keys are stored as one text field
 * joined by ", ", and the heat map view reads every stored field back by
 * splitting on a comma with optional surrounding whitespace, deleting the
 * hour decoration `～` and stripping each token.
 */
module Codec {
  import opened Text
  import opened Catalog

  /** The separator the submission joins keys with. */
  const Separator: string := ", "

  /** The decoration the grid shows after an hour (`f"{hour}～"`); the reader
      deletes it wherever it occurs in a token. */
  const HourMark: char := '～'

  /** `", ".join(selected_slots)`: with comma-free keys, the field holds one
      comma between each two keys and no other. */
  function Encode(keys: seq<string>): (field: string)
    ensures (forall k :: k in keys ==> ',' !in k) ==> multiset(field)[','] == if keys == [] then 0 else |keys| - 1
  {
    SeparatorCommas(keys);
    Join(keys, Separator)
  }

  lemma {:induction false} SeparatorCommas(keys: seq<string>)
    ensures (forall k :: k in keys ==> ',' !in k) ==> multiset(Join(keys, Separator))[','] == if keys == [] then 0 else |keys| - 1
  {
    if |keys| >= 2 && forall k :: k in keys ==> ',' !in k {
      var rest := keys[1..];
      assert keys[0] in keys;
      assert forall k :: k in rest ==> k in keys;
      SeparatorCommas(rest);
      assert Separator == [','] + [' '];
      assert multiset(Join(keys, Separator)) == multiset(keys[0]) + multiset(Separator) + multiset(Join(rest, Separator));
    } else if |keys| == 1 && forall k :: k in keys ==> ',' !in k {
      assert keys[0] in keys;
    }
  }

  /** A token as the reader leaves it: no `～`, no comma, no whitespace at
      either end. */
  predicate Cleaned(t: string) {
    HourMark !in t && ',' !in t && (t == [] || (!IsSpace(t[0]) && !IsSpace(t[|t| - 1])))
  }

  /** Deleting `～` adds no comma. */
  lemma CommaFree(token: string, without: string)
    requires without == RemoveChar(token, HourMark)
    ensures ',' !in token ==> ',' !in without
  {
    assert multiset(without)[','] == multiset(token)[','];
  }

  /** `.str.replace("～", "").str.strip()` on one token: every `～` and the
      whitespace at both ends go, every other character stays; a token with
      neither is left as it is. */
  function Clean(token: string): (r: string)
    ensures HourMark !in r
    ensures ',' !in token ==> Cleaned(r)
    ensures forall x :: x != HourMark && !IsSpace(x) ==> multiset(r)[x] == multiset(token)[x]
    ensures HourMark !in token && (token == [] || (!IsSpace(token[0]) && !IsSpace(token[|token| - 1]))) ==> r == token
  {
    var without := RemoveChar(token, HourMark);
    CommaFree(token, without);
    Strip(without)
  }

  /** A whitespace run holds no `～`, so `replace` leaves it alone. */
  lemma NoMarkInSpace(t: string)
    requires AllSpace(t)
    ensures RemoveChar(t, HourMark) == t
  {
    SpaceOnly(t, HourMark);
  }

  /** Cleaning ignores whitespace padding around a token. */
  lemma CleanPadded(pre: string, x: string, suf: string)
    requires AllSpace(pre) && AllSpace(suf)
    ensures Clean(pre + x + suf) == Clean(x)
  {
    RemoveCharConcat(pre + x, suf, HourMark);
    RemoveCharConcat(pre, x, HourMark);
    NoMarkInSpace(pre);
    NoMarkInSpace(suf);
    StripPadded(pre, RemoveChar(x, HourMark), suf);
  }

  /** Cleaning a piece after `lstrip` gives what cleaning the piece gives. */
  lemma CleanTrimLeft(p: string)
    ensures Clean(TrimLeft(p)) == Clean(p)
  {
    var l := TrimLeft(p);
    var k := |p| - |l|;
    var pre := p[..k];
    assert l == p[k..] && AllSpace(pre);
    assert pre + l + [] == p;
    CleanPadded(pre, l, []);
  }

  /** Cleaning a piece after `rstrip` gives what cleaning the piece gives. */
  lemma CleanTrimRight(p: string)
    ensures Clean(TrimRight(p)) == Clean(p)
  {
    var r := TrimRight(p);
    var suf := p[|r|..];
    assert r == p[..|r|] && AllSpace(suf);
    assert [] + r + suf == p;
    CleanPadded([], r, suf);
  }

  /**
   * The tokens one stored selection field contributes:
   * `re.split(r"\s*,\s*", field)`, then `Clean` on each piece. There is one
   * token more than the field has commas, so a field always gives at least one
   * token; an empty field gives the single empty token.
   */
  function Decode(field: string): (tokens: seq<string>)
    ensures |tokens| == multiset(field)[','] + 1
    ensures forall t :: t in tokens ==> Cleaned(t)
  {
    var parts := SplitSeparators(field);
    SplitCount(field);
    seq(|parts|, i requires 0 <= i < |parts| => Clean(parts[i]))
  }

  /** Where the comma sits in `k + "," + tail`. */
  lemma CommaAt(k: string, tail: string)
    ensures (k + "," + tail)[..|k|] == k
    ensures (k + "," + tail)[|k|] == ','
    ensures (k + "," + tail)[|k| + 1..] == tail
  {
    var s := k + "," + tail;
    assert s == (k + [',']) + tail;
    assert s[..|k| + 1] == k + [','];
  }

  /** One step of the split on comma-joined pieces: the first piece comes off
      without its trailing whitespace, and the split resumes at the second
      piece without its leading whitespace. */
  lemma SplitCommaStep(p: string, q: string, more: seq<string>)
    requires ',' !in p
    ensures SplitSeparators(Join([p, q] + more, ",")) == [TrimRight(p)] + SplitSeparators(Join([TrimLeft(q)] + more, ","))
  {
    var rest := Join([q] + more, ",");
    var field := p + "," + rest;
    assert ([p, q] + more)[1..] == [q] + more;
    assert Join([p, q] + more, ",") == field;
    CommaAt(p, rest);
    SplitAtFirstComma(field, |p|);
    TrimLeftJoin(q, more);
  }

  /** Trimming the second of several comma-free pieces and dropping the first
      leaves comma-free pieces. */
  lemma CommaFreeRest(pieces: seq<string>)
    requires |pieces| >= 2
    requires forall p :: p in pieces ==> ',' !in p
    ensures forall p :: p in [TrimLeft(pieces[1])] + pieces[2..] ==> ',' !in p
  {
    assert pieces[1] in pieces;
    TrimLeftKeeps(pieces[1], ',');
    forall p | p in pieces[2..] ensures ',' !in p {
      var k :| 0 <= k < |pieces[2..]| && pieces[2..][k] == p;
      assert pieces[k + 2] == p;
    }
  }

  /** A piece with its whitespace removed next to the commas around it: on the
      left when a comma precedes it, on the right when one follows it. */
  function TrimAtCommas(p: string, commaBefore: bool, commaAfter: bool): string {
    var q := if commaBefore then TrimLeft(p) else p;
    if commaAfter then TrimRight(q) else q
  }

  /** Splitting comma-joined, comma-free pieces on `\s*,\s*` gives each piece
      with the whitespace next to its commas removed, and nothing else. */
  lemma {:induction false} SplitPieces(pieces: seq<string>)
    requires |pieces| > 0
    requires forall p :: p in pieces ==> ',' !in p
    ensures |SplitSeparators(Join(pieces, ","))| == |pieces|
    ensures forall i :: 0 <= i < |pieces| ==>
      SplitSeparators(Join(pieces, ","))[i] == TrimAtCommas(pieces[i], i > 0, i < |pieces| - 1)
    decreases |pieces|
  {
    var p := pieces[0];
    assert p in pieces;
    if |pieces| == 1 {
      assert IndexOf(p, ',') == |p|;
      assert SplitSeparators(p) == [p];
    } else {
      var q, more := pieces[1], pieces[2..];
      assert pieces == [p, q] + more;
      var qs := [TrimLeft(q)] + more;
      SplitCommaStep(p, q, more);
      CommaFreeRest(pieces);
      SplitPieces(qs);
      var parts := SplitSeparators(Join(pieces, ","));
      var tail := SplitSeparators(Join(qs, ","));
      assert parts == [TrimRight(p)] + tail;
      TrimShift(pieces, parts, tail, qs);
    }
  }

  /** Trimming at the commas agrees with the split's first step: the first
      piece loses its trailing whitespace and the rest are trimmed as pieces
      of the shorter run that starts with the left-trimmed second piece. */
  lemma TrimShift(pieces: seq<string>, parts: seq<string>, tail: seq<string>, qs: seq<string>)
    requires |pieces| >= 2
    requires parts == [TrimRight(pieces[0])] + tail
    requires qs == [TrimLeft(pieces[1])] + pieces[2..]
    requires |tail| == |qs|
    requires forall i :: 0 <= i < |qs| ==> tail[i] == TrimAtCommas(qs[i], i > 0, i < |qs| - 1)
    ensures |parts| == |pieces|
    ensures forall i :: 0 <= i < |pieces| ==> parts[i] == TrimAtCommas(pieces[i], i > 0, i < |pieces| - 1)
  {
    forall i | 0 <= i < |pieces| ensures parts[i] == TrimAtCommas(pieces[i], i > 0, i < |pieces| - 1) {
      if i > 0 {
        assert parts[i] == tail[i - 1];
        if i > 1 {
          assert qs[i - 1] == pieces[i];
        }
      }
    }
  }

  /**
   * `re.split(r"\s*,\s*", s)` is `s.split(",")` with the whitespace removed
   * next to every comma: piece i loses its leading whitespace unless it is the
   * first and its trailing whitespace unless it is the last.
   */
  lemma SplitSegments(s: string)
    ensures |SplitSeparators(s)| == |SplitOn(s, ',')|
    ensures forall i :: 0 <= i < |SplitOn(s, ',')| ==>
      SplitSeparators(s)[i] == TrimAtCommas(SplitOn(s, ',')[i], i > 0, i < |SplitOn(s, ',')| - 1)
  {
    assert [','] == ",";
    SplitPieces(SplitOn(s, ','));
  }

  /** Splitting comma-joined pieces on `\s*,\s*` gives one part per piece,
      each cleaning to what its piece cleans to. */
  lemma SplitCommaPieces(pieces: seq<string>)
    requires |pieces| > 0
    requires forall p :: p in pieces ==> ',' !in p
    ensures |SplitSeparators(Join(pieces, ","))| == |pieces|
    ensures forall i :: 0 <= i < |pieces| ==> Clean(SplitSeparators(Join(pieces, ","))[i]) == Clean(pieces[i])
  {
    SplitPieces(pieces);
    var parts := SplitSeparators(Join(pieces, ","));
    forall i | 0 <= i < |pieces| ensures Clean(parts[i]) == Clean(pieces[i]) {
      CleanTrimAtCommas(pieces[i], i > 0, i < |pieces| - 1);
    }
  }

  /** Cleaning ignores the whitespace the split removes beside the commas. */
  lemma CleanTrimAtCommas(p: string, commaBefore: bool, commaAfter: bool)
    ensures Clean(TrimAtCommas(p, commaBefore, commaAfter)) == Clean(p)
  {
    CleanTrimLeft(p);
    CleanTrimRight(p);
    CleanTrimRight(TrimLeft(p));
  }

  /** `lstrip` of a comma-joined run only touches its first piece. */
  lemma TrimLeftJoin(q: string, more: seq<string>)
    ensures TrimLeft(Join([q] + more, ",")) == Join([TrimLeft(q)] + more, ",")
  {
    if more != [] {
      var m := Join(more, ",");
      assert ([q] + more)[1..] == more && ([TrimLeft(q)] + more)[1..] == more;
      assert Join([q] + more, ",") == q + ("," + m);
      TrimLeftAppend(q, "," + m);
    }
  }

  /**
   * Every field, however it is spaced or decorated, decodes piece by piece:
   * the tokens are the pieces of `field.split(",")`, each cleaned.
   */
  lemma DecodeCommaPieces(field: string)
    ensures |Decode(field)| == |SplitOn(field, ',')|
    ensures forall i :: 0 <= i < |Decode(field)| ==> Decode(field)[i] == Clean(SplitOn(field, ',')[i])
  {
    var pieces := SplitOn(field, ',');
    assert [','] == ",";
    SplitCommaPieces(pieces);
  }

  /** An empty selection field decodes to one empty token, not to nothing. */
  lemma DecodeEmpty()
    ensures Decode("") == [""]
  {
    assert multiset("")[','] == 0;
    assert SplitSeparators("") == [""];
  }

  /** A key the codec carries unchanged: no comma, no `～`, no whitespace. */
  predicate Plain(k: string) {
    forall i :: 0 <= i < |k| ==> k[i] != ',' && k[i] != HourMark && !IsSpace(k[i])
  }

  /** Every grid key is plain. */
  lemma CellKeyPlain(h: nat, d: nat)
    requires h < |Hours| && d < |Days|
    ensures Plain(CellKey(h, d))
  {
    CellKeyChars(h, d);
  }

  /** A joined field with at least two keys does not start with whitespace
      when its keys are plain: it starts with a key character or, if the first
      key is empty, with the separator's comma. */
  lemma JoinStart(keys: seq<string>)
    requires forall k :: k in keys ==> Plain(k)
    ensures Join(keys, Separator) == [] || !IsSpace(Join(keys, Separator)[0])
  {
    var j := Join(keys, Separator);
    if |keys| >= 1 {
      assert keys[0] in keys;
    }
    if |keys| >= 2 {
      assert j == keys[0] + Separator + Join(keys[1..], Separator);
      if keys[0] == [] {
        assert j[0] == ',';
      } else {
        assert j[0] == keys[0][0];
      }
    }
  }

  /** Where the separator sits in `k + ", " + tail`. */
  lemma SeparatorAt(k: string, tail: string)
    ensures (k + Separator + tail)[..|k|] == k
    ensures (k + Separator + tail)[|k|] == ','
    ensures (k + Separator + tail)[|k| + 1..] == [' '] + tail
  {
    var s := k + Separator + tail;
    var head, rest := k + [','], [' '] + tail;
    assert Separator == [','] + [' '];
    assert s == head + rest;
    assert s[..|head|] == head && s[|head|..] == rest;
    assert head[..|k|] == k;
  }

  /** One step of the split on a joined field: the first key comes off whole
      and the split resumes at the next key. */
  lemma SplitOneKey(k: string, tail: string)
    requires ',' !in k && (k == [] || !IsSpace(k[|k| - 1]))
    requires tail == [] || !IsSpace(tail[0])
    ensures SplitSeparators(k + Separator + tail) == [k] + SplitSeparators(tail)
  {
    var s := k + Separator + tail;
    SeparatorAt(k, tail);
    TrimLeftSpace(' ', tail);
    assert TrimLeft(s[|k| + 1..]) == tail;
    assert TrimRight(s[..|k|]) == k;
    SplitAtFirstComma(s, |k|);
  }

  /** Splitting a joined field gives back the keys that were joined. */
  lemma {:induction false} SplitJoin(keys: seq<string>)
    requires |keys| > 0
    requires forall k :: k in keys ==> Plain(k)
    ensures SplitSeparators(Join(keys, Separator)) == keys
  {
    var k := keys[0];
    assert k in keys;
    if |keys| == 1 {
      assert ',' !in k;
      assert IndexOf(k, ',') == |k|;
      assert SplitSeparators(k) == [k];
    } else {
      var rest := keys[1..];
      forall r | r in rest ensures Plain(r) {
        assert r in keys;
      }
      SplitJoin(rest);
      SplitJoinStep(k, rest);
      assert keys == [k] + rest;
    }
  }

  /** One more plain key in front of a run the split already returns. */
  lemma SplitJoinStep(k: string, rest: seq<string>)
    requires Plain(k) && rest != [] && forall r :: r in rest ==> Plain(r)
    requires SplitSeparators(Join(rest, Separator)) == rest
    ensures SplitSeparators(Join([k] + rest, Separator)) == [k] + rest
  {
    assert ',' !in k && (k == [] || !IsSpace(k[|k| - 1]));
    var tail := Join(rest, Separator);
    assert ([k] + rest)[1..] == rest;
    assert Join([k] + rest, Separator) == k + Separator + tail;
    JoinStart(rest);
    SplitOneKey(k, tail);
  }

  /**
   * Round trip: the field a submission stores decodes to exactly the keys that
   * were selected, in the same order.
   */
  lemma {:induction false} DecodeEncode(keys: seq<string>)
    requires |keys| > 0
    requires forall k :: k in keys ==> Plain(k)
    ensures Decode(Encode(keys)) == keys
  {
    SplitJoin(keys);
    var tokens := Decode(Encode(keys));
    assert |tokens| == |keys|;
    forall i | 0 <= i < |keys| ensures tokens[i] == keys[i] {
      var k := keys[i];
      assert Plain(k);
      assert HourMark !in k;
      assert RemoveChar(k, HourMark) == k;
      assert k == [] || (!IsSpace(k[0]) && !IsSpace(k[|k| - 1]));
      assert Strip(k) == k;
    }
  }
}
