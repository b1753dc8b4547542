/** Parsing of the "RxC" grid-size text. */
module GridSize {
  import opened MazeBase
  import opened Codec

  /** Joins parts with a one-character separator between neighbours. */
  function Join(parts: seq<string>, sep: char): string
    requires |parts| >= 1
  {
    if |parts| == 1 then parts[0] else parts[0] + [sep] + Join(parts[1..], sep)
  }

  /** Go's strings.Split with a one-character separator: the maximal
      separator-free pieces between separators, including empty ones. */
  function Split(s: string, sep: char): (parts: seq<string>)
    ensures |parts| == multiset(s)[sep] + 1
    ensures forall k :: 0 <= k < |parts| ==> sep !in parts[k]
    ensures Join(parts, sep) == s
    decreases |s|
  {
    if s == [] then [""]
    else
      var rest := Split(s[1..], sep);
      if s[0] == sep then
        SplitAtSeparator(s, sep, rest);
        [""] + rest
      else
        SplitAtOther(s, sep, rest);
        [[s[0]] + rest[0]] + rest[1..]
  }

  /** A separator in front of a split text starts a new, empty first part. */
  lemma SplitAtSeparator(s: string, sep: char, rest: seq<string>)
    requires |s| >= 1 && s[0] == sep && |rest| == multiset(s[1..])[sep] + 1
    requires forall k :: 0 <= k < |rest| ==> sep !in rest[k]
    requires Join(rest, sep) == s[1..]
    ensures |[""] + rest| == multiset(s)[sep] + 1
    ensures forall k :: 0 <= k < |[""] + rest| ==> sep !in ([""] + rest)[k]
    ensures Join([""] + rest, sep) == s
  {
    assert s == [s[0]] + s[1..];
    assert multiset(s) == multiset{s[0]} + multiset(s[1..]);
    var parts := [""] + rest;
    assert parts[1..] == rest;
    assert Join(parts, sep) == [sep] + Join(rest, sep);
  }

  /** Any other character in front of a split text joins its first part. */
  lemma SplitAtOther(s: string, sep: char, rest: seq<string>)
    requires |s| >= 1 && s[0] != sep && |rest| == multiset(s[1..])[sep] + 1
    requires forall k :: 0 <= k < |rest| ==> sep !in rest[k]
    requires Join(rest, sep) == s[1..]
    ensures |[[s[0]] + rest[0]] + rest[1..]| == multiset(s)[sep] + 1
    ensures forall k :: 0 <= k < |rest| ==> sep !in ([[s[0]] + rest[0]] + rest[1..])[k]
    ensures Join([[s[0]] + rest[0]] + rest[1..], sep) == s
  {
    assert s == [s[0]] + s[1..];
    assert multiset(s) == multiset{s[0]} + multiset(s[1..]);
    JoinCons(s[0], rest, sep);
    assert sep !in [s[0]] + rest[0];
  }

  /** Prepending a character to the first part prepends it to the joined text. */
  lemma JoinCons(ch: char, parts: seq<string>, sep: char)
    requires |parts| >= 1
    ensures Join([[ch] + parts[0]] + parts[1..], sep) == [ch] + Join(parts, sep)
  {
    var longer := [[ch] + parts[0]] + parts[1..];
    if |parts| > 1 {
      assert longer[1..] == parts[1..];
    }
  }

  /** Splitting undoes joining when no part contains the separator. */
  lemma {:induction false} SplitJoin(parts: seq<string>, sep: char)
    requires |parts| >= 1
    requires forall k :: 0 <= k < |parts| ==> sep !in parts[k]
    ensures Split(Join(parts, sep), sep) == parts
    decreases |parts|, |parts[0]|
  {
    if |parts[0]| > 0 {
      SplitJoinLetter(parts, sep);
    } else if |parts| > 1 {
      SplitJoinSeparator(parts, sep);
    }
  }

  /** The case of a first part that starts with a character: the split
      adds that character back to the first part of the rest. */
  lemma {:induction false} SplitJoinLetter(parts: seq<string>, sep: char)
    requires |parts| >= 1 && |parts[0]| > 0
    requires forall k :: 0 <= k < |parts| ==> sep !in parts[k]
    ensures Split(Join(parts, sep), sep) == parts
    decreases |parts|, |parts[0]|, 0
  {
    var s := Join(parts, sep);
    var p0 := parts[0];
    var tail := [p0[1..]] + parts[1..];
    assert tail[1..] == parts[1..];
    assert [p0[0]] + tail[0] == p0;
    assert [[p0[0]] + tail[0]] + tail[1..] == parts;
    JoinCons(p0[0], tail, sep);
    assert sep !in tail[0] by {
      assert forall j :: 0 <= j < |tail[0]| ==> tail[0][j] == p0[j + 1];
    }
    assert forall k :: 1 <= k < |tail| ==> tail[k] == parts[k];
    SplitJoin(tail, sep);
    assert s[1..] == Join(tail, sep);
    assert s[0] == p0[0] && p0[0] != sep;
  }

  /** The case of an empty first part: the joined text starts with the
      separator. */
  lemma {:induction false} SplitJoinSeparator(parts: seq<string>, sep: char)
    requires |parts| > 1 && parts[0] == []
    requires forall k :: 0 <= k < |parts| ==> sep !in parts[k]
    ensures Split(Join(parts, sep), sep) == parts
    decreases |parts|, 0, 0
  {
    var s := Join(parts, sep);
    assert s == [sep] + Join(parts[1..], sep);
    assert s[1..] == Join(parts[1..], sep);
    assert forall k :: 0 <= k < |parts[1..]| ==> parts[1..][k] == parts[k + 1];
    SplitJoin(parts[1..], sep);
    assert [""] + parts[1..] == parts;
  }

  /** Go's strconv.Atoi on the values an unbounded integer can hold: an
      optional '+' or '-' followed by at least one decimal digit. */
  function Atoi(t: string): (r: Option<int>)
    ensures r.Some? <==>
              || (|t| >= 1 && AllDigits(t))
              || (|t| >= 2 && (t[0] == '+' || t[0] == '-') && AllDigits(t[1..]))
    ensures r.Some? && t[0] == '-' ==> -r.value == DecimalValue(t[1..])
    ensures r.Some? && t[0] != '-' ==> r.value >= 0
    ensures r.Some? && t[0] != '-' ==> r.value == DecimalValue(if t[0] == '+' then t[1..] else t)
  {
    if |t| >= 1 && (t[0] == '+' || t[0] == '-') then
      var digits := t[1..];
      if |digits| >= 1 && AllDigits(digits) then
        var v: int := DecimalValue(digits);
        Some(if t[0] == '-' then -v else v)
      else None
    else if |t| >= 1 && AllDigits(t) then Some(DecimalValue(t))
    else None
  }

  /** Parsing the printed form of any integer gives the integer back; an
      empty token (as in "x4" or "4x") is not an integer. */
  lemma AtoiItoa(n: int)
    ensures Atoi(Itoa(n)) == Some(n)
    ensures Atoi("") == None
  {
    if n < 0 {
      var t := Itoa(n);
      assert t[1..] == NatDigits(-n);
    } else {
      assert IsDigit(NatDigits(n)[0]);
    }
  }

  /** Splits "RxC" and parses both halves. The three failures are distinct:
      not exactly one 'x', a row token that is not an integer, a column token
      that is not an integer, checked in that order. */
  function ParseGridSize(gridSize: string): (r: Result<(int, int)>)
    ensures r.Err? ==> r.error == InvalidGridSize || r.error == InvalidRows || r.error == InvalidCols
    ensures multiset(gridSize)['x'] != 1 <==> r == Err(InvalidGridSize)
    ensures forall i :: 0 <= i < |gridSize| && gridSize[i] == 'x' && multiset(gridSize)['x'] == 1 ==>
              r == (if Atoi(gridSize[..i]).None? then Err(InvalidRows)
                    else if Atoi(gridSize[i + 1..]).None? then Err(InvalidCols)
                    else Ok((Atoi(gridSize[..i]).value, Atoi(gridSize[i + 1..]).value)))
  {
    var rowcol := Split(gridSize, 'x');
    if |rowcol| != 2 then
      Err(InvalidGridSize)
    else
      assert rowcol[1..] == [rowcol[1]];
      assert Join(rowcol, 'x') == rowcol[0] + ['x'] + rowcol[1];
      assert 'x' !in rowcol[0] && 'x' !in rowcol[1];
      SeparatorPosition(gridSize, rowcol[0], rowcol[1]);
      var rows := Atoi(rowcol[0]);
      if rows.None? then
        Err(InvalidRows)
      else
        var cols := Atoi(rowcol[1]);
        if cols.None? then Err(InvalidCols) else Ok((rows.value, cols.value))
  }

  /** In `left + "x" + right` with no 'x' in either part, the only 'x' is at |left|. */
  lemma SeparatorPosition(s: string, left: string, right: string)
    requires s == left + ['x'] + right && 'x' !in left && 'x' !in right
    ensures forall i :: 0 <= i < |s| && s[i] == 'x' ==>
              i == |left| && s[..i] == left && s[i + 1..] == right
  {
    assert forall j :: 0 <= j < |left| ==> s[j] == left[j];
    assert forall j :: |left| < j < |s| ==> s[j] == right[j - |left| - 1];
    assert s[..|left|] == left && s[|left| + 1..] == right;
  }

  /** A well-formed size from the unit tests. */
  lemma ParseExample8x8()
    ensures ParseGridSize("8x8") == Ok((8, 8))
  {
    var s := "8x8";
    assert s == "8" + "x" + "8";
    assert multiset(s)['x'] == 1;
    assert s[1] == 'x' && s[..1] == "8" && s[2..] == "8";
    assert DecimalValue("8") == 8 by { assert "8"[..0] == ""; }
    assert AllDigits("8");
    assert Atoi("8") == Some(8);
    var r := ParseGridSize(s);
    assert r == (if Atoi(s[..1]).None? then Err(InvalidRows)
                 else if Atoi(s[2..]).None? then Err(InvalidCols)
                 else Ok((Atoi(s[..1]).value, Atoi(s[2..]).value)));
  }

  /** A size with no 'x' separator. */
  lemma ParseExampleNoSeparator()
    ensures ParseGridSize("4-4") == Err(InvalidGridSize)
  {
    assert multiset("4-4")['x'] == 0 by {
      assert "4-4" == ['4'] + ['-'] + ['4'];
    }
  }

  /** A size with a missing row count. */
  lemma ParseExampleMissingRows()
    ensures ParseGridSize("x4") == Err(InvalidRows)
  {
    var s := "x4";
    assert s == ['x'] + ['4'];
    assert multiset(s)['x'] == 1;
    assert s[0] == 'x' && s[..0] == "";
    AtoiItoa(0);
  }

  /** A size with a missing column count. */
  lemma ParseExampleMissingCols()
    ensures ParseGridSize("4x") == Err(InvalidCols)
  {
    var s := "4x";
    assert s == ['4'] + ['x'];
    assert multiset(s)['x'] == 1;
    assert s[1] == 'x' && s[..1] == "4" && s[2..] == "";
    assert DecimalValue("4") == 4 by { assert "4"[..0] == ""; }
    assert Atoi("4") == Some(4);
    AtoiItoa(0);
  }
}
