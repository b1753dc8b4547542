/** Spreadsheet-style cell labels: a run of upper-case letters names the
    column in bijective base 26 (A = 1 .. Z = 26, AA = 27), followed by the
    1-based row in decimal. Labels convert to and from 0-based Coords. */
module Codec {
  import opened MazeBase

  /** Number of letters 'A'..'Z'. */
  const LetterBase := 26
  /** Number of digits '0'..'9'. */
  const DigitBase := 10

  predicate IsUpper(ch: char) { 'A' <= ch <= 'Z' }
  predicate IsDigit(ch: char) { '0' <= ch <= '9' }

  predicate AllUpper(t: string) { forall k :: 0 <= k < |t| ==> IsUpper(t[k]) }
  predicate AllDigits(t: string) { forall k :: 0 <= k < |t| ==> IsDigit(t[k]) }

  function LetterValue(ch: char): int
    requires IsUpper(ch)
  {
    ch as int - 'A' as int + 1
  }

  function DigitValue(ch: char): int
    requires IsDigit(ch)
  {
    ch as int - '0' as int
  }

  /** The column number (1-based) a run of letters spells in bijective base 26. */
  function ColumnNumber(t: string): nat
    requires AllUpper(t)
  {
    if t == [] then 0
    else ColumnNumber(t[..|t| - 1]) * LetterBase + LetterValue(t[|t| - 1])
  }

  /** The number a run of decimal digits spells. */
  function DecimalValue(t: string): nat
    requires AllDigits(t)
  {
    if t == [] then 0
    else DecimalValue(t[..|t| - 1]) * DigitBase + DigitValue(t[|t| - 1])
  }

  /** `s` reads as a non-empty letter run `s[..k]` followed by a digit run
      `s[k..]`; the digit run may be empty. */
  predicate IsLabelSplit(s: string, k: int) {
    && 1 <= k <= |s|
    && (forall j :: 0 <= j < k ==> IsUpper(s[j]))
    && (forall j :: k <= j < |s| ==> IsDigit(s[j]))
  }

  /** A label splits in at most one place: the letter run is maximal. */
  lemma LabelSplitUnique(s: string, k1: int, k2: int)
    requires IsLabelSplit(s, k1) && IsLabelSplit(s, k2)
    ensures k1 == k2
  {
    ScansFollowSplit(s);
  }

  /** The letter loop of the decoder: from position `i`, with `col` the value
      accumulated so far, consume upper-case letters. Returns the position of
      the first non-letter and the accumulated column. */
  function ScanLetters(s: string, i: nat, col: int): (r: (nat, int))
    requires i <= |s|
    ensures i <= r.0 <= |s|
    ensures forall k :: i <= k < r.0 ==> IsUpper(s[k])
    ensures r.0 < |s| ==> !IsUpper(s[r.0])
    ensures AllUpper(s[..i]) && col == ColumnNumber(s[..i]) ==>
              AllUpper(s[..r.0]) && r.1 == ColumnNumber(s[..r.0])
    decreases |s| - i
  {
    if i < |s| && IsUpper(s[i]) then
      assert s[..i + 1][..i] == s[..i];
      assert AllUpper(s[..i]) ==> AllUpper(s[..i + 1]) by {
        assert forall k :: 0 <= k < i ==> s[..i + 1][k] == s[..i][k];
      }
      ScanLetters(s, i + 1, LetterValue(s[i]) + col * LetterBase)
    else
      (i, col)
  }

  /** The digit loop of the decoder, from position `i` with `row` accumulated
      so far; `from` is where the digit run began. */
  function ScanDigits(s: string, ghost from: nat, i: nat, row: int): (r: (nat, int))
    requires from <= i <= |s|
    ensures i <= r.0 <= |s|
    ensures forall k :: i <= k < r.0 ==> IsDigit(s[k])
    ensures r.0 < |s| ==> !IsDigit(s[r.0])
    ensures AllDigits(s[from..i]) && row == DecimalValue(s[from..i]) ==>
              AllDigits(s[from..r.0]) && r.1 == DecimalValue(s[from..r.0])
    decreases |s| - i
  {
    if i < |s| && IsDigit(s[i]) then
      assert s[from..i + 1][..i - from] == s[from..i];
      assert AllDigits(s[from..i]) ==> AllDigits(s[from..i + 1]) by {
        assert forall k :: 0 <= k < i - from ==> s[from..i + 1][k] == s[from..i][k];
      }
      ScanDigits(s, from, i + 1, DigitValue(s[i]) + row * DigitBase)
    else
      (i, row)
  }

  /** The two scans stop exactly where a label splits: the letter scan at the
      end of the letter run, the digit scan at the end of the text. */
  lemma ScansFollowSplit(s: string)
    ensures var i := ScanLetters(s, 0, 0).0;
            (exists k :: IsLabelSplit(s, k)) <==> (i >= 1 && ScanDigits(s, i, i, 0).0 == |s|)
    ensures forall k :: IsLabelSplit(s, k) ==> k == ScanLetters(s, 0, 0).0
  {
    var i := ScanLetters(s, 0, 0).0;
    var j := ScanDigits(s, i, i, 0).0;
    assert forall k :: IsLabelSplit(s, k) ==> k == i && j == |s|;
    if i >= 1 && j == |s| {
      assert IsLabelSplit(s, i);
    }
  }

  /** Decodes a label: the letter loop, then the digit loop, then the
      conversion to 0-based coordinates. */
  function A1ToCoords(s: string): (r: Result<Coords>)
    ensures r.Err? ==> r.error == BadInput
  {
    var (i, col) := ScanLetters(s, 0, 0);
    if i == 0 then
      Err(BadInput)
    else
      var (j, row) := ScanDigits(s, i, i, 0);
      if j != |s| then
        Err(BadInput)
      else
        Ok(Coords(row - 1, col - 1))
  }

  /** What a label decodes to. Decoding fails exactly when there is no
      leading upper-case letter or something other than a digit follows the
      digit run; an empty digit run is accepted and gives row -1. */
  lemma DecodeSpec(s: string)
    ensures A1ToCoords(s).Ok? <==> exists k :: IsLabelSplit(s, k)
    ensures forall k :: IsLabelSplit(s, k) ==>
              A1ToCoords(s) == Ok(Coords(DecimalValue(s[k..]) - 1, ColumnNumber(s[..k]) - 1))
  {
    ScansFollowSplit(s);
    ScanValues(s);
  }

  /** What the two scans accumulate: the value of the letter run, and the
      value of the digit run once it reaches the end of the text. */
  lemma ScanValues(s: string)
    ensures var i := ScanLetters(s, 0, 0).0;
            && AllUpper(s[..i]) && ScanLetters(s, 0, 0).1 == ColumnNumber(s[..i])
            && (ScanDigits(s, i, i, 0).0 == |s| ==>
                  AllDigits(s[i..]) && ScanDigits(s, i, i, 0).1 == DecimalValue(s[i..]))
  {
    assert s[..0] == [];
    var i := ScanLetters(s, 0, 0).0;
    assert s[i..i] == [];
    assert s[i..|s|] == s[i..];
  }

  /** Letters spelling column number `col` (1-based); the empty string when
      `col` is not positive. A remainder of 0 is written 'Z' with one extra
      26 taken off, because bijective base 26 has no zero digit. */
  function ColumnLetters(col: int): (t: string)
    ensures col <= 0 ==> t == []
    ensures col > 0 ==> |t| >= 1 && AllUpper(t) && ColumnNumber(t) == col
    decreases col
  {
    if col <= 0 then ""
    else if col % LetterBase == 0 then
      var t := ColumnLetters((col - LetterBase) / LetterBase) + "Z";
      assert t[..|t| - 1] == ColumnLetters((col - LetterBase) / LetterBase);
      t
    else
      var t := ColumnLetters(col / LetterBase) + [('A' as int + col % LetterBase - 1) as char];
      assert t[..|t| - 1] == ColumnLetters(col / LetterBase);
      t
  }

  /** Decimal digits of `n` without leading zeros. */
  function NatDigits(n: nat): (t: string)
    ensures |t| >= 1 && AllDigits(t) && DecimalValue(t) == n
    ensures n >= 1 ==> t[0] != '0'
    ensures n < DigitBase <==> |t| == 1
  {
    if n < DigitBase then [('0' as int + n) as char]
    else
      var t := NatDigits(n / DigitBase) + [('0' as int + n % DigitBase) as char];
      assert t[..|t| - 1] == NatDigits(n / DigitBase);
      t
  }

  /** Decimal text of an integer, with a leading '-' when negative (Go's strconv.Itoa). */
  function Itoa(n: int): (t: string)
    ensures |t| >= 1
    ensures n >= 0 ==> AllDigits(t) && DecimalValue(t) == n && (t[0] != '0' || |t| == 1)
    ensures n < 0 ==> |t| >= 2 && t[0] == '-' && AllDigits(t[1..]) && DecimalValue(t[1..]) == -n && t[1] != '0'
  {
    if n < 0 then
      var t := "-" + NatDigits(-n);
      assert t[1..] == NatDigits(-n);
      t
    else NatDigits(n)
  }

  /** Encodes 0-based coordinates as a label. For a row of at least -1 the
      label is the column letters of column + 1 followed by the canonical
      decimal digits of row + 1, with no sign. For a column of at least 0
      the label splits into a letter run worth column + 1 and a canonical
      digit run worth row + 1 (`EncodedParts`); `RoundTrip` turns this
      into decoding. */
  function CoordsToA1(c: Coords): (t: string)
    ensures c.row >= -1 ==> t == ColumnLetters(c.col + 1) + NatDigits(c.row + 1)
  {
    ColumnLetters(c.col + 1) + Itoa(c.row + 1)
  }

  /** The label of coordinates with a column of at least 0 and a row of at
      least -1 splits into a letter run worth column + 1 and a canonical
      digit run worth row + 1. */
  lemma EncodedParts(c: Coords)
    requires c.row >= -1 && c.col >= 0
    ensures var k := |ColumnLetters(c.col + 1)|;
            && IsLabelSplit(CoordsToA1(c), k) && CanonicalDigits(CoordsToA1(c)[k..])
            && ColumnNumber(CoordsToA1(c)[..k]) == c.col + 1 && DecimalValue(CoordsToA1(c)[k..]) == c.row + 1
  {
    var letters, digits := ColumnLetters(c.col + 1), NatDigits(c.row + 1);
    EncodeRuns(c);
    var t := letters + digits;
    assert t[..|letters|] == letters && t[|letters|..] == digits;
  }

  /** Decoding undoes encoding exactly for the coordinates the encoder can
      represent: a non-negative column and a row of at least -1 (row -1 is
      written with the digit "0"). For any other coordinates the encoded text
      does not decode at all. */
  lemma RoundTrip(c: Coords)
    ensures c.col >= 0 && c.row >= -1 <==> A1ToCoords(CoordsToA1(c)) == Ok(c)
    ensures !(c.col >= 0 && c.row >= -1) ==> A1ToCoords(CoordsToA1(c)).Err?
  {
    if c.col >= 0 && c.row >= -1 {
      EncodedDecodes(c);
    } else {
      EncodedRejected(c);
    }
  }

  lemma EncodedDecodes(c: Coords)
    requires c.col >= 0 && c.row >= -1
    ensures A1ToCoords(CoordsToA1(c)) == Ok(c)
  {
    var letters := ColumnLetters(c.col + 1);
    var digits := NatDigits(c.row + 1);
    EncodeRuns(c);
    assert Coords(DecimalValue(digits) - 1, ColumnNumber(letters) - 1) == c;
    assert A1ToCoords(letters + digits) == Ok(c) by { DecodeConcat(letters, digits); }
  }

  /** A letter run followed by a digit run decodes to the values of the two runs. */
  lemma DecodeConcat(letters: string, digits: string)
    requires |letters| >= 1 && AllUpper(letters) && AllDigits(digits)
    ensures A1ToCoords(letters + digits) ==
              Ok(Coords(DecimalValue(digits) - 1, ColumnNumber(letters) - 1))
  {
    ConcatIsLabel(letters, digits);
    ConcatSlices(letters, digits);
    DecodeRuns(letters + digits, |letters|, letters, digits);
  }

  /** The value of a label whose two runs are known. */
  lemma DecodeRuns(s: string, k: int, letters: string, digits: string)
    requires IsLabelSplit(s, k) && s[..k] == letters && s[k..] == digits
    ensures A1ToCoords(s) == Ok(Coords(DecimalValue(digits) - 1, ColumnNumber(letters) - 1))
  {
    DecodeSpec(s);
  }

  lemma ConcatSlices(a: string, b: string)
    ensures (a + b)[..|a|] == a && (a + b)[|a|..] == b
  {
  }

  lemma ConcatIsLabel(letters: string, digits: string)
    requires |letters| >= 1 && AllUpper(letters) && AllDigits(digits)
    ensures IsLabelSplit(letters + digits, |letters|)
  {
    var s := letters + digits;
    var k := |letters|;
    assert forall j :: 0 <= j < k ==> s[j] == letters[j];
    assert forall j :: k <= j < |s| ==> s[j] == digits[j - k];
  }

  lemma EncodedRejected(c: Coords)
    requires !(c.col >= 0 && c.row >= -1)
    ensures A1ToCoords(CoordsToA1(c)).Err?
  {
    if c.col < 0 {
      NoColumnRejected(c);
    } else {
      NegativeRowRejected(c);
    }
  }

  /** Without column letters the label starts with the row text. */
  lemma NoColumnRejected(c: Coords)
    requires c.col < 0
    ensures A1ToCoords(CoordsToA1(c)).Err?
  {
    var number := Itoa(c.row + 1);
    assert CoordsToA1(c) == number;
    ItoaShape(c.row + 1);
    RejectAt(number, 0);
  }

  /** A negative row number puts a '-' right after the column letters. */
  lemma NegativeRowRejected(c: Coords)
    requires c.col >= 0 && c.row < -1
    ensures A1ToCoords(CoordsToA1(c)).Err?
  {
    var letters := ColumnLetters(c.col + 1);
    var number := Itoa(c.row + 1);
    var s := letters + number;
    assert CoordsToA1(c) == s;
    ItoaShape(c.row + 1);
    assert s[|letters|] == number[0] == '-';
    RejectAt(s, |letters|);
  }

  lemma ItoaShape(n: int)
    ensures |Itoa(n)| >= 1 && !IsUpper(Itoa(n)[0])
    ensures n < 0 <==> Itoa(n)[0] == '-'
  {
    var t := NatDigits(if n < 0 then -n else n);
    assert IsDigit(t[0]);
  }

  /** A text is rejected when it does not start with a letter, or when it holds
      a character that is neither a letter nor a digit. */
  lemma RejectAt(s: string, m: int)
    requires 0 <= m < |s| && !IsUpper(s[m]) && (m == 0 || !IsDigit(s[m]))
    ensures A1ToCoords(s).Err?
  {
    DecodeSpec(s);
    assert forall k :: !IsLabelSplit(s, k);
  }

  /** Every non-empty letter run is the spelling of its own column number:
      bijective base 26 has exactly one spelling per positive number. */
  lemma {:induction false} ColumnLettersOfNumber(t: string)
    requires |t| >= 1 && AllUpper(t)
    ensures ColumnLetters(ColumnNumber(t)) == t
    decreases |t|
  {
    var p := t[..|t| - 1];
    var v := LetterValue(t[|t| - 1]);
    var n := ColumnNumber(t);
    assert n == ColumnNumber(p) * LetterBase + v;
    if p != [] {
      ColumnLettersOfNumber(p);
    }
    assert ColumnLetters(ColumnNumber(p)) == p;
    if v == LetterBase {
      assert (n - LetterBase) / LetterBase == ColumnNumber(p);
      assert t == p + "Z";
    } else {
      assert n / LetterBase == ColumnNumber(p) && n % LetterBase == v;
      assert t == p + [t[|t| - 1]];
    }
  }

  /** Digit text without a superfluous leading zero. */
  predicate CanonicalDigits(t: string) {
    |t| >= 1 && AllDigits(t) && (t[0] != '0' || |t| == 1)
  }

  lemma {:induction false} LeadingDigitBound(t: string)
    requires |t| >= 1 && AllDigits(t)
    ensures DecimalValue(t) >= DigitValue(t[0])
    decreases |t|
  {
    if |t| > 1 {
      var p := t[..|t| - 1];
      LeadingDigitBound(p);
      assert p[0] == t[0];
    }
  }

  /** Canonical digit text is the printing of its own value. */
  lemma {:induction false} NatDigitsOfValue(t: string)
    requires CanonicalDigits(t)
    ensures NatDigits(DecimalValue(t)) == t
    decreases |t|
  {
    var n := DecimalValue(t);
    if |t| > 1 {
      var p := t[..|t| - 1];
      assert p[0] == t[0];
      NatDigitsOfValue(p);
      LeadingDigitBound(p);
      assert n == DecimalValue(p) * DigitBase + DigitValue(t[|t| - 1]);
      assert n / DigitBase == DecimalValue(p) && n % DigitBase == DigitValue(t[|t| - 1]);
      assert t == p + [t[|t| - 1]];
    }
  }

  /** Encoding undoes decoding exactly for labels whose digit run is
      canonical: non-empty and without a leading zero unless it is "0".
      "A" and "A01" decode, but encode back as "A0" and "A1". */
  lemma LabelRoundTrip(s: string)
    requires A1ToCoords(s).Ok?
    ensures CoordsToA1(A1ToCoords(s).value) == s <==>
              forall k :: IsLabelSplit(s, k) ==> CanonicalDigits(s[k..])
  {
    DecodeSpec(s);
    var k :| IsLabelSplit(s, k);
    assert forall k' :: IsLabelSplit(s, k') ==> k' == k by {
      forall k' | IsLabelSplit(s, k') ensures k' == k { LabelSplitUnique(s, k, k'); }
    }
    if CanonicalDigits(s[k..]) {
      CanonicalReencodes(s, k);
    } else {
      NonCanonicalChanges(s, k);
    }
  }

  /** A split label encodes back to its letter run followed by the printing
      of its digit run's value. */
  lemma EncodeSplit(s: string, k: int)
    requires IsLabelSplit(s, k)
    ensures A1ToCoords(s).Ok?
    ensures CoordsToA1(A1ToCoords(s).value) == s[..k] + NatDigits(DecimalValue(s[k..]))
  {
    var letters, digits := s[..k], s[k..];
    SplitParts(s, k);
    var c := Coords(DecimalValue(digits) - 1, ColumnNumber(letters) - 1);
    assert A1ToCoords(s) == Ok(c) by { DecodeRuns(s, k, letters, digits); }
    assert ColumnLetters(c.col + 1) == letters by { ColumnLettersOfNumber(letters); }
    EncodeRuns(c);
  }

  /** The label of coordinates the encoder can represent, in terms of the
      two runs. */
  lemma EncodeRuns(c: Coords)
    requires c.row >= -1
    ensures CoordsToA1(c) == ColumnLetters(c.col + 1) + NatDigits(c.row + 1)
  {
    var n := c.row + 1;
    assert Itoa(n) == NatDigits(n);
    assert CoordsToA1(c) == ColumnLetters(c.col + 1) + Itoa(n);
  }

  /** A label with a canonical digit run encodes back to itself. */
  lemma CanonicalReencodes(s: string, k: int)
    requires IsLabelSplit(s, k) && CanonicalDigits(s[k..])
    ensures A1ToCoords(s).Ok? && CoordsToA1(A1ToCoords(s).value) == s
  {
    var letters, digits := s[..k], s[k..];
    assert s == letters + digits;
    assert NatDigits(DecimalValue(digits)) == digits by { NatDigitsOfValue(digits); }
    EncodeSplit(s, k);
  }

  /** A label whose digit run is not canonical encodes to other text. */
  lemma NonCanonicalChanges(s: string, k: int)
    requires IsLabelSplit(s, k) && !CanonicalDigits(s[k..])
    ensures A1ToCoords(s).Ok? && CoordsToA1(A1ToCoords(s).value) != s
  {
    EncodeSplit(s, k);
    var printed := NatDigits(DecimalValue(s[k..]));
    assert CanonicalDigits(printed);
    assert (s[..k] + printed)[k..] == printed;
  }

  /** The two runs of a split label. */
  lemma SplitParts(s: string, k: int)
    requires IsLabelSplit(s, k)
    ensures AllUpper(s[..k]) && AllDigits(s[k..]) && s == s[..k] + s[k..]
  {
    assert forall j :: 0 <= j < k ==> s[..k][j] == s[j];
    assert forall j :: 0 <= j < |s| - k ==> s[k..][j] == s[k + j];
  }

  /** Labels of the unit tests: each decodes to the listed coordinates and
      those coordinates encode back to the same label. */
  lemma ExampleA1()
    ensures A1ToCoords("A1") == Ok(Coords(0, 0)) && CoordsToA1(Coords(0, 0)) == "A1"
  {
    DecodeOne("A", "1", 0, 0);
    EncodeBack("A1", 1);
  }

  lemma ExampleA123()
    ensures A1ToCoords("A123") == Ok(Coords(122, 0)) && CoordsToA1(Coords(122, 0)) == "A123"
  {
    Decimal123();
    assert "A" + "123" == "A123";
    DecodeOne("A", "123", 122, 0);
    EncodeBack("A123", 1);
  }

  lemma Decimal123()
    ensures DecimalValue("123") == 123
  {
    assert "12"[..1] == "1";
    assert DecimalValue("12") == 12;
    assert "123"[..2] == "12";
  }

  lemma ExampleZ1()
    ensures A1ToCoords("Z1") == Ok(Coords(0, 25)) && CoordsToA1(Coords(0, 25)) == "Z1"
  {
    DecodeOne("Z", "1", 0, 25);
    EncodeBack("Z1", 1);
  }

  lemma ExampleAA1()
    ensures A1ToCoords("AA1") == Ok(Coords(0, 26)) && CoordsToA1(Coords(0, 26)) == "AA1"
  {
    assert "AA"[..1] == "A";
    DecodeOne("AA", "1", 0, 26);
    EncodeBack("AA1", 2);
  }

  lemma ExampleAZ1()
    ensures A1ToCoords("AZ1") == Ok(Coords(0, 51)) && CoordsToA1(Coords(0, 51)) == "AZ1"
  {
    assert "AZ"[..1] == "A";
    DecodeOne("AZ", "1", 0, 51);
    EncodeBack("AZ1", 2);
  }

  lemma ExampleBA1()
    ensures A1ToCoords("BA1") == Ok(Coords(0, 52)) && CoordsToA1(Coords(0, 52)) == "BA1"
  {
    assert "BA"[..1] == "B";
    DecodeOne("BA", "1", 0, 52);
    EncodeBack("BA1", 2);
  }

  lemma ExampleZZ1()
    ensures A1ToCoords("ZZ1") == Ok(Coords(0, 701)) && CoordsToA1(Coords(0, 701)) == "ZZ1"
  {
    assert "ZZ"[..1] == "Z";
    DecodeOne("ZZ", "1", 0, 701);
    EncodeBack("ZZ1", 2);
  }

  lemma ExampleAAA1()
    ensures A1ToCoords("AAA1") == Ok(Coords(0, 702)) && CoordsToA1(Coords(0, 702)) == "AAA1"
  {
    assert "AAA"[..2] == "AA" && "AA"[..1] == "A";
    assert "AAA" + "1" == "AAA1";
    DecodeOne("AAA", "1", 0, 702);
    EncodeBack("AAA1", 3);
  }

  /** Lower-case and digit-first labels are rejected. */
  lemma ExampleRejected()
    ensures A1ToCoords("a1") == Err(BadInput)
    ensures A1ToCoords("1a") == Err(BadInput)
  {
    RejectAt("a1", 0);
    RejectAt("1a", 0);
  }

  /** An empty digit run is accepted and reads as row 0, i.e. 0-based row -1. */
  lemma ExampleEmptyDigitRun()
    ensures A1ToCoords("A") == Ok(Coords(-1, 0))
  {
    DecodeOne("A", "", -1, 0);
  }

  lemma DecodeOne(letters: string, digits: string, row: int, col: int)
    requires |letters| >= 1 && AllUpper(letters) && AllDigits(digits)
    requires ColumnNumber(letters) == col + 1 && DecimalValue(digits) == row + 1
    ensures A1ToCoords(letters + digits) == Ok(Coords(row, col))
  {
    DecodeConcat(letters, digits);
  }

  lemma EncodeBack(s: string, k: int)
    requires IsLabelSplit(s, k) && k < |s| && s[k] != '0'
    ensures CoordsToA1(A1ToCoords(s).value) == s
  {
    SplitParts(s, k);
    assert CanonicalDigits(s[k..]) by { assert s[k..][0] == s[k]; }
    forall k' | IsLabelSplit(s, k') ensures CanonicalDigits(s[k'..]) {
      LabelSplitUnique(s, k, k');
    }
    LabelRoundTrip(s);
  }
}
