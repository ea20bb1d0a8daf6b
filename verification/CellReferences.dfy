/** Spreadsheet cell references (`ST_CellRef`, section 18.18.7 of ECMA-376 Part 1): printed by the VERIFY
    parser, read by the workbook reader. */
module CellReferences {
  import opened Int32
  import opened Optional
  import opened Text

  predicate IsLetter(c: char) { IsUpper(c) || IsLower(c) }

  function ToUpper(c: char): char { if IsLower(c) then (c as int - 32) as char else c }

  function Upper(s: string): (r: string)
    ensures |r| == |s| && forall i :: 0 <= i < |s| ==> r[i] == ToUpper(s[i])
  {
    seq(|s|, i requires 0 <= i < |s| => ToUpper(s[i]))
  }

  /** 'A' is 1, 'Z' is 26. */
  function LetterValue(c: char): (v: nat)
    requires IsLetter(c)
    ensures 1 <= v <= 26
  {
    ToUpper(c) as int - 'A' as int + 1
  }

  function Letter(v: nat): (c: char)
    requires 1 <= v <= 26
    ensures IsUpper(c) && LetterValue(c) == v
  {
    ('A' as int + v - 1) as char
  }

  predicate AllLetters(s: string) { forall i :: 0 <= i < |s| ==> IsLetter(s[i]) }

  /** The column letters: numerals in base 26 without a zero. */
  function Letters(column: int): (s: string)
    ensures AllLetters(s) && (column > 0 ==> s != "") && forall i :: 0 <= i < |s| ==> IsUpper(s[i])
  {
    if column <= 0 then "" else Letters((column - 1) / 26) + [Letter((column - 1) % 26 + 1)]
  }

  function ColumnValue(s: string): nat
    requires AllLetters(s)
  {
    if s == "" then 0 else 26 * ColumnValue(s[..|s| - 1]) + LetterValue(s[|s| - 1])
  }

  method CellReference(column: int, row: nat) returns (result: string)
    ensures result == Letters(column) + Decimal(row)
  {
    result := "";
    var value := column;
    while value > 0
      invariant Letters(column) == Letters(value) + result
    {
      result := [Letter((value - 1) % 26 + 1)] + result;
      value := (value - 1) / 26;
    }
    result := result + Decimal(row);
  }

  function LetterRun(s: string): (n: nat)
    ensures n <= |s| && AllLetters(s[..n]) && (n < |s| ==> !IsLetter(s[n]))
  {
    if s == "" || !IsLetter(s[0]) then 0
    else
      var n := LetterRun(s[1..]);
      assert s[..n + 1] == [s[0]] + s[1..][..n];
      n + 1
  }

  function RowOf(digits: string): int { if ParseInt(digits).Some? then ParseInt(digits).value else 0 }

  /** Row and column, as the reader computes them with 32-bit arithmetic. */
  function Parsed(s: string): (int, int) { (RowOf(s[LetterRun(s)..]), Wrap(ColumnValue(s[..LetterRun(s)]))) }

  lemma WrapDigit(x: int, v: int)
    ensures Wrap(Wrap(x) * 26 + v) == Wrap(x * 26 + v)
  {
    hide Wrap;
    WrapIdentity(x);
    var k := (Wrap(x) - x) / WORD;
    assert Wrap(x) - x == WORD * k;
    assert (Wrap(x) * 26 + v) - (x * 26 + v) == WORD * (26 * k);
    Multiple(26 * k);
    WrapCongruent(Wrap(x) * 26 + v, x * 26 + v);
  }

  lemma Multiple(k: int)
    ensures (WORD * k) % WORD == 0
  {
  }

  method ParseReference(reference: string) returns (row: int, column: int)
    ensures (row, column) == Parsed(reference)
  {
    hide Wrap, ParseInt;
    column := 0;
    var index := 0;
    assert reference[..0] == "" && Wrap(0) == 0 by { WrapSmall(0); }
    while index < |reference| && IsLetter(reference[index])
      invariant 0 <= index <= |reference| && AllLetters(reference[..index])
      invariant column == Wrap(ColumnValue(reference[..index]))
    {
      var before := reference[..index];
      assert reference[..index + 1][..index] == before && reference[..index + 1] == before + [reference[index]];
      WrapDigit(ColumnValue(before), LetterValue(reference[index]));
      column := Wrap(column * 26 + (ToUpper(reference[index]) as int - 'A' as int + 1));
      index := index + 1;
    }
    RunIs(reference, index);
    var number := ParseInt(reference[index..]);
    row := if number.Some? then number.value else 0;
  }

  lemma PrefixLetters(s: string, n: nat)
    requires n <= |s| && AllLetters(s[..n])
    ensures forall i :: 0 <= i < n ==> IsLetter(s[i])
  {
    assert forall i :: 0 <= i < n ==> s[..n][i] == s[i];
  }

  lemma RunIs(s: string, n: nat)
    requires n <= |s| && AllLetters(s[..n]) && (n < |s| ==> !IsLetter(s[n]))
    ensures LetterRun(s) == n
  {
    PrefixLetters(s, n);
    PrefixLetters(s, LetterRun(s));
  }

  // ---- the two are inverse ----

  lemma {:induction false} ColumnRoundTrip(column: nat)
    ensures ColumnValue(Letters(column)) == column
  {
    if column > 0 {
      ColumnRoundTrip((column - 1) / 26);
      var s := Letters(column);
      assert s[..|s| - 1] == Letters((column - 1) / 26);
    }
  }

  lemma {:induction false} LettersRoundTrip(s: string)
    requires AllLetters(s)
    ensures Letters(ColumnValue(s)) == Upper(s)
  {
    if s != "" {
      var init, v := s[..|s| - 1], LetterValue(s[|s| - 1]);
      LettersRoundTrip(init);
      var n := ColumnValue(init);
      assert (26 * n + v - 1) / 26 == n && (26 * n + v - 1) % 26 + 1 == v;
      assert Letter(v) == ToUpper(s[|s| - 1]);
      assert Upper(s) == Upper(init) + [ToUpper(s[|s| - 1])];
    }
  }

  lemma DigitNotLetter(c: char)
    requires IsDigit(c)
    ensures !IsLetter(c)
  {
  }

  lemma PrintedParts(letters: string, row: nat)
    requires AllLetters(letters)
    ensures var s := letters + Decimal(row);
            LetterRun(s) == |letters| && s[..|letters|] == letters && s[|letters|..] == Decimal(row)
  {
    var s := letters + Decimal(row);
    DigitNotLetter(Decimal(row)[0]);
    assert s[..|letters|] == letters && s[|letters|] == Decimal(row)[0];
    RunIs(s, |letters|);
  }

  lemma RowRoundTrip(row: nat)
    ensures RowOf(Decimal(row)) == if row <= MAX_INT then row else 0
  {
    TrimDigits(Decimal(row));
    DecimalRoundTrip(row);
  }

  /** Reading a printed reference gives row and column back exactly when both are 32-bit integers. */
  lemma PrintThenParse(column: nat, row: nat)
    requires column >= 1 && row >= 1
    ensures Parsed(Letters(column) + Decimal(row)) == (row, column) <==> column <= MAX_INT && row <= MAX_INT
  {
    hide Letters, Decimal, RowOf, ColumnValue;
    PrintedParts(Letters(column), row);
    ColumnRoundTrip(column);
    RowRoundTrip(row);
    if column <= MAX_INT { WrapSmall(column); }
  }

  /** Letters followed by a numeral without leading zeros, as the standard spells a reference. */
  predicate IsReference(s: string) {
    var n := LetterRun(s);
    n > 0 && n < |s| && AllDigits(s[n..]) && s[n] != '0'
  }

  lemma ReferenceParts(s: string)
    requires IsReference(s)
    ensures var letters, digits := s[..LetterRun(s)], s[LetterRun(s)..];
            Upper(s) == Letters(ColumnValue(letters)) + Decimal(DecimalValue(digits))
            && ColumnValue(letters) >= 1 && DecimalValue(digits) >= 1
            && RowOf(digits) == if DecimalValue(digits) <= MAX_INT then DecimalValue(digits) else 0
  {
    hide Letters, Decimal, RowOf, DecimalValue, ColumnValue, LetterRun;
    var letters, digits := s[..LetterRun(s)], s[LetterRun(s)..];
    assert digits[0] == s[LetterRun(s)] && s == letters + digits;
    NumeralRoundTrip(digits);
    PositiveValue(digits);
    RowRoundTrip(DecimalValue(digits));
    LettersRoundTrip(letters);
    PositiveColumn(letters);
    DigitsAreUpper(digits);
    UpperConcat(letters, digits);
  }

  lemma UpperConcat(a: string, b: string)
    ensures Upper(a + b) == Upper(a) + Upper(b)
  {
    hide ToUpper;
  }

  lemma PositiveColumn(s: string)
    requires s != "" && AllLetters(s)
    ensures ColumnValue(s) >= 1
  {
  }

  lemma DigitsAreUpper(s: string)
    requires AllDigits(s)
    ensures Upper(s) == s
  {
  }

  lemma LettersInjective(column: int, column': nat)
    requires Letters(column) == Letters(column') && column' >= 1
    ensures column == column'
  {
    ColumnRoundTrip(column');
    if column > 0 { ColumnRoundTrip(column); }
  }

  /** Printing what was read from a reference gives it back in upper case exactly when it fits 32 bits. */
  lemma ParseThenPrint(s: string)
    requires IsReference(s)
    ensures var (row, column) := Parsed(s);
            row >= 0
            && (Letters(column) + Decimal(row) == Upper(s) <==>
                  ColumnValue(s[..LetterRun(s)]) <= MAX_INT && DecimalValue(s[LetterRun(s)..]) <= MAX_INT)
  {
    hide Letters, Decimal, RowOf, ColumnValue, DecimalValue, LetterRun, Wrap;
    ReferenceParts(s);
    var value, number := ColumnValue(s[..LetterRun(s)]), DecimalValue(s[LetterRun(s)..]);
    var row, column := RowOf(s[LetterRun(s)..]), Wrap(value);
    if value <= MAX_INT { WrapSmall(value); }
    if Letters(column) + Decimal(row) == Upper(s) {
      PrintedParts(Letters(column), row);
      PrintedParts(Letters(value), number);
      LettersInjective(column, value);
      DecimalInjective(row, number);
    }
  }

  /** Different cells have different references. */
  lemma ReferencesDistinct(column: nat, row: nat, column': nat, row': nat)
    requires Letters(column) + Decimal(row) == Letters(column') + Decimal(row')
    ensures column == column' && row == row'
  {
    hide Letters, Decimal;
    PrintedParts(Letters(column), row);
    PrintedParts(Letters(column'), row');
    ColumnRoundTrip(column);
    ColumnRoundTrip(column');
    DecimalInjective(row, row');
  }

  /** Columns go from `A` to `Z` and then on with one letter more, the last letter last. */
  lemma LettersExactly(column: nat, v: nat)
    requires v < 26
    ensures Letters(26 * column + v + 1) == Letters(column) + ["ABCDEFGHIJKLMNOPQRSTUVWXYZ"[v]]
    ensures Letters(0) == ""
  {
    assert "ABCDEFGHIJKLMNOPQRSTUVWXYZ"[v] == Letter(v + 1);
  }
}
