/** Character-level vocabulary shared by every component: ordinal case folding,
    decimal numerals, and the few string queries the sources use. */
module Text {

  /** `OrdinalIgnoreCase` on ASCII letters: the key that two equal-ignoring-case texts share. */
  function FoldChar(c: char): char {
    if 'A' <= c <= 'Z' then (c as int + 32) as char else c
  }

  function Fold(s: string): (r: string)
    ensures |r| == |s|
    ensures forall i :: 0 <= i < |s| ==> r[i] == FoldChar(s[i])
  {
    if s == "" then "" else [FoldChar(s[0])] + Fold(s[1..])
  }

  lemma {:induction false} FoldConcat(a: string, b: string)
    ensures Fold(a + b) == Fold(a) + Fold(b)
  {
    assert forall i :: 0 <= i < |a + b| ==> Fold(a + b)[i] == (Fold(a) + Fold(b))[i];
  }

  /** The names of a list that ignores case. */
  function Keys(names: seq<string>): set<string> { set n | n in names :: Fold(n) }

  lemma KeysAppend(names: seq<string>, last: string)
    ensures Keys(names + [last]) == Keys(names) + {Fold(last)}
  {
    forall k | k in Keys(names) + {Fold(last)} ensures k in Keys(names + [last]) {
      if k == Fold(last) {
        assert (names + [last])[|names|] == last;
      } else {
        var n :| n in names && Fold(n) == k;
        var i :| 0 <= i < |names| && names[i] == n;
        assert (names + [last])[i] == n;
      }
    }
  }

  predicate IsDigit(c: char) { '0' <= c <= '9' }

  predicate IsLower(c: char) { 'a' <= c <= 'z' }

  predicate IsUpper(c: char) { 'A' <= c <= 'Z' }

  predicate AllDigits(s: string) { forall i :: 0 <= i < |s| ==> IsDigit(s[i]) }

  function Digit(d: nat): (c: char)
    requires d < 10
    ensures IsDigit(c) && DigitValue(c) == d
  {
    ('0' as int + d) as char
  }

  function DigitValue(c: char): (d: nat)
    requires IsDigit(c)
    ensures d < 10
  {
    c as int - '0' as int
  }

  /** The invariant-culture decimal numeral of a natural number. */
  function Decimal(n: nat): (s: string)
    ensures s != "" && AllDigits(s)
    ensures s[0] == '0' ==> n == 0
  {
    if n < 10 then [Digit(n)] else Decimal(n / 10) + [Digit(n % 10)]
  }

  function DecimalValue(s: string): nat
    requires AllDigits(s)
  {
    if s == "" then 0 else 10 * DecimalValue(s[..|s| - 1]) + DigitValue(s[|s| - 1])
  }

  lemma {:induction false} DecimalRoundTrip(n: nat)
    ensures DecimalValue(Decimal(n)) == n
  {
    if n < 10 {
      assert Decimal(n)[..0] == "";
    } else {
      DecimalRoundTrip(n / 10);
      assert Decimal(n)[..|Decimal(n)| - 1] == Decimal(n / 10);
    }
  }

  /** A digit string without a leading zero is the numeral of its own value. */
  lemma {:induction false} NumeralRoundTrip(s: string)
    requires s != "" && AllDigits(s) && (s[0] == '0' ==> s == "0")
    ensures Decimal(DecimalValue(s)) == s
  {
    var init := s[..|s| - 1];
    if init == "" {
      assert s == [Digit(DigitValue(s[0]))];
    } else {
      assert init[0] == s[0];
      PositiveValue(init);
      NumeralRoundTrip(init);
      var m, d := DecimalValue(init), DigitValue(s[|s| - 1]);
      assert DecimalValue(s) == 10 * m + d && (10 * m + d) / 10 == m && (10 * m + d) % 10 == d;
      assert Decimal(10 * m + d) == Decimal(m) + [Digit(d)];
      assert s == init + [s[|s| - 1]];
    }
  }

  lemma {:induction false} PositiveValue(s: string)
    requires s != "" && AllDigits(s) && s[0] != '0'
    ensures DecimalValue(s) >= 1
  {
    if |s| > 1 {
      PositiveValue(s[..|s| - 1]);
    }
  }

  lemma DecimalInjective(m: nat, n: nat)
    requires Decimal(m) == Decimal(n)
    ensures m == n
  {
    DecimalRoundTrip(m);
    DecimalRoundTrip(n);
  }

  lemma {:induction false} FoldDigits(s: string)
    requires AllDigits(s)
    ensures Fold(s) == s
  {
    if s != "" { FoldDigits(s[1..]); }
  }

  function Pow10(k: nat): (p: nat)
    ensures p >= 1
  {
    if k == 0 then 1 else 10 * Pow10(k - 1)
  }

  lemma {:induction false} DecimalLength(n: nat, k: nat)
    requires k >= 1 && n < Pow10(k)
    ensures |Decimal(n)| <= k
  {
    if n >= 10 {
      assert k >= 2;
      DecimalLength(n / 10, k - 1);
    }
  }

  /** Texts that end in a separator followed by a numeral agree only when the numerals do. */
  lemma {:induction false} NumberedSuffixInjective(a: string, b: string, sep: char, m: nat, n: nat)
    requires !IsDigit(sep)
    requires a + [sep] + Decimal(m) == b + [sep] + Decimal(n)
    ensures a == b && m == n
  {
    var s := a + [sep] + Decimal(m);
    assert s == b + [sep] + Decimal(n);
    assert forall k :: |a| < k < |s| ==> s[k] == Decimal(m)[k - |a| - 1];
    assert forall k :: |b| < k < |s| ==> s[k] == Decimal(n)[k - |b| - 1];
    assert s[|a|] == sep && s[|b|] == sep;
    var i := |a|;
    assert |a| == |b|;
    assert a == s[..i] && Decimal(m) == s[i + 1..] && Decimal(n) == s[i + 1..] && b == s[..i];
    DecimalInjective(m, n);
  }

  predicate StartsWith(s: string, prefix: string) {
    |prefix| <= |s| && s[..|prefix|] == prefix
  }

  /** `Contains(part, StringComparison.Ordinal)`. */
  predicate ContainsText(s: string, part: string) { exists i: nat :: i <= |s| && PartAt(s, part, i) }

  predicate PartAt(s: string, part: string, i: nat) { i + |part| <= |s| && s[i..i + |part|] == part }

  /** `Contains(c)` on characters, spelled by position so that slices keep it. */
  predicate Free(s: string, c: char) { forall i :: 0 <= i < |s| ==> s[i] != c }

  predicate IsSpace(c: char) { c == ' ' || '\t' <= c <= '\r' }

  predicate IsBlank(s: string) { forall i :: 0 <= i < |s| ==> IsSpace(s[i]) }

  /** `string.Trim()`. */
  function Trim(s: string): (r: string)
    ensures r != "" ==> !IsSpace(r[0]) && !IsSpace(r[|r| - 1])
    decreases |s|
  {
    if s == "" then ""
    else if IsSpace(s[0]) then Trim(s[1..])
    else if IsSpace(s[|s| - 1]) then Trim(s[..|s| - 1])
    else s
  }

  /** `string.Split(c)`: never empty; the pieces hold no separator. */
  function Split(s: string, c: char): (parts: seq<string>)
    ensures |parts| >= 1
    ensures forall i :: 0 <= i < |parts| ==> Free(parts[i], c)
  {
    if s == "" then [""]
    else
      var rest := Split(s[1..], c);
      if s[0] == c then [""] + rest else [[s[0]] + rest[0]] + rest[1..]
  }

  lemma {:induction false} NoSplit(s: string, c: char)
    requires Free(s, c)
    ensures Split(s, c) == [s]
  {
    if s != "" {
      NoSplit(s[1..], c);
      assert [s[0]] + s[1..] == s;
    }
  }

  function Join(parts: seq<string>, sep: string): string {
    if parts == [] then ""
    else if |parts| == 1 then parts[0]
    else parts[0] + sep + Join(parts[1..], sep)
  }

  lemma TrimNext(s: string)
    requires s != ""
    ensures Trim(s) == if IsSpace(s[0]) then Trim(s[1..]) else if IsSpace(s[|s| - 1]) then Trim(s[..|s| - 1]) else s
  {
  }

  lemma BlankAround(c: char, s: string)
    requires IsSpace(c) && IsBlank(s)
    ensures IsBlank([c] + s) && IsBlank(s + [c])
  {
  }

  lemma NothingIsBlank()
    ensures IsBlank("") && Trim("") == ""
  {
  }

  /** Only white space is trimmed away. */
  lemma {:induction false} TrimExactly(s: string) returns (before: string, after: string)
    ensures s == before + Trim(s) + after && IsBlank(before) && IsBlank(after)
    decreases |s|
  {
    hide Trim, IsBlank, IsSpace;
    NothingIsBlank();
    before, after := "", "";
    if s != "" {
      TrimNext(s);
      if IsSpace(s[0]) {
        before, after := TrimExactly(s[1..]);
        BlankAround(s[0], before);
        assert s == [s[0]] + (before + Trim(s) + after);
        before := [s[0]] + before;
      } else if IsSpace(s[|s| - 1]) {
        before, after := TrimExactly(s[..|s| - 1]);
        BlankAround(s[|s| - 1], after);
        assert s == (before + Trim(s) + after) + [s[|s| - 1]];
        after := after + [s[|s| - 1]];
      }
    }
  }

  /** The pieces, joined by the separator, are the text again. */
  lemma {:induction false} SplitJoins(s: string, c: char)
    ensures Join(Split(s, c), [c]) == s
  {
    if s != "" {
      var rest := Split(s[1..], c);
      SplitJoins(s[1..], c);
      assert s == [s[0]] + s[1..];
      if s[0] == c {
        assert ([""] + rest)[1..] == rest;
      } else {
        var first := [s[0]] + rest[0];
        assert ([first] + rest[1..])[1..] == rest[1..];
        if |rest| > 1 { assert first + [c] + Join(rest[1..], [c]) == [s[0]] + (rest[0] + [c] + Join(rest[1..], [c])); }
      }
    }
  }

  lemma SplitFirst(a: string, c: char, rest: string)
    requires Free(a, c)
    ensures Split(a + [c] + rest, c) == [a] + Split(rest, c)
  {
    if a == "" {
      assert (a + [c] + rest)[1..] == rest;
    } else {
      SplitFirst(a[1..], c, rest);
      assert (a + [c] + rest)[1..] == a[1..] + [c] + rest;
      assert a == [a[0]] + a[1..];
    }
  }

  /** Joined texts without the separator are split into the same texts again. */
  lemma {:induction false} JoinSplits(parts: seq<string>, c: char)
    requires parts != [] && forall i :: 0 <= i < |parts| ==> Free(parts[i], c)
    ensures Split(Join(parts, [c]), c) == parts
  {
    hide Split, Free;
    if |parts| == 1 {
      NoSplit(parts[0], c);
    } else {
      JoinSplits(parts[1..], c);
      SplitFirst(parts[0], c, Join(parts[1..], [c]));
      assert Join(parts, [c]) == parts[0] + [c] + Join(parts[1..], [c]);
      assert [parts[0]] + parts[1..] == parts;
    }
  }

  /** Numerals are base ten, with the usual digits and the last one last. */
  lemma DecimalExactly(n: nat, d: nat)
    requires d < 10
    ensures Decimal(10 * n + d) == (if n == 0 then "" else Decimal(n)) + ["0123456789"[d]]
  {
    assert "0123456789"[d] == Digit(d);
    assert (10 * n + d) / 10 == n && (10 * n + d) % 10 == d;
  }

  /** Only the capital letters of ASCII are folded, each to the small one. */
  lemma FoldExactly(c: char, k: nat)
    requires k < 26
    ensures FoldChar("ABCDEFGHIJKLMNOPQRSTUVWXYZ"[k]) == "abcdefghijklmnopqrstuvwxyz"[k]
    ensures c !in "ABCDEFGHIJKLMNOPQRSTUVWXYZ" ==> FoldChar(c) == c
  {
    var capitals := "ABCDEFGHIJKLMNOPQRSTUVWXYZ";
    if 'A' <= c <= 'Z' { assert c == capitals[c as int - 'A' as int]; }
  }
}
