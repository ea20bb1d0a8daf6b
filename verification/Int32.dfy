/** The sources' 32-bit integers: unchecked arithmetic and `int.TryParse`. */
module Int32 {
  import opened Optional
  import opened Text

  const MAX_INT: int := 0x7FFF_FFFF

  const WORD: int := 0x1_0000_0000

  /** The 32-bit two's complement reading of an integer. */
  function Wrap(n: int): (r: int)
    ensures -0x8000_0000 <= r < 0x8000_0000
  {
    (n + 0x8000_0000) % WORD - 0x8000_0000
  }

  lemma WrapCongruent(m: int, n: int)
    ensures Wrap(m) == Wrap(n) <==> (m - n) % WORD == 0
  {
    var a, b := m + 0x8000_0000, n + 0x8000_0000;
    assert a == WORD * (a / WORD) + a % WORD && b == WORD * (b / WORD) + b % WORD;
    if a % WORD == b % WORD {
      assert m - n == WORD * (a / WORD - b / WORD);
    }
    if (m - n) % WORD == 0 {
      var k := (m - n) / WORD;
      assert m - n == WORD * k;
      assert a == WORD * (b / WORD + k) + b % WORD;
    }
  }

  lemma WrapStep(n: int)
    ensures Wrap(Wrap(n) + 1) == Wrap(n + 1) && Wrap(Wrap(n) - 1) == Wrap(n - 1)
  {
    WrapIdentity(n);
    WrapCongruent(Wrap(n) + 1, n + 1);
    WrapCongruent(Wrap(n) - 1, n - 1);
  }

  lemma WrapIdentity(n: int)
    ensures (Wrap(n) - n) % WORD == 0
  {
    var a := n + 0x8000_0000;
    assert Wrap(n) - n == WORD * -(a / WORD);
  }

  lemma WrapSmall(n: int)
    requires -0x8000_0000 <= n < 0x8000_0000
    ensures Wrap(n) == n
  {
  }

  /** `int.TryParse`: surrounding white space, one sign, decimal digits, 32-bit range. */
  function ParseInt(part: string): Option<int> {
    var t := Trim(part);
    var negative := t != "" && t[0] == '-';
    var digits := if negative || (t != "" && t[0] == '+') then t[1..] else t;
    if digits == "" || !AllDigits(digits) then None
    else
      var magnitude: int := DecimalValue(digits);
      var n := if negative then -magnitude else magnitude;
      if -MAX_INT - 1 <= n <= MAX_INT then Some(n) else None
  }

  lemma {:induction false} TrimDigits(s: string)
    requires AllDigits(s)
    ensures Trim(s) == s
  {
  }

  lemma NaturalParses(k: nat)
    requires k <= MAX_INT
    ensures ParseInt(Decimal(k)) == Some(k)
  {
    TrimDigits(Decimal(k));
    DecimalRoundTrip(k);
  }

  /** A text reads as a number exactly when, white space aside, it is a numeral in range with at most one sign before it. */
  lemma ParseIntExactly(part: string, n: int)
    ensures ParseInt(part) == Some(n) <==>
              -0x8000_0000 <= n < 0x8000_0000
              && exists digits ::
                   digits != "" && AllDigits(digits)
                   && (((Trim(part) == digits || Trim(part) == "+" + digits) && n == DecimalValue(digits))
                       || (Trim(part) == "-" + digits && n + DecimalValue(digits) == 0))
  {
    hide DecimalValue, Trim;
    var t := Trim(part);
    if t != "" && AllDigits(t) {
      assert t[0] != '-' && t[0] != '+';
    }
    if ParseInt(part) == Some(n) {
      var digits := if t[0] == '-' || t[0] == '+' then t[1..] else t;
      assert t == digits || t == "+" + digits || t == "-" + digits;
    }
    if digits :| digits != "" && AllDigits(digits)
                 && (((t == digits || t == "+" + digits) && n == DecimalValue(digits)) || (t == "-" + digits && n + DecimalValue(digits) == 0)) {
      assert t != digits ==> t[1..] == digits;
      assert IsDigit(digits[0]);
    }
  }
}
