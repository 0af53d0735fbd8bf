/**
 * The Java value domains the modelled code works in: bytes, 32- and 64-bit
 * two's-complement integers, and the exceptions the code throws.
 */
module JavaValues {
  import opened Wrappers

  /** An unsigned octet, as read through `0xff & b`. */
  type Byte = x: int | 0 <= x < 256

  const IntMin: int := -0x8000_0000
  const IntMax: int := 0x7fff_ffff
  const LongMin: int := -0x8000_0000_0000_0000
  const LongMax: int := 0x7fff_ffff_ffff_ffff

  predicate IsInt(x: int) { IntMin <= x <= IntMax }
  predicate IsLong(x: int) { LongMin <= x <= LongMax }

  /**
   * Two's-complement truncation of an integer to Java `int`: the value in
   * the `int` range that agrees with `x` modulo 2^32.
   */
  function ToInt(x: int): (r: int)
    ensures IsInt(r)
    ensures IsInt(x) ==> r == x
  {
    var low := x % 0x1_0000_0000;
    if low > IntMax then low - 0x1_0000_0000 else low
  }

  /**
   * Two's-complement truncation of an integer to Java `long`: the value in
   * the `long` range that agrees with `x` modulo 2^64.
   */
  function ToLong(x: int): (r: int)
    ensures IsLong(r)
    ensures IsLong(x) ==> r == x
  {
    var low := x % 0x1_0000_0000_0000_0000;
    if low > LongMax then low - 0x1_0000_0000_0000_0000 else low
  }

  /** Truncation to a long changes a value by a multiple of 2^64. */
  lemma ToLongCongruent(x: int)
    ensures (ToLong(x) - x) % 0x1_0000_0000_0000_0000 == 0
  {
  }

  /**
   * Replacing one term `before` of a sum `total` by its wrapped increment
   * wraps to the same long as adding the step to the wrapped sum.
   */
  lemma ToLongReplaceTerm(total: int, before: int, step: int)
    ensures ToLong(ToLong(before + step) + (total - before)) == ToLong(ToLong(total) + step)
  {
    ToLongAdd(before + step, total - before);
    assert (before + step) + (total - before) == total + step;
    ToLongAdd(total, step);
  }

  /**
   * Wrapping after every addition is wrapping once at the end, so a long
   * accumulator computes the true sum modulo 2^64 whatever the order.
   */
  lemma ToLongAdd(a: int, b: int)
    ensures ToLong(ToLong(a) + b) == ToLong(a + b)
  {
    var M := 0x1_0000_0000_0000_0000;
    var low := a % M;
    assert a == M * (a / M) + low;
    ModuloDropsMultiple(a / M, low + b);
    if low > LongMax {
      ModuloDropsMultiple(-1, low + b);
    }
  }

  /** Adding a multiple of 2^64 leaves the residue modulo 2^64 unchanged. */
  lemma ModuloDropsMultiple(k: int, z: int)
    ensures (0x1_0000_0000_0000_0000 * k + z) % 0x1_0000_0000_0000_0000 == z % 0x1_0000_0000_0000_0000
  {
  }

  /** The exceptions the modelled code throws or lets escape. */
  datatype Exception =
    | IllegalArgument
    | IllegalState
    | NullPointer
    | IndexOutOfBounds
    | Assertion
    | ParserError        // XmlPullParserException: input ended or unexpected event
    | NetworkError       // a failed stanza round trip (SmackException, XMPPException)

  // ---------------------------------------------------------------------
  // Decimal text of an int: `Integer.parseInt` and `Integer.toString`

  predicate IsDigit(c: char) { '0' <= c <= '9' }

  predicate AllDigits(s: string) { forall i :: 0 <= i < |s| ==> IsDigit(s[i]) }

  /** The value of a string of decimal digits, most significant first. */
  function DigitsValue(s: string): nat
    requires AllDigits(s)
    decreases |s|
  {
    if s == [] then 0
    else DigitsValue(s[..|s| - 1]) * 10 + (s[|s| - 1] as int - '0' as int)
  }

  /**
   * `Integer.parseInt(s)`: an optional sign, then one or more ASCII digits,
   * denoting a value in the `int` range; anything else is a
   * NumberFormatException (None).
   */
  function ParseInt(s: string): (r: Option<int>)
    ensures r.Some? ==> IsInt(r.value) && s != []
    ensures s == [] || s == "-" || s == "+" ==> r.None?
  {
    if s == [] then None
    else
      var digits := if s[0] == '-' || s[0] == '+' then s[1..] else s;
      if digits == [] || !AllDigits(digits) then None
      else
        var magnitude: int := DigitsValue(digits);
        var v := if s[0] == '-' then -magnitude else magnitude;
        if IsInt(v) then Some(v) else None
  }

  /** The decimal digits of a natural number, without leading zeros. */
  function Digits(n: nat): (r: string)
    ensures r != [] && AllDigits(r)
    decreases n
  {
    if n < 10 then [('0' as int + n) as char]
    else Digits(n / 10) + [('0' as int + n % 10) as char]
  }

  /** `Integer.toString(n)`: a minus sign for a negative value, then the digits. */
  function DecimalText(n: int): string
  {
    if n < 0 then "-" + Digits(-n) else Digits(n)
  }

  /** The digits of `n` denote `n`. */
  lemma {:induction false} DigitsValueOfDigits(n: nat)
    ensures DigitsValue(Digits(n)) == n
    decreases n
  {
    if n >= 10 {
      DigitsValueOfDigits(n / 10);
      var s := Digits(n);
      assert s[..|s| - 1] == Digits(n / 10);
    }
  }

  /** `Integer.parseInt` reads back what `Integer.toString` writes, for every int. */
  lemma ParseIntOfDecimalText(n: int)
    requires IsInt(n)
    ensures ParseInt(DecimalText(n)) == Some(n)
  {
    var m := if n < 0 then -n else n;
    DigitsValueOfDigits(m);
    var d := Digits(m);
    assert IsDigit(d[0]);
    if n < 0 {
      assert ("-" + d)[1..] == d;
    }
  }

  /** The digits of 2^31, valued one prefix at a time. */
  lemma DigitsOfIntLimit()
    ensures DigitsValue("2147483648") == 2147483648
  {
    assert DigitsValue("21474") == 21474 by {
      assert "21474"[..4] == "2147";
      assert "2147"[..3] == "214";
      assert "214"[..2] == "21";
      assert "21"[..1] == "2";
      assert "2"[..0] == "";
    }
    assert "2147483648"[..9] == "214748364";
    assert "214748364"[..8] == "21474836";
    assert "21474836"[..7] == "2147483";
    assert "2147483"[..6] == "214748";
    assert "214748"[..5] == "21474";
  }

  /** Values outside the `int` range and stray characters are rejected. */
  lemma ParseIntRejects()
    ensures ParseInt("2147483648") == None
    ensures ParseInt("-2147483648") == Some(IntMin)
    ensures ParseInt("12a") == None
  {
    DigitsOfIntLimit();
    assert "-2147483648"[1..] == "2147483648";
    assert !IsDigit("12a"[2]);
  }
}
