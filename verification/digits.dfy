/** Decimal digit strings: their value, the decimal rendering of a number, and
    Rust's `str::parse::<u32>()`, which the handlers use for every numeric path segment. */
module Digits {
  import opened Errors

  /** One more than the largest `u32`. */
  const U32_LIMIT: nat := 0x1_0000_0000

  predicate IsDigit(c: char) {
    '0' <= c <= '9'
  }

  function DigitVal(c: char): nat
    requires IsDigit(c)
  {
    c as int - '0' as int
  }

  function DigitChar(d: nat): (c: char)
    requires d < 10
    ensures IsDigit(c) && DigitVal(c) == d
  {
    ('0' as int + d) as char
  }

  predicate AllDigits(s: string) {
    forall i :: 0 <= i < |s| ==> IsDigit(s[i])
  }

  function Pow10(n: nat): (p: nat)
    ensures p >= 1
  {
    if n == 0 then 1 else 10 * Pow10(n - 1)
  }

  /** The number a string of decimal digits denotes, most significant digit first
      (leading zeros allowed). A string of `n` digits denotes a number below `10^n`. */
  function DigitsValue(s: string): (v: nat)
    requires AllDigits(s)
    ensures v < Pow10(|s|)
  {
    if |s| == 0 then 0
    else
      var prefix := DigitsValue(s[..|s| - 1]);
      assert prefix <= Pow10(|s| - 1) - 1;
      prefix * 10 + DigitVal(s[|s| - 1])
  }

  /** The shortest decimal rendering of `n` (what Rust's `to_string` prints for an
      unsigned integer). Reading it back gives `n` again. */
  function ToDecimal(n: nat): (s: string)
    ensures |s| >= 1 && AllDigits(s)
    ensures DigitsValue(s) == n
    ensures 1 < |s| ==> s[0] != '0'
  {
    if n < 10 then [DigitChar(n)]
    else
      var front := ToDecimal(n / 10);
      var s := front + [DigitChar(n % 10)];
      assert s[..|s| - 1] == front;
      s
  }

  /** Rust's `str::parse::<u32>()`: an optional leading `+`, then one or more decimal
      digits whose value fits in 32 bits. Anything else (empty, `+` alone, a `-`,
      a non-digit, an overflow) is a parse error, modelled as `None`. */
  function ParseU32(s: string): (r: Option<nat>)
    ensures r.Some? ==> r.value < U32_LIMIT
    ensures |s| == 0 || !(IsDigit(s[0]) || s[0] == '+') ==> r.None?
    ensures r.Some? && AllDigits(s) ==> r.value == DigitsValue(s)
    ensures (exists i :: 0 < i < |s| && !IsDigit(s[i])) ==> r.None?
    ensures |s| > 0 && AllDigits(s) ==>
      r == if DigitsValue(s) < U32_LIMIT then Some(DigitsValue(s)) else None
    ensures |s| > 0 && s[0] == '+' ==>
      r == if |s| > 1 && AllDigits(s[1..]) && DigitsValue(s[1..]) < U32_LIMIT
           then Some(DigitsValue(s[1..])) else None
  {
    var body := if |s| > 0 && s[0] == '+' then s[1..] else s;
    if |body| == 0 || !AllDigits(body) then None
    else if DigitsValue(body) >= U32_LIMIT then None
    else Some(DigitsValue(body))
  }

  /** Inputs `parse::<u32>` refuses: a trailing non-digit, a bare or misplaced sign. */
  lemma ParseU32Rejects()
    ensures ParseU32("1a") == None && ParseU32("+") == None && ParseU32("+x") == None
    ensures ParseU32("-1") == None && ParseU32("1+") == None
  {
    assert "1a"[1] == 'a' && "+x"[1..] == "x" && "1+"[1] == '+';
  }

  /** Leading zeros and a leading `+` are accepted. */
  lemma ParseU32Accepts()
    ensures ParseU32("007") == Some(7) && ParseU32("+42") == Some(42)
  {
    assert DigitsValue("0") == 0 by { assert "0"[..0] == ""; }
    assert DigitsValue("00") == 0 by { assert "00"[..1] == "0"; }
    assert DigitsValue("007") == 7 by { assert "007"[..2] == "00"; }
    assert "+42"[1..] == "42";
    assert DigitsValue("4") == 4 by { assert "4"[..0] == ""; }
    assert DigitsValue("42") == 42 by { assert "42"[..1] == "4"; }
  }

  /** The largest `u32` parses; one more overflows. */
  lemma ParseU32Range()
    ensures ParseU32("4294967295") == Some(4294967295) && ParseU32("4294967296") == None
  {
    assert DigitsValue("4") == 4 by { assert "4"[..0] == ""; }
    assert DigitsValue("42") == 42 by { assert "42"[..1] == "4"; }
    assert DigitsValue("429") == 429 by { assert "429"[..2] == "42"; }
    assert DigitsValue("4294") == 4294 by { assert "4294"[..3] == "429"; }
    assert DigitsValue("42949") == 42949 by { assert "42949"[..4] == "4294"; }
    assert DigitsValue("429496") == 429496 by { assert "429496"[..5] == "42949"; }
    assert DigitsValue("4294967") == 4294967 by { assert "4294967"[..6] == "429496"; }
    assert DigitsValue("42949672") == 42949672 by { assert "42949672"[..7] == "4294967"; }
    assert DigitsValue("429496729") == 429496729 by { assert "429496729"[..8] == "42949672"; }
    assert DigitsValue("4294967295") == 4294967295 by { assert "4294967295"[..9] == "429496729"; }
    assert DigitsValue("4294967296") == 4294967296 by { assert "4294967296"[..9] == "429496729"; }
  }

  /** Prepending a digit adds its weight at the highest position. */
  lemma {:induction false} DigitsValueFront(s: string)
    requires |s| >= 1 && AllDigits(s)
    ensures DigitsValue(s) == DigitVal(s[0]) * Pow10(|s| - 1) + DigitsValue(s[1..])
    decreases |s|
  {
    if |s| == 1 {
      assert s[..0] == [] && s[1..] == [];
    } else {
      var init, tail := s[..|s| - 1], s[1..];
      assert AllDigits(init) && AllDigits(tail);
      DigitsValueFront(init);
      assert init[1..] == tail[..|tail| - 1];
      var d, last, p := DigitVal(s[0]), DigitVal(s[|s| - 1]), Pow10(|s| - 2);
      var rest := DigitsValue(init[1..]);
      assert Pow10(|s| - 1) == 10 * p;
      ShiftDigit(d, p, rest, last, DigitsValue(init), DigitsValue(tail));
    }
  }

  /** The arithmetic step of `DigitsValueFront`: shifting `d * p + rest` one place left and
      appending `last` keeps `d` at the front, now weighted by `10 * p`. */
  lemma ShiftDigit(d: nat, p: nat, rest: nat, last: nat, front: nat, back: nat)
    requires front == d * p + rest && back == rest * 10 + last
    ensures front * 10 + last == d * (10 * p) + back
  {
  }

  /** Parsing the decimal rendering of any `u32` gives the number back, with or without
      the leading `+` that Rust's parser accepts. */
  lemma ParseToDecimal(n: nat)
    requires n < U32_LIMIT
    ensures ParseU32(ToDecimal(n)) == Some(n)
    ensures ParseU32("+" + ToDecimal(n)) == Some(n)
  {
    var s := ToDecimal(n);
    assert ("+" + s)[1..] == s;
  }
}
