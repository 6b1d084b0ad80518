/** Timestamps as the judge handles them: strings in the fixed-width format
    `YYYY-MM-DDTHH:MM:SS.sssZ`, compared with Rust's lexical `String` ordering.
    The lemmas here show why that is sound: on two well-formed timestamps the lexical
    order is the numeric order of their digit fields read as one number. */
module Timestamps {
  import opened Errors
  import opened Digits

  /** Rust's `<` on `String`: lexicographic by bytes, a proper prefix ordered first.
      UTF-8 byte order agrees with code point order, so characters compare directly.
      (Dafny's own `<` on sequences means "proper prefix", which is not this.) */
  predicate LexLess(a: string, b: string)
    ensures LexLess(a, b) <==> exists k :: FirstDifferenceAt(a, b, k)
    decreases |a|
  {
    if |b| == 0 then false
    else if |a| == 0 then
      assert FirstDifferenceAt(a, b, 0);
      true
    else if a[0] != b[0] then
      assert a[0] < b[0] ==> FirstDifferenceAt(a, b, 0);
      a[0] < b[0]
    else
      assert LexLess(a[1..], b[1..]) <==> exists k :: FirstDifferenceAt(a, b, k) by {
        if LexLess(a[1..], b[1..]) {
          var k :| FirstDifferenceAt(a[1..], b[1..], k);
          assert a[..k + 1] == [a[0]] + a[1..][..k] && b[..k + 1] == [b[0]] + b[1..][..k];
          assert FirstDifferenceAt(a, b, k + 1);
        }
        forall k | FirstDifferenceAt(a, b, k)
          ensures FirstDifferenceAt(a[1..], b[1..], k - 1)
        {
          assert a[1..][..k - 1] == a[..k][1..] && b[1..][..k - 1] == b[..k][1..];
        }
      }
      LexLess(a[1..], b[1..])
  }

  /** The reference reading of the order: `a` and `b` agree on their first `k` characters,
      and then either `a` ends while `b` goes on, or `a`'s next character is smaller. */
  ghost predicate FirstDifferenceAt(a: string, b: string, k: int) {
    0 <= k <= |a| && k < |b| && a[..k] == b[..k] && (k == |a| || a[k] < b[k])
  }

  /** Rust's `<=` on `String`. */
  predicate LexLe(a: string, b: string) {
    !LexLess(b, a)
  }

  lemma {:induction false} LexLessIrreflexive(a: string)
    ensures !LexLess(a, a)
    decreases |a|
  {
    if |a| > 0 {
      LexLessIrreflexive(a[1..]);
    }
  }

  lemma {:induction false} LexLessTransitive(a: string, b: string, c: string)
    requires LexLess(a, b) && LexLess(b, c)
    ensures LexLess(a, c)
    decreases |a|
  {
    if |a| > 0 && a[0] == b[0] && b[0] == c[0] {
      LexLessTransitive(a[1..], b[1..], c[1..]);
    }
  }

  /** Any two distinct strings are ordered one way or the other, and never both ways. */
  lemma {:induction false} LexLessTotal(a: string, b: string)
    ensures a == b || LexLess(a, b) || LexLess(b, a)
    ensures !(LexLess(a, b) && LexLess(b, a))
    decreases |a|
  {
    if |a| > 0 && |b| > 0 && a[0] == b[0] {
      LexLessTotal(a[1..], b[1..]);
      if a[1..] == b[1..] {
        assert a == [a[0]] + a[1..] && b == [b[0]] + b[1..];
      }
    }
  }

  /** The literal character the shape `0000-00-00T00:00:00.000Z` demands at position `i`,
      or `None` where it demands a digit. */
  function SeparatorAt(i: int): Option<char> {
    if i == 4 || i == 7 then Some('-')
    else if i == 10 then Some('T')
    else if i == 13 || i == 16 then Some(':')
    else if i == 19 then Some('.')
    else if i == 23 then Some('Z')
    else None
  }

  /** The fixed-width timestamp shape that stands in for chrono's parse of the job filter's
      time bounds with `%Y-%m-%dT%H:%M:%S%.3fZ`. */
  predicate IsTimestamp(s: string)
    ensures IsTimestamp(s) <==> FieldsWellFormed(s)
  {
    |s| == 24 &&
    forall i :: 0 <= i < |s| ==> if SeparatorAt(i).None? then IsDigit(s[i]) else s[i] == SeparatorAt(i).value
  }

  /** The format read field by field: a four-digit year, then two-digit month, day, hour,
      minute and second and three-digit milliseconds, each after its separator, then `Z`. */
  ghost predicate FieldsWellFormed(s: string) {
    && |s| == 24
    && DigitsBetween(s, 0, 4) && s[4] == '-' && DigitsBetween(s, 5, 7) && s[7] == '-'
    && DigitsBetween(s, 8, 10) && s[10] == 'T' && DigitsBetween(s, 11, 13) && s[13] == ':'
    && DigitsBetween(s, 14, 16) && s[16] == ':' && DigitsBetween(s, 17, 19) && s[19] == '.'
    && DigitsBetween(s, 20, 23) && s[23] == 'Z'
  }

  /** Positions `lo` up to (not including) `hi` of `s` hold decimal digits. */
  ghost predicate DigitsBetween(s: string, lo: nat, hi: nat)
    requires lo <= hi <= |s|
  {
    forall i :: lo <= i < hi ==> IsDigit(s[i])
  }

  /** Digits at the same positions, and equal characters everywhere else. */
  predicate SameShape(a: string, b: string) {
    |a| == |b| &&
    forall i :: 0 <= i < |a| ==> IsDigit(a[i]) == IsDigit(b[i]) && (!IsDigit(a[i]) ==> a[i] == b[i])
  }

  /** The digits of `s`, in order, with every separator dropped. */
  function DigitsOf(s: string): (d: string)
    ensures AllDigits(d)
    ensures |d| <= |s|
  {
    if |s| == 0 then []
    else (if IsDigit(s[0]) then [s[0]] else []) + DigitsOf(s[1..])
  }

  /** The instant a timestamp denotes, as the 17-digit number `YYYYMMDDHHMMSSsss`:
      comparing these numbers compares the fields year first, millisecond last. */
  function Instant(s: string): nat
    requires IsTimestamp(s)
  {
    DigitsValue(DigitsOf(s))
  }

  lemma TimestampsSameShape(a: string, b: string)
    requires IsTimestamp(a) && IsTimestamp(b)
    ensures SameShape(a, b)
  {
  }

  /** On strings of the same shape, the separators decide nothing: the lexical order is
      that of the digit strings. */
  lemma {:induction false} SameShapeLex(a: string, b: string)
    requires SameShape(a, b)
    ensures |DigitsOf(a)| == |DigitsOf(b)|
    ensures LexLess(a, b) <==> LexLess(DigitsOf(a), DigitsOf(b))
    decreases |a|
  {
    if |a| > 0 {
      var a', b' := a[1..], b[1..];
      assert SameShape(a', b') by {
        forall i | 0 <= i < |a'|
          ensures IsDigit(a'[i]) == IsDigit(b'[i]) && (!IsDigit(a'[i]) ==> a'[i] == b'[i])
        {
          assert a'[i] == a[i + 1] && b'[i] == b[i + 1];
        }
      }
      SameShapeLex(a', b');
      var da, db := DigitsOf(a'), DigitsOf(b');
      if IsDigit(a[0]) {
        assert DigitsOf(a) == [a[0]] + da && DigitsOf(b) == [b[0]] + db;
        assert ([a[0]] + da)[1..] == da && ([b[0]] + db)[1..] == db;
      } else {
        assert a[0] == b[0];
        assert DigitsOf(a) == da && DigitsOf(b) == db;
      }
    }
  }

  /** Decimal digit strings of equal length compare lexically exactly as their values do. */
  lemma {:induction false} DigitStringsLex(a: string, b: string)
    requires |a| == |b| && AllDigits(a) && AllDigits(b)
    ensures LexLess(a, b) <==> DigitsValue(a) < DigitsValue(b)
    decreases |a|
  {
    if |a| > 0 {
      var a', b' := a[1..], b[1..];
      assert AllDigits(a') && AllDigits(b');
      DigitsValueFront(a);
      DigitsValueFront(b);
      var p := Pow10(|a| - 1);
      var x, y := DigitVal(a[0]), DigitVal(b[0]);
      if a[0] == b[0] {
        DigitStringsLex(a', b');
      } else if a[0] < b[0] {
        HeadDominates(x, y, p, DigitsValue(a'), DigitsValue(b'));
      } else {
        HeadDominates(y, x, p, DigitsValue(b'), DigitsValue(a'));
      }
    }
  }

  /** A larger leading digit outweighs whatever follows it. */
  lemma HeadDominates(x: nat, y: nat, p: nat, r: nat, q: nat)
    requires x < y && r < p
    ensures x * p + r < y * p + q
  {
    var k := y - x - 1;
    assert y * p == (x + 1 + k) * p;
    assert (x + 1 + k) * p == x * p + p + k * p;
    assert k * p >= 0;
  }

  /** Fixed-width timestamps compare lexically exactly as the instants they denote:
      the lexical comparisons in the handlers are chronological comparisons. */
  lemma TimestampOrder(a: string, b: string)
    requires IsTimestamp(a) && IsTimestamp(b)
    ensures LexLess(a, b) <==> Instant(a) < Instant(b)
    ensures LexLe(a, b) <==> Instant(a) <= Instant(b)
  {
    TimestampsSameShape(a, b);
    SameShapeLex(a, b);
    DigitStringsLex(DigitsOf(a), DigitsOf(b));
    TimestampsSameShape(b, a);
    SameShapeLex(b, a);
    DigitStringsLex(DigitsOf(b), DigitsOf(a));
  }
}
