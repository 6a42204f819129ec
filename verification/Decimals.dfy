/** Numbers in decimal, as the C library reads them. */
module Decimals {
  import opened CText

  function Digit(d: nat): char
    requires d < 10
  {
    "0123456789"[d]
  }

  /** `k` in decimal. */
  function Decimal(k: nat): (s: string)
    ensures |s| >= 1
  {
    if k < 10 then [Digit(k)] else Decimal(k / 10) + [Digit(k % 10)]
  }

  lemma DigitReads(d: nat)
    requires d < 10
    ensures DigitValue(Digit(d)) == d
    ensures var c := Digit(d); !IsSpace(c) && c != '-' && c != '+' && c != '$' && c != ',' && c != '(' && c != ')'
  {
  }

  lemma {:induction false} DecimalStarts(k: nat)
    ensures var c := Decimal(k)[0]; !IsSpace(c) && c != '-' && c != '+'
    ensures DigitValue(Decimal(k)[|Decimal(k)| - 1]) < 10
  {
    if k < 10 {
      DigitReads(k);
    } else {
      DigitReads(k % 10);
      DecimalStarts(k / 10);
    }
  }

  lemma {:induction false} ScanOneMore(s: string, c: char, i: nat, acc: nat)
    requires i <= |s| && ScanDigits(s, i, 10, acc).1 == |s| && DigitValue(c) < 10
    ensures ScanDigits(s + [c], i, 10, acc) == (ScanDigits(s, i, 10, acc).0 * 10 + DigitValue(c), |s| + 1)
    decreases |s| - i
  {
    if i < |s| {
      assert (s + [c])[i] == s[i];
      ScanOneMore(s, c, i + 1, acc * 10 + DigitValue(s[i]));
    } else {
      assert (s + [c])[i] == c;
      assert ScanDigits(s + [c], i + 1, 10, acc * 10 + DigitValue(c)) == (acc * 10 + DigitValue(c), i + 1);
    }
  }

  lemma {:induction false} ScanDecimal(k: nat)
    ensures ScanDigits(Decimal(k), 0, 10, 0) == (k, |Decimal(k)|)
  {
    if k < 10 {
      DigitReads(k);
      var s := Decimal(k);
      assert ScanDigits(s, 1, 10, k) == (k, 1);
    } else {
      DigitReads(k % 10);
      ScanDecimal(k / 10);
      ScanOneMore(Decimal(k / 10), Digit(k % 10), 0, 0);
    }
  }

  lemma ScanUnsigned(s: string, k: nat)
    requires |s| > 0 && !IsSpace(s[0]) && s[0] != '-' && s[0] != '+'
    requires ScanDigits(s, 0, 10, 0) == (k, |s|)
    ensures ScanInteger(s, 10) == Scan(k, false, |s|)
  {
    hide ScanDigits, IsSpace;
    assert SkipSpaces(s, 0) == 0;
  }

  /** strtol and its kin read back the number. */
  lemma DecimalScans(k: nat)
    ensures ScanInteger(Decimal(k), 10) == Scan(k, false, |Decimal(k)|)
  {
    hide Decimal, ScanInteger, ScanDigits, IsSpace;
    DecimalStarts(k);
    ScanDecimal(k);
    ScanUnsigned(Decimal(k), k);
  }
}
