/** The pieces of the C string library the modelled code depends on: `strcmp`, and
    the `strtol` family with its white space, sign, base prefix and end pointer.
    Strings hold no NUL; the end of the sequence plays its part. */
module CText {

  const MAX_SIGNED: int := 0x7FFF_FFFF_FFFF_FFFF
  const MAX_UNSIGNED: int := 0xFFFF_FFFF_FFFF_FFFF

  /** The sign of `strcmp(a, b)`. */
  function StrCmp(a: string, b: string): (r: int)
    ensures r == 0 <==> a == b
  {
    if a == [] && b == [] then 0
    else if a == [] then -1
    else if b == [] then 1
    else if a[0] < b[0] then -1
    else if a[0] > b[0] then 1
    else
      assert a == [a[0]] + a[1..] && b == [b[0]] + b[1..];
      StrCmp(a[1..], b[1..])
  }

  predicate IsSpace(c: char) {
    c == ' ' || '\t' <= c <= '\r'
  }

  /** The value of `c` as a digit of base 36, or 36 when it is none. */
  function DigitValue(c: char): nat {
    if '0' <= c <= '9' then (c - '0') as nat
    else if 'a' <= c <= 'z' then (c - 'a') as nat + 10
    else if 'A' <= c <= 'Z' then (c - 'A') as nat + 10
    else 36
  }

  function SkipSpaces(s: string, i: nat): (j: nat)
    requires i <= |s|
    ensures i <= j <= |s|
    decreases |s| - i
  {
    if i < |s| && IsSpace(s[i]) then SkipSpaces(s, i + 1) else i
  }

  /** Reads digits of `base` from `i` on; the value so far is `acc`. */
  function ScanDigits(s: string, i: nat, base: nat, acc: nat): (r: (nat, nat))
    requires i <= |s|
    ensures i <= r.1 <= |s|
    decreases |s| - i
  {
    if i < |s| && DigitValue(s[i]) < base then
      ScanDigits(s, i + 1, base, acc * base + DigitValue(s[i]))
    else (acc, i)
  }

  /** What a `strtol` function reads: magnitude, sign, and the end offset (0 when there
      was no number to read). */
  datatype Scan = Scan(magnitude: nat, negative: bool, end: nat) {
    function Value(): int {
      if negative then 0 - magnitude else magnitude
    }
  }

  function ScanInteger(s: string, base: nat): (r: Scan)
    ensures r.end <= |s|
  {
    var i := SkipSpaces(s, 0);
    var signed := i < |s| && (s[i] == '-' || s[i] == '+');
    var negative := i < |s| && s[i] == '-';
    var j := if signed then i + 1 else i;
    var hex := (base == 0 || base == 16) && j + 2 < |s| && s[j] == '0'
               && (s[j + 1] == 'x' || s[j + 1] == 'X') && DigitValue(s[j + 2]) < 16;
    var b := if base != 0 then base else if hex then 16 else if j < |s| && s[j] == '0' then 8 else 10;
    var start := if hex then j + 2 else j;
    var (value, end) := ScanDigits(s, start, b, 0);
    if end == start then Scan(0, false, 0) else Scan(value, negative, end)
  }

  /** Two's complement reading of a value as an unsigned 64-bit word. */
  function AsUnsigned(x: int): (r: nat)
    ensures r <= MAX_UNSIGNED
  {
    x % 0x1_0000_0000_0000_0000
  }
}
