/** 64-bit division from 32-bit halves, as in int64.c. */
module Int64 {
  import opened CBits

  // ----- Counting zeros -----

  /** The position of the top bit, and of the lowest one. */
  ghost predicate LeadingZeros(a: nat, width: nat, r: nat) {
    r < width && Pow2(width - 1 - r) <= a < Pow2(width - r)
  }

  ghost predicate TrailingZeros(a: nat, r: nat) {
    Low(a, r) == 0 && Shr(a, r) % 2 == 1
  }

  /** `cond << k` and `-cond`, for a comparison `cond` that gives 0 or 1. */
  function Bit(cond: bool, value: nat): nat {
    if cond then value else 0
  }

  function Mask(cond: bool): nat {
    if cond then WORD - 1 else 0
  }

  /** 2^h for the widths that occur. */
  function Span(h: nat): nat {
    if h == 32 then WORD else if h == 16 then 0x1_0000 else if h == 8 then 0x100
    else if h == 4 then 0x10 else if h == 2 then 4 else 0
  }

  /** One halving step of __clzsi2: x is what is left of a, r zeros have been counted.
      When the upper half of x is empty count h zeros, otherwise drop the lower half. */
  lemma ClzStep(a: nat, x: nat, w: nat, r: nat, h: nat, mask: nat, t: nat)
    requires r <= w && x == Shr(a, w - r) && 0 < x < Span(2 * h)
    requires (h == 16 || h == 8 || h == 4 || h == 2) && mask == Span(2 * h) - Span(h)
    requires t == Bit(And(x, mask) == 0, h)
    ensures 0 < Shr(x, h - t) < Span(h)
    ensures Shr(x, h - t) == Shr(a, w + h - (r + t))
  {
    Pow2Bytes();
    Pow2Words();
    AndHighMask(x, h, 2 * h);
    ShrShr(a, w - r, h - t);
    ShrBounds(x, h, 2 * h);
  }

  /** The last two bits: r + ((2 - x) & -((x & 2) == 0)). */
  lemma ClzEnd(a: nat, x: nat, r: nat)
    requires r <= 30 && x == Shr(a, 30 - r) && 1 <= x <= 3
    ensures LeadingZeros(a, 32, r + And((2 - x) % WORD, Mask(And(x, 2) == 0)))
  {
    assert And(x, 2) == 0 <==> x == 1 by {
      Pow2Bytes();
      AndHighMask(x, 1, 2);
    }
    AndMask((2 - x) % WORD, And(x, 2) == 0);
    TopBitPosition(a, 30 - r);
    assert And((2 - x) % WORD, Mask(And(x, 2) == 0)) == if x == 1 then 1 else 0;
  }

  lemma TopBitPosition(a: nat, k: nat)
    requires 1 <= Shr(a, k) <= 3
    ensures Shr(a, k) == 1 ==> Pow2(k) <= a < Pow2(k + 1)
    ensures Shr(a, k) > 1 ==> Pow2(k + 1) <= a < Pow2(k + 2)
  {
    ShrBounds(a, k, k + 1);
    ShrBounds(a, k, k + 2);
    ShrBounds(a, k + 1, k + 1);
    ShrShr(a, k, 1);
    Pow2Bytes();
  }

  /** x & (all ones or nothing). */
  lemma AndMask(x: nat, cond: bool)
    requires x < WORD
    ensures And(x, Mask(cond)) == if cond then x else 0
  {
    Pow2Words();
    AndLowMask(x, 32);
    LowOfSmall(x, 32);
    AndZero(x);
  }

  /** __clzsi2. */
  method Clzsi2(a: nat) returns (r: nat)
    requires 0 < a < WORD
    ensures LeadingZeros(a, 32, r)
  {
    hide CBits.Up, CBits.Shr, CBits.Low, CBits.And, CBits.Or, CBits.Shl;
    ShrNothing(a);
    var t := Bit(And(a, 0xFFFF_0000) == 0, 16);
    ClzStep(a, a, 0, 0, 16, 0xFFFF_0000, t);
    var x := Shr(a, 16 - t);
    r := t;
    t := Bit(And(x, 0xFF00) == 0, 8);
    ClzStep(a, x, 16, r, 8, 0xFF00, t);
    x := Shr(x, 8 - t);
    r := r + t;
    t := Bit(And(x, 0xF0) == 0, 4);
    ClzStep(a, x, 24, r, 4, 0xF0, t);
    x := Shr(x, 4 - t);
    r := r + t;
    t := Bit(And(x, 0xC) == 0, 2);
    ClzStep(a, x, 28, r, 2, 0xC, t);
    x := Shr(x, 2 - t);
    r := r + t;
    ClzEnd(a, x, r);
    r := r + And((2 - x) % WORD, Mask(And(x, 2) == 0));
  }

  lemma {:induction false} LowSplit(x: nat, a: nat, b: nat)
    ensures Low(x, a + b) == Up(Low(Shr(x, a), b), a) + Low(x, a)
    decreases a
  {
    if a > 0 {
      LowSplit(x / 2, a - 1, b);
    }
  }

  /** One halving step of __ctzsi2. */
  lemma CtzStep(a: nat, x: nat, r: nat, h: nat, mask: nat, t: nat)
    requires x == Shr(a, r) && Low(a, r) == 0 && Low(x, 2 * h) != 0
    requires (h == 16 || h == 8 || h == 4 || h == 2) && mask == Span(h) - 1
    requires t == Bit(And(x, mask) == 0, h)
    ensures Shr(x, t) == Shr(a, r + t) && Low(a, r + t) == 0 && Low(Shr(x, t), h) != 0
  {
    Pow2Bytes();
    AndLowMask(x, h);
    ShrShr(a, r, t);
    LowSplit(a, r, t);
    LowSplit(x, h, h);
    UpZero(r);
    UpZero(h);
  }

  /** The last two bits: r + ((2 - (x >> 1)) & -((x & 1) == 0)). */
  lemma CtzEnd(a: nat, y: nat, r: nat, x: nat)
    requires r <= 30 && y == Shr(a, r) && Low(a, r) == 0 && Low(y, 2) != 0 && x == And(y, 3)
    ensures Shr(x, 1) <= 2
    ensures r + And(2 - Shr(x, 1), Mask(And(x, 1) == 0)) < 32
    ensures TrailingZeros(a, r + And(2 - Shr(x, 1), Mask(And(x, 1) == 0)))
  {
    assert x == y % 2 + 2 * (y / 2 % 2) by {
      Pow2Bytes();
      AndLowMask(y, 2);
      TwoBits(y);
    }
    assert Shr(x, 1) == x / 2 && And(x, 1) == x % 2 by {
      Pow2Bytes();
      AndLowMask(x, 1);
      TwoBits(x);
    }
    assert x > 0 by { TwoBits(y); }
    AndMask(2 - Shr(x, 1), And(x, 1) == 0);
    if x % 2 == 0 {
      NextZero(a, r);
    }
  }

  lemma NextZero(a: nat, r: nat)
    requires Low(a, r) == 0 && Shr(a, r) % 2 == 0 && Shr(a, r) / 2 % 2 == 1
    ensures TrailingZeros(a, r + 1)
  {
    ShrShr(a, r, 1);
    LowSplit(a, r, 1);
    TwoBits(Shr(a, r));
    UpZero(r);
  }

  lemma TwoBits(y: nat)
    ensures Low(y, 1) == y % 2 && Low(y, 2) == y % 2 + 2 * (y / 2 % 2) && Shr(y, 1) == y / 2
  {
    assert Low(y / 2 / 2, 0) == 0 && Low(y / 2, 0) == 0;
    assert Low(y / 2, 1) == y / 2 % 2 + 2 * Low(y / 2 / 2, 0);
    assert Shr(y / 2, 0) == y / 2;
  }

  /** __ctzsi2. */
  method Ctzsi2(a: nat) returns (r: nat)
    requires 0 < a < WORD
    ensures r < 32 && TrailingZeros(a, r)
  {
    hide CBits.Up, CBits.Shr, CBits.Low, CBits.And, CBits.Or, CBits.Shl;
    assert Low(a, 32) != 0 by {
      Pow2Words();
      LowOfSmall(a, 32);
    }
    ShrNothing(a);
    var t := Bit(And(a, 0xFFFF) == 0, 16);
    CtzStep(a, a, 0, 16, 0xFFFF, t);
    var x := Shr(a, t);
    r := t;
    t := Bit(And(x, 0xFF) == 0, 8);
    CtzStep(a, x, r, 8, 0xFF, t);
    x := Shr(x, t);
    r := r + t;
    t := Bit(And(x, 0xF) == 0, 4);
    CtzStep(a, x, r, 4, 0xF, t);
    x := Shr(x, t);
    r := r + t;
    t := Bit(And(x, 3) == 0, 2);
    CtzStep(a, x, r, 2, 3, t);
    x := Shr(x, t);
    r := r + t;
    CtzEnd(a, x, r, And(x, 3));
    x := And(x, 3);
    r := r + And(2 - Shr(x, 1), Mask(And(x, 1) == 0));
  }

  // ----- Halves -----

  /** The number a pair of words stands for: the union `udwords`. */
  function All(high: nat, low: nat): nat {
    WORD * high + low
  }

  lemma AllBounds(high: nat, low: nat)
    ensures high < WORD && low < WORD ==> All(high, low) < DWORD
    ensures high > 0 ==> All(high, low) > 0
  {
  }

  /** A two-word number shifted right by k bits of a w-bit word, and the bits shifted out
      moved to the top. */
  lemma NarrowShiftAt(high: nat, low: nat, k: nat, w: nat)
    requires low < Pow2(w) && k <= w
    ensures Shr(Up(high, w) + low, k) == Up(Shr(high, k), w) + Up(Low(high, k), w - k) + Shr(low, k)
    ensures Low(Up(high, w) + low, k) == Low(low, k)
  {
    hide CBits.Up, CBits.Shr, CBits.Low;
    var r := Up(Shr(high, k), w) + Up(Low(high, k), w - k) + Shr(low, k);
    NarrowShiftSum(high, low, k, w);
    Split(low, k);
    SplitUnique(r, Low(low, k), k);
  }

  lemma UpBoth(x: nat, k: nat, w: nat)
    ensures Up(x, w) == Up(Up(Shr(x, k), w), k) + Up(Low(x, k), w)
  {
    Split(x, k);
    UpAdd(Up(Shr(x, k), k), Low(x, k), w);
    UpUp(Shr(x, k), k, w);
    UpUp(Shr(x, k), w, k);
  }

  lemma NarrowShiftSum(high: nat, low: nat, k: nat, w: nat)
    requires k <= w
    ensures Up(Up(Shr(high, k), w) + Up(Low(high, k), w - k) + Shr(low, k), k) + Low(low, k) == Up(high, w) + low
  {
    hide CBits.Up, CBits.Shr, CBits.Low, CBits.And, CBits.Or, CBits.Shl;
    var h1, h0, l1 := Shr(high, k), Low(high, k), Shr(low, k);
    Split(low, k);
    UpAdd(Up(h1, w) + Up(h0, w - k), l1, k);
    UpAdd(Up(h1, w), Up(h0, w - k), k);
    UpUp(h0, w - k, k);
    UpBoth(high, k, w);
  }

  /** q:r set up from n for a shift of 1 <= k < 32 bits. */
  lemma NarrowShift(nHigh: nat, nLow: nat, k: nat)
    requires nHigh < WORD && nLow < WORD && 1 <= k < 32
    ensures var n := All(nHigh, nLow);
            && All(Shr(nHigh, k), Or(Shl(nHigh, 32 - k, 32), Shr(nLow, k))) == Shr(n, k)
            && All(Shl(nLow, 32 - k, 32), 0) == Up(Low(n, k), 64 - k)
    ensures Or(Shl(nHigh, 32 - k, 32), Shr(nLow, k)) < WORD && Shl(nLow, 32 - k, 32) < WORD
  {
    hide CBits.Up, CBits.Shr, CBits.Low, CBits.And, CBits.Or, CBits.Shl;
    Pow2Words();
    UpWord(nHigh);
    NarrowShiftAt(nHigh, nLow, k, 32);
    UpWord(Shr(nHigh, k));
    ShiftAcross(nHigh, nLow, k, 32);
    ShlKeeps(nLow, k, 32);
    UpUp(Low(nLow, k), 32 - k, 32);
    UpWord(Up(Low(nLow, k), 32 - k));
  }

  lemma WideShiftAt(high: nat, low: nat, m: nat, w: nat)
    requires low < Pow2(w) && m <= w
    ensures Shr(Up(high, w) + low, w + m) == Shr(high, m)
    ensures Up(Low(Up(high, w) + low, w + m), w - m) == Up(Up(Low(high, m), w - m) + Shr(low, m), w) + Up(Low(low, m), w - m)
  {
    hide CBits.Up, CBits.Shr, CBits.Low;
    var n, h0 := Up(high, w) + low, Low(high, m);
    SplitUnique(high, low, w);
    ShrShr(n, w, m);
    LowSplit(n, w, m);
    WideShiftSum(h0, low, m, w);
  }

  lemma WideShiftSum(h0: nat, low: nat, m: nat, w: nat)
    requires m <= w
    ensures Up(Up(h0, w) + low, w - m) == Up(Up(h0, w - m) + Shr(low, m), w) + Up(Low(low, m), w - m)
  {
    hide CBits.Up, CBits.Shr, CBits.Low, CBits.And, CBits.Or, CBits.Shl;
    var l1, l0 := Shr(low, m), Low(low, m);
    UpAdd(Up(h0, w - m), l1, w);
    UpAdd(Up(h0, w), low, w - m);
    UpUp(h0, w, w - m);
    UpUp(h0, w - m, w);
    UpSplit(low, m, w);
  }

  /** The same for a shift of 32 + m bits ... */
  lemma WideShift(nHigh: nat, nLow: nat, m: nat)
    requires nHigh < WORD && nLow < WORD && 1 <= m < 32
    ensures var n := All(nHigh, nLow);
            && All(0, Shr(nHigh, m)) == Shr(n, 32 + m)
            && All(Or(Shl(nHigh, 32 - m, 32), Shr(nLow, m)), Shl(nLow, 32 - m, 32)) == Up(Low(n, 32 + m), 32 - m)
    ensures Or(Shl(nHigh, 32 - m, 32), Shr(nLow, m)) < WORD && Shl(nLow, 32 - m, 32) < WORD
  {
    hide CBits.Up, CBits.Shr, CBits.Low, CBits.And, CBits.Or, CBits.Shl;
    Pow2Words();
    UpWord(nHigh);
    WideShiftAt(nHigh, nLow, m, 32);
    ShiftAcross(nHigh, nLow, m, 32);
    ShlKeeps(nLow, m, 32);
    UpWord(Or(Shl(nHigh, 32 - m, 32), Shr(nLow, m)));
  }

  /** ... and for one of exactly 32 bits. */
  lemma WordShift(nHigh: nat, nLow: nat)
    requires nHigh < WORD && nLow < WORD
    ensures All(0, nHigh) == Shr(All(nHigh, nLow), 32)
    ensures All(nLow, 0) == Up(Low(All(nHigh, nLow), 32), 32)
  {
    Pow2Words();
    UpWord(nHigh);
    SplitUnique(nHigh, nLow, 32);
    UpWord(nLow);
  }

  /** Shifting a pair of words left by one, with a bit coming in at the bottom. */
  lemma ShiftPair(high: nat, low: nat, bit: nat)
    requires high < WORD && low < WORD && bit <= 1
    ensures var h, l := Or(Shl(high, 1, 32), Shr(low, 31)), Or(Shl(low, 1, 32), bit);
            && h < WORD && l < WORD && Shr(high, 31) <= 1
            && 2 * All(high, low) + bit == DWORD * Shr(high, 31) + All(h, l)
  {
    Pow2Words();
    Pow2Bytes();
    ShiftAcross(high, low, 31, 32);
    ShlKeeps(low, 31, 32);
    OrDisjoint(Low(low, 31), bit, 1);
    Split(high, 31);
    Split(low, 31);
    UpWord(Shr(high, 31));
    UpWord(Shr(low, 31));
    UpOne(Low(high, 31));
    UpOne(Low(low, 31));
    UpThirtyOne(Shr(high, 31));
    UpThirtyOne(Shr(low, 31));
    ShrBounds(high, 31, 32);
    ShrBounds(low, 31, 32);
  }

  lemma UpOne(x: nat)
    ensures Up(x, 1) == 2 * x
  {
    assert Up(x, 1) == 2 * Up(x, 0);
  }

  lemma UpThirtyOne(x: nat)
    ensures Up(x, 31) == 0x8000_0000 * x
  {
    UpWord(x);
    assert Up(x, 32) == 2 * Up(x, 31);
  }

  // ----- The division loop -----

  /** With sr bits of the dividend n still to bring down: q holds them at the top and the
      quotient digits at the bottom, all but the last one, which is in carry; and the digits
      and r divide the part of n brought down so far by d. A divisor of more than 63 bits
      leaves room for one step only. */
  ghost predicate Dividing(n: nat, d: nat, sr: nat, q: nat, r: nat, carry: nat, digits: nat) {
    && sr <= 64 && carry <= 1 && n < DWORD
    && q == Up(Low(n, sr), 64 - sr) + digits && digits < Pow2(64 - sr)
    && Shr(n, sr) == (2 * digits + carry) * d + r && r < d
    && (d > SIGN && sr > 0 ==> sr == 1 && digits == 0 && carry == 0 && n >= SIGN)
  }

  lemma NextBit(n: nat, sr: nat)
    requires sr > 0
    ensures Shr(n, sr - 1) == 2 * Shr(n, sr) + Shr(n, sr - 1) % 2
    ensures Low(n, sr) == Up(Shr(n, sr - 1) % 2, sr - 1) + Low(n, sr - 1)
  {
    ShrShr(n, sr - 1, 1);
    LowSplit(n, sr - 1, 1);
    TwoBits(Shr(n, sr - 1));
  }

  lemma UpSixtyThree(b: nat)
    ensures Up(b, 63) == SIGN * b
  {
    UpWord(b);
    UpUp(b, 32, 31);
    UpThirtyOne(WORD * b);
  }

  /** The bits still to come, moved up: the next one is at the top. */
  lemma PendingBits(n: nat, sr: nat)
    requires 0 < sr <= 64
    ensures Up(Low(n, sr), 64 - sr) == SIGN * (Shr(n, sr - 1) % 2) + Up(Low(n, sr - 1), 64 - sr)
  {
    hide CBits.Up, CBits.Shr, CBits.Low;
    var b, rest := Shr(n, sr - 1) % 2, Low(n, sr - 1);
    NextBit(n, sr);
    UpAdd(Up(b, sr - 1), rest, 64 - sr);
    UpUp(b, sr - 1, 64 - sr);
    UpSixtyThree(b);
  }

  lemma UpNext(x: nat, k: nat)
    ensures Up(x, k + 1) == 2 * Up(x, k)
  {
  }

  /** What the shift does to q. */
  lemma ShiftQuotient(n: nat, d: nat, sr: nat, q: nat, r: nat, carry: nat, digits: nat)
    requires Dividing(n, d, sr, q, r, carry, digits) && sr > 0
    ensures 2 * q + carry == DWORD * (Shr(n, sr - 1) % 2) + (Up(Low(n, sr - 1), 65 - sr) + (2 * digits + carry))
    ensures Up(Low(n, sr - 1), 65 - sr) + (2 * digits + carry) < DWORD
    ensures 2 * digits + carry < Pow2(65 - sr)
  {
    hide CBits.Up, CBits.Shr, CBits.Low;
    var rest := Low(n, sr - 1);
    PendingBits(n, sr);
    Split(n, sr - 1);
    FieldsFit(rest, digits, sr - 1, 63);
    Pow2Words();
    UpNext(rest, 64 - sr);
    UpNext(1, 64 - sr);
  }

  lemma DoubleProduct(x: nat, d: nat)
    ensures (2 * x) * d == 2 * (x * d) && x * d >= 0 && 0 * d == 0
  {
  }

  /** What the shift does to r: nothing is lost, and the old remainder law carries over. */
  lemma ShiftRemainder(n: nat, d: nat, sr: nat, q: nat, r: nat, carry: nat, digits: nat)
    requires Dividing(n, d, sr, q, r, carry, digits) && sr > 0
    ensures var r' := 2 * r + Shr(n, sr - 1) % 2;
            && r' < DWORD && r' < 2 * d
            && Shr(n, sr - 1) == (2 * (2 * digits + carry)) * d + r'
            && (d > SIGN ==> r' >= SIGN)
  {
    hide CBits.Up, CBits.Shr, CBits.Low, CBits.And, CBits.Or, CBits.Shl;
    var b, quot := Shr(n, sr - 1) % 2, 2 * digits + carry;
    NextBit(n, sr);
    DoubleProduct(quot, d);
    ShrLess(n, sr - 1);
    ShrNothing(n);
  }

  /** The branchless comparison: the sign of d - r - 1, taken modulo 2^64, tells r >= d. */
  function SignMask(x: nat): nat {
    if x >= SIGN then DWORD - 1 else 0
  }

  /** The comparison is right exactly when the difference fits a signed 64-bit word; that is
      what the shift by the difference of the leading zeros is for. */
  lemma SignMaskExact(d: nat, r: nat)
    requires d < DWORD && r < DWORD
    ensures SignMask((d - r - 1) % DWORD) == (if r >= d then DWORD - 1 else 0) <==> 0 <= d - r - 1 + SIGN < DWORD
  {
    if d - r - 1 < 0 {
      assert (d - r - 1) % DWORD == d - r - 1 + DWORD;
    }
  }

  /** Inside the loop it always does. */
  lemma SignMaskCompares(d: nat, r: nat)
    requires d < DWORD && r < DWORD && r < 2 * d && (d > SIGN ==> r >= SIGN)
    ensures SignMask((d - r - 1) % DWORD) == if r >= d then DWORD - 1 else 0
  {
    SignMaskExact(d, r);
  }

  lemma MaskedValue(x: nat, s: nat)
    requires x < DWORD && (s == 0 || s == DWORD - 1)
    ensures And(x, s) == if s == 0 then 0 else x
    ensures And(s, 1) == if s == 0 then 0 else 1
  {
    Pow2Words();
    AndZero(x);
    AndLowMask(x, 64);
    LowOfSmall(x, 64);
    AndZero(0);
    assert And(s, 1) == (if s % 2 == 1 then 1 else 0) + 2 * And(s / 2, 0) || s == 0;
    AndZero(s / 2);
  }

  /** One digit of the quotient. */
  lemma DigitDone(n: nat, d: nat, sr: nat, r: nat, digits: nat, carry: nat)
    requires r < 2 * d && carry == (if r >= d then 1 else 0)
    requires Shr(n, sr) == (2 * digits) * d + r
    ensures Shr(n, sr) == (2 * digits + carry) * d + (r - carry * d) && 0 <= r - carry * d < d
  {
    assert (2 * digits + carry) * d == (2 * digits) * d + carry * d;
  }

  /** The two halves of (high:low) << 1 | bit. */
  function ShiftedHigh(high: nat, low: nat): nat {
    Or(Shl(high, 1, 32), Shr(low, 31))
  }

  function ShiftedLow(low: nat, bit: nat): nat {
    Or(Shl(low, 1, 32), bit)
  }

  /** q:r shifted left by one with the last digit coming in, seen from the word pairs. */
  lemma ShiftStep(n: nat, d: nat, sr: nat, qHigh: nat, qLow: nat, rHigh: nat, rLow: nat, carry: nat, digits: nat)
    requires qHigh < WORD && qLow < WORD && rHigh < WORD && rLow < WORD && sr > 0
    requires Dividing(n, d, sr, All(qHigh, qLow), All(rHigh, rLow), carry, digits)
    ensures ShiftedHigh(rHigh, rLow) < WORD && ShiftedLow(rLow, Shr(qHigh, 31)) < WORD
    ensures ShiftedHigh(qHigh, qLow) < WORD && ShiftedLow(qLow, carry) < WORD
    ensures All(ShiftedHigh(qHigh, qLow), ShiftedLow(qLow, carry)) == Up(Low(n, sr - 1), 65 - sr) + (2 * digits + carry)
    ensures All(ShiftedHigh(rHigh, rLow), ShiftedLow(rLow, Shr(qHigh, 31))) == 2 * All(rHigh, rLow) + Shr(n, sr - 1) % 2
  {
    hide CBits.Up, CBits.Shr, CBits.Low, CBits.And, CBits.Or, CBits.Shl;
    ShiftQuotient(n, d, sr, All(qHigh, qLow), All(rHigh, rLow), carry, digits);
    ShiftPair(qHigh, qLow, carry);
    ShiftRemainder(n, d, sr, All(qHigh, qLow), All(rHigh, rLow), carry, digits);
    ShiftPair(rHigh, rLow, Shr(qHigh, 31));
    assert Shr(qHigh, 31) == Shr(n, sr - 1) % 2;
  }

  /** The comparison and the subtraction, on whole numbers. */
  lemma ReduceStep(n: nat, d: nat, sr: nat, q: nat, r: nat, carry: nat, digits: nat, r': nat, s: nat)
    requires d < DWORD && sr > 0 && Dividing(n, d, sr, q, r, carry, digits)
    requires r' == 2 * r + Shr(n, sr - 1) % 2 && s == SignMask((d - r' - 1) % DWORD)
    ensures r' < DWORD && (s == DWORD - 1 <==> r' >= d)
    ensures 0 <= r' - And(d, s) < DWORD
    ensures Dividing(n, d, sr - 1, Up(Low(n, sr - 1), 65 - sr) + (2 * digits + carry), r' - And(d, s), And(s, 1), 2 * digits + carry)
  {
    hide CBits.Up, CBits.Shr, CBits.Low, CBits.And, SignMask;
    ShiftQuotient(n, d, sr, q, r, carry, digits);
    ShiftRemainder(n, d, sr, q, r, carry, digits);
    SignMaskCompares(d, r');
    MaskedValue(d, s);
    var one := And(s, 1);
    OneTimes(one, d);
    DigitDone(n, d, sr - 1, r', 2 * digits + carry, one);
  }

  lemma OneTimes(one: nat, d: nat)
    ensures one == 0 ==> one * d == 0
    ensures one == 1 ==> one * d == d
  {
  }

  /** One iteration, seen from the word pairs: after the shift r is compared with d and
      reduced without a branch, and the invariant holds for one bit less. */
  lemma DivideStep(n: nat, d: nat, sr: nat, qHigh: nat, qLow: nat, rHigh: nat, rLow: nat, carry: nat, digits: nat)
    requires qHigh < WORD && qLow < WORD && rHigh < WORD && rLow < WORD && d < DWORD && sr > 0
    requires Dividing(n, d, sr, All(qHigh, qLow), All(rHigh, rLow), carry, digits)
    ensures ShiftedHigh(rHigh, rLow) < WORD && ShiftedLow(rLow, Shr(qHigh, 31)) < WORD
    ensures ShiftedHigh(qHigh, qLow) < WORD && ShiftedLow(qLow, carry) < WORD
    ensures var r := All(ShiftedHigh(rHigh, rLow), ShiftedLow(rLow, Shr(qHigh, 31)));
            var s := SignMask((d - r - 1) % DWORD);
            && 0 <= r - And(d, s) < DWORD
            && Dividing(n, d, sr - 1, All(ShiftedHigh(qHigh, qLow), ShiftedLow(qLow, carry)), r - And(d, s), And(s, 1), 2 * digits + carry)
  {
    hide CBits.Up, CBits.Shr, CBits.Low, CBits.And, CBits.Or, CBits.Shl, SignMask, Dividing, All;
    ShiftStep(n, d, sr, qHigh, qLow, rHigh, rLow, carry, digits);
    var r := All(ShiftedHigh(rHigh, rLow), ShiftedLow(rLow, Shr(qHigh, 31)));
    ReduceStep(n, d, sr, All(qHigh, qLow), All(rHigh, rLow), carry, digits, r, SignMask((d - r - 1) % DWORD));
  }

  lemma ProductGrows(x: nat, d: nat)
    requires d > 0
    ensures x * d >= x
  {
  }

  lemma QuotientFits(n: nat, d: nat, q: nat, r: nat, carry: nat, digits: nat)
    requires Dividing(n, d, 0, q, r, carry, digits)
    ensures 2 * q + carry < DWORD && carry <= 1 && n == (2 * q + carry) * d + r && r < d
  {
    hide CBits.Up, CBits.Shr, CBits.Low;
    ShrNothing(n);
    UpZero(64);
    ProductGrows(2 * digits + carry, d);
  }

  lemma LastShift(q: nat, carry: nat)
    requires 2 * q + carry < DWORD && carry <= 1
    ensures Or(Shl(q, 1, 64), carry) == 2 * q + carry
  {
    Pow2Words();
    UpOne(q);
    LowOfSmall(2 * q, 64);
    assert Pow2(1) == 2;
    OrDisjoint(q, carry, 1);
  }

  lemma Halve(x: nat)
    requires x < DWORD
    ensures x / WORD < WORD && x % WORD < WORD && All(x / WORD, x % WORD) == x && x % DWORD == x
  {
  }

  /** The loop of __udivmoddi4 with the final shift. */
  method DivideLoop(n: nat, d: nat, sr0: nat, qHigh0: nat, qLow0: nat, rHigh0: nat, rLow0: nat)
      returns (q: nat, rem: nat)
    requires d < DWORD && qHigh0 < WORD && qLow0 < WORD && rHigh0 < WORD && rLow0 < WORD
    requires Dividing(n, d, sr0, All(qHigh0, qLow0), All(rHigh0, rLow0), 0, 0)
    ensures n == q * d + rem && rem < d
  {
    hide CBits.Up, CBits.Shr, CBits.Low, CBits.And, CBits.Or, CBits.Shl, Dividing, All;
    var qHigh: nat, qLow: nat, rHigh: nat, rLow: nat, sr: nat := qHigh0, qLow0, rHigh0, rLow0, sr0;
    var carry: nat := 0;
    ghost var digits: nat := 0;
    while sr > 0
      invariant qHigh < WORD && qLow < WORD && rHigh < WORD && rLow < WORD
      invariant Dividing(n, d, sr, All(qHigh, qLow), All(rHigh, rLow), carry, digits)
    {
      DivideStep(n, d, sr, qHigh, qLow, rHigh, rLow, carry, digits);
      digits := 2 * digits + carry;
      rHigh := ShiftedHigh(rHigh, rLow);
      rLow := ShiftedLow(rLow, Shr(qHigh, 31));
      qHigh := ShiftedHigh(qHigh, qLow);
      qLow := ShiftedLow(qLow, carry);
      var r := All(rHigh, rLow);
      var s := SignMask((d - r - 1) % DWORD);
      carry := And(s, 1);
      Halve(r - And(d, s));
      r := (r - And(d, s)) % DWORD;
      rHigh, rLow := r / WORD, r % WORD;
      sr := sr - 1;
    }
    q, rem := All(qHigh, qLow), All(rHigh, rLow);
    QuotientFits(n, d, q, rem, carry, digits);
    LastShift(q, carry);
    q := Or(Shl(q, 1, 64), carry);
  }

  // ----- Setting the loop up -----

  lemma StartDividing(n: nat, d: nat, sr: nat, q: nat, r: nat)
    requires n < DWORD && sr <= 64 && q == Up(Low(n, sr), 64 - sr) && r == Shr(n, sr) && r < d
    requires d > SIGN && sr > 0 ==> sr == 1 && n >= SIGN
    ensures Dividing(n, d, sr, q, r, 0, 0)
  {
    Pow2Positive(64 - sr);
  }

  /** The top bit of a high word, as seen in the whole number. */
  lemma HighWordBounds(high: nat, low: nat, zeros: nat)
    requires LeadingZeros(high, 32, zeros) && low < WORD
    ensures Pow2(63 - zeros) <= All(high, low) < Pow2(64 - zeros)
  {
    hide CBits.Up;
    UpLess(Pow2(31 - zeros), high, 32);
    UpLess(high + 1, Pow2(32 - zeros), 32);
    UpUp(1, 31 - zeros, 32);
    UpUp(1, 32 - zeros, 32);
    UpWord(high);
    UpWord(high + 1);
  }

  lemma {:induction false} Pow2Monotonic(a: nat, b: nat)
    requires a <= b
    ensures Pow2(a) <= Pow2(b)
  {
    if a < b { Pow2Monotonic(a, b - 1); }
  }

  lemma BigDivisor(zeros: nat, high: nat, low: nat)
    requires LeadingZeros(high, 32, zeros) && low < WORD && All(high, low) >= SIGN
    ensures zeros == 0
  {
    HighWordBounds(high, low, zeros);
    Pow2Words();
    if zeros > 0 {
      Pow2Monotonic(64 - zeros, 63);
    }
  }

  /** Divisor of more than 32 bits: the difference of the leading zeros tells whether the
      quotient is 0, and by how much to shift otherwise. */
  lemma NormaliseWide(nHigh: nat, nLow: nat, dHigh: nat, dLow: nat, cn: nat, cd: nat)
    requires LeadingZeros(nHigh, 32, cn) && LeadingZeros(dHigh, 32, cd) && nLow < WORD && dLow < WORD
    ensures cd < cn ==> All(nHigh, nLow) < All(dHigh, dLow)
    ensures cd >= cn ==> Shr(All(nHigh, nLow), 1 + cd - cn) < All(dHigh, dLow)
    ensures cd >= cn && All(dHigh, dLow) > SIGN ==> 1 + cd - cn == 1 && All(nHigh, nLow) >= SIGN
  {
    hide CBits.Up, CBits.Shr;
    var n, d := All(nHigh, nLow), All(dHigh, dLow);
    HighWordBounds(nHigh, nLow, cn);
    HighWordBounds(dHigh, dLow, cd);
    if cd < cn {
      Pow2Monotonic(64 - cn, 63 - cd);
    } else {
      ShrBounds(n, 1 + cd - cn, 64 - cn);
      if d > SIGN {
        BigDivisor(cd, dHigh, dLow);
        Pow2Words();
      }
    }
  }

  /** A word with 31 leading zeros is 1, the first power of two. */
  lemma OnlyOne(d: nat, zeros: nat)
    requires LeadingZeros(d, 32, zeros)
    ensures zeros == 31 ==> PowerOfTwo(d)
  {
    assert Pow2(0) == 1 && Pow2(1) == 2;
    assert zeros == 31 ==> d == Pow2(0);
  }

  /** Divisor of one word that is no power of two. */
  lemma NormaliseNarrow(nHigh: nat, nLow: nat, dLow: nat, cn: nat, cd: nat)
    requires LeadingZeros(nHigh, 32, cn) && LeadingZeros(dLow, 32, cd) && nLow < WORD
    requires !PowerOfTwo(dLow)
    ensures cd <= 30 && 2 <= 33 + cd - cn <= 63
    ensures Shr(All(nHigh, nLow), 33 + cd - cn) < dLow
  {
    HighWordBounds(nHigh, nLow, cn);
    OnlyOne(dLow, cd);
    ShrBounds(All(nHigh, nLow), 33 + cd - cn, 64 - cn);
  }

  lemma NotOne(dHigh: nat, cd: nat)
    requires LeadingZeros(dHigh, 32, cd) && !PowerOfTwo(dHigh)
    ensures cd <= 30
  {
    OnlyOne(dHigh, cd);
  }

  // ----- Powers of two -----

  lemma {:induction false} UpTimes(x: nat, k: nat)
    ensures Up(x, k) == x * Pow2(k)
  {
    if k > 0 {
      UpTimes(x, k - 1);
      assert x * (2 * Pow2(k - 1)) == 2 * (x * Pow2(k - 1));
    }
  }

  lemma ShiftDivides(x: nat, k: nat)
    ensures Pow2(k) > 0 && x == Shr(x, k) * Pow2(k) + Low(x, k) && Low(x, k) < Pow2(k)
  {
    Split(x, k);
    UpTimes(Shr(x, k), k);
  }

  /** The position of the only bit. */
  lemma PowerPosition(d: nat, r: nat)
    requires PowerOfTwo(d) && TrailingZeros(d, r)
    ensures d == Pow2(r)
  {
    var k: nat :| d == Pow2(k);
    Split(d, r);
    if k < r {
      Pow2Monotonic(k + 1, r);
      Pow2Positive(k);
      assert Pow2(k + 1) == 2 * Pow2(k);
      LowOfSmall(d, r);
    } else if k > r {
      UpUp(1, k - r, r);
      UpZero(r);
      Pow2Positive(r);
      SplitUnique(Pow2(k - r), 0, r);
    }
  }

  lemma HighPower(nHigh: nat, nLow: nat, dHigh: nat, k: nat)
    requires nLow < WORD && dHigh == Pow2(k) && dHigh > 0
    ensures All(nHigh, nLow) == Shr(nHigh, k) * All(dHigh, 0) + All(And(nHigh, dHigh - 1), nLow)
    ensures All(And(nHigh, dHigh - 1), nLow) < All(dHigh, 0)
  {
    hide CBits.Up, CBits.Shr, CBits.Low, CBits.And;
    AndLowMask(nHigh, k);
    ShiftDivides(nHigh, k);
    var q, m := Shr(nHigh, k), Low(nHigh, k);
    assert q * (WORD * dHigh) == WORD * (q * dHigh);
  }

  lemma HighOnly(nHigh: nat, dHigh: nat)
    requires dHigh > 0
    ensures All(nHigh, 0) == (nHigh / dHigh) * All(dHigh, 0) + All(nHigh % dHigh, 0)
    ensures All(nHigh % dHigh, 0) < All(dHigh, 0)
  {
    var q, m := nHigh / dHigh, nHigh % dHigh;
    assert nHigh == q * dHigh + m;
    assert q * (WORD * dHigh) == WORD * (q * dHigh);
  }

  /** A power of two in the low word: the remainder only sees the low word. */
  lemma LowPower(nHigh: nat, nLow: nat, k: nat)
    requires nHigh < WORD && nLow < WORD && k < 32
    ensures var n := All(nHigh, nLow);
            && Pow2(k) > 0 && n == Shr(n, k) * Pow2(k) + And(nLow, Pow2(k) - 1) && And(nLow, Pow2(k) - 1) < Pow2(k)
  {
    hide CBits.Up, CBits.Shr, CBits.Low, CBits.And;
    Pow2Words();
    AndLowMask(nLow, k);
    ShiftDivides(All(nHigh, nLow), k);
    UpWord(nHigh);
    NarrowShiftAt(nHigh, nLow, k, 32);
  }

  // ----- __udivmoddi4 -----

  /** The cases in which the divisor has an empty low word. */
  method DivideHighWord(nHigh: nat, nLow: nat, dHigh: nat) returns (q: nat, rem: nat)
    requires 0 < nHigh < WORD && nLow < WORD && 0 < dHigh < WORD
    ensures All(nHigh, nLow) == q * All(dHigh, 0) + rem && rem < All(dHigh, 0)
  {
    hide CBits.Up, CBits.Shr, CBits.Low, CBits.And, CBits.Or, CBits.Shl, Dividing, LeadingZeros, All;
    if nLow == 0 {
      HighOnly(nHigh, dHigh);
      return nHigh / dHigh, All(nHigh % dHigh, 0);
    }
    AndPredecessor(dHigh);
    if And(dHigh, dHigh - 1) == 0 {
      var k := Ctzsi2(dHigh);
      PowerPosition(dHigh, k);
      HighPower(nHigh, nLow, dHigh, k);
      return Shr(nHigh, k), All(And(nHigh, dHigh - 1), nLow);
    }
    var cd := Clzsi2(dHigh);
    var cn := Clzsi2(nHigh);
    NotOne(dHigh, cd);
    ZerosBelow(cd, dHigh);
    ZerosBelow(cn, nHigh);
    NormaliseWide(nHigh, nLow, dHigh, 0, cn, cd);
    var sr := (cd - cn) % WORD;
    if sr > 30 {
      return 0, All(nHigh, nLow);
    }
    sr := sr + 1;
    NarrowShift(nHigh, nLow, sr);
    var n, d := All(nHigh, nLow), All(dHigh, 0);
    var qHigh, rHigh := Shl(nLow, 32 - sr, 32), Shr(nHigh, sr);
    var rLow := Or(Shl(nHigh, 32 - sr, 32), Shr(nLow, sr));
    ShrLess(nHigh, sr);
    AllBounds(nHigh, nLow);
    AllBounds(dHigh, 0);
    StartDividing(n, d, sr, All(qHigh, 0), All(rHigh, rLow));
    q, rem := DivideLoop(n, d, sr, qHigh, 0, rHigh, rLow);
  }

  lemma ZerosBelow(r: nat, a: nat)
    requires LeadingZeros(a, 32, r)
    ensures r < 32
  {
  }

  /** The cases in which the divisor is one word. */
  method DivideByWord(nHigh: nat, nLow: nat, dLow: nat) returns (q: nat, rem: nat)
    requires 0 < nHigh < WORD && nLow < WORD && 0 < dLow < WORD
    ensures All(nHigh, nLow) == q * dLow + rem && rem < dLow
  {
    hide CBits.Up, CBits.Shr, CBits.Low, CBits.And, CBits.Or, CBits.Shl, Dividing, LeadingZeros, All;
    var n := All(nHigh, nLow);
    AndPredecessor(dLow);
    if And(dLow, dLow - 1) == 0 {
      var k := Ctzsi2(dLow);
      PowerPosition(dLow, k);
      LowPower(nHigh, nLow, k);
      rem := And(nLow, dLow - 1);
      if dLow == 1 {
        return n, rem;
      }
      assert k > 0 by { assert Pow2(0) == 1 by { UpNothing(1); } }
      NarrowShift(nHigh, nLow, k);
      return All(Shr(nHigh, k), Or(Shl(nHigh, 32 - k, 32), Shr(nLow, k))), rem;
    }
    var cd := Clzsi2(dLow);
    var cn := Clzsi2(nHigh);
    ZerosBelow(cd, dLow);
    ZerosBelow(cn, nHigh);
    NormaliseNarrow(nHigh, nLow, dLow, cn, cd);
    var sr := (1 + 32 + cd - cn) % WORD;
    var qHigh: nat, qLow: nat, rHigh: nat, rLow: nat;
    if sr == 32 {
      WordShift(nHigh, nLow);
      qLow, qHigh, rHigh, rLow := 0, nLow, 0, nHigh;
    } else if sr < 32 {
      NarrowShift(nHigh, nLow, sr);
      qLow, qHigh := 0, Shl(nLow, 32 - sr, 32);
      rHigh, rLow := Shr(nHigh, sr), Or(Shl(nHigh, 32 - sr, 32), Shr(nLow, sr));
      ShrLess(nHigh, sr);
    } else {
      WideShift(nHigh, nLow, sr - 32);
      qLow, qHigh := Shl(nLow, 64 - sr, 32), Or(Shl(nHigh, 64 - sr, 32), Shr(nLow, sr - 32));
      rHigh, rLow := 0, Shr(nHigh, sr - 32);
      ShrLess(nHigh, sr - 32);
    }
    AllBounds(nHigh, nLow);
    StartDividing(n, dLow, sr, All(qHigh, qLow), All(rHigh, rLow));
    q, rem := DivideLoop(n, dLow, sr, qHigh, qLow, rHigh, rLow);
  }

  lemma UpNothing(x: nat)
    ensures Up(x, 0) == x
  {
  }

  /** The case in which both words of the divisor are in use. */
  method DivideByPair(nHigh: nat, nLow: nat, dHigh: nat, dLow: nat) returns (q: nat, rem: nat)
    requires 0 < nHigh < WORD && nLow < WORD && 0 < dHigh < WORD && 0 < dLow < WORD
    ensures All(nHigh, nLow) == q * All(dHigh, dLow) + rem && rem < All(dHigh, dLow)
  {
    hide CBits.Up, CBits.Shr, CBits.Low, CBits.And, CBits.Or, CBits.Shl, Dividing, LeadingZeros, All;
    var n, d := All(nHigh, nLow), All(dHigh, dLow);
    var cd := Clzsi2(dHigh);
    var cn := Clzsi2(nHigh);
    ZerosBelow(cd, dHigh);
    ZerosBelow(cn, nHigh);
    NormaliseWide(nHigh, nLow, dHigh, dLow, cn, cd);
    var sr := (cd - cn) % WORD;
    if sr > 31 {
      return 0, n;
    }
    sr := sr + 1;
    var qHigh: nat, rHigh: nat, rLow: nat;
    if sr == 32 {
      WordShift(nHigh, nLow);
      qHigh, rHigh, rLow := nLow, 0, nHigh;
    } else {
      NarrowShift(nHigh, nLow, sr);
      qHigh := Shl(nLow, 32 - sr, 32);
      rHigh, rLow := Shr(nHigh, sr), Or(Shl(nHigh, 32 - sr, 32), Shr(nLow, sr));
      ShrLess(nHigh, sr);
    }
    AllBounds(nHigh, nLow);
    AllBounds(dHigh, dLow);
    StartDividing(n, d, sr, All(qHigh, 0), All(rHigh, rLow));
    q, rem := DivideLoop(n, d, sr, qHigh, 0, rHigh, rLow);
  }

  /** __udivmoddi4, for a divisor other than 0. */
  method Udivmoddi4(a: nat, b: nat) returns (q: nat, rem: nat)
    requires a < DWORD && 0 < b < DWORD
    ensures a == q * b + rem && rem < b
  {
    var nHigh, nLow, dHigh, dLow := a / WORD, a % WORD, b / WORD, b % WORD;
    if nHigh == 0 {
      if dHigh == 0 {
        return nLow / dLow, nLow % dLow;
      }
      return 0, nLow;
    }
    if dLow == 0 {
      q, rem := DivideHighWord(nHigh, nLow, dHigh);
    } else if dHigh == 0 {
      q, rem := DivideByWord(nHigh, nLow, dLow);
    } else {
      q, rem := DivideByPair(nHigh, nLow, dHigh, dLow);
    }
  }

  // ----- Signed division -----

  /** The two's complement word of a 64-bit integer, and back. */
  function Word(x: int): nat {
    x % DWORD
  }

  function Signed(w: nat): int {
    if w >= SIGN then w - DWORD else w
  }

  const MIN64: int := -0x8000_0000_0000_0000

  predicate Int64Range(x: int) {
    MIN64 <= x < SIGN
  }

  /** x >> 63: -1 for a negative number, otherwise 0. */
  function SignOf(x: int): int {
    if x < 0 then -1 else 0
  }

  /** (x ^ s) - s on words. */
  function NegateIf(x: nat, s: int): nat {
    (Xor(x, Word(s)) - s) % DWORD
  }

  lemma NegateIfNegates(x: nat, s: int)
    requires x < DWORD && (s == 0 || s == -1)
    ensures NegateIf(x, s) == if s == 0 || x == 0 then x else DWORD - x
  {
    hide CBits.Xor, CBits.Up;
    Pow2Words();
    if s == 0 {
      XorZero(x);
    } else {
      XorOnes(x, 64);
      assert Word(s) == DWORD - 1;
      assert Xor(x, Word(s)) - s == DWORD - x;
    }
  }

  /** Taking the sign off ... */
  lemma MagnitudeOf(a: int)
    requires Int64Range(a)
    ensures NegateIf(Word(a), SignOf(a)) == Abs(a)
  {
    hide NegateIf;
    assert Word(a) == if a < 0 then DWORD + a else a;
    NegateIfNegates(Word(a), SignOf(a));
  }

  /** ... and putting one on. */
  lemma SignedResult(q: nat, s: int)
    requires q <= SIGN && (s == 0 || s == -1)
    ensures Signed(NegateIf(q, s)) == if s == -1 then 0 - q else if q == SIGN then MIN64 else q
  {
    hide NegateIf;
    NegateIfNegates(q, s);
  }

  /** The sign of the quotient. */
  lemma SignsCombine(a: int, b: int)
    ensures Signed(Xor(Word(SignOf(a)), Word(SignOf(b)))) == if (a < 0) == (b < 0) then 0 else -1
  {
    hide CBits.Xor, CBits.Up;
    Pow2Words();
    XorZero(0);
    XorZero(DWORD - 1);
    XorOnes(0, 64);
    XorOnes(DWORD - 1, 64);
  }

  function Abs(x: int): nat {
    if x < 0 then 0 - x else x
  }

  /** Division as C defines it: truncated toward zero, the remainder with the dividend's sign. */
  function Quotient(a: int, b: int): int
    requires b != 0
  {
    if (a < 0) == (b < 0) then Abs(a) / Abs(b) else 0 - Abs(a) / Abs(b)
  }

  function Remainder(a: int, b: int): int
    requires b != 0
  {
    if a < 0 then 0 - Abs(a) % Abs(b) else Abs(a) % Abs(b)
  }

  lemma DivMod(n: nat, d: nat)
    requires d > 0
    ensures n == (n / d) * d + n % d
  {
  }

  lemma SignedProducts(q: int, b: int)
    ensures (0 - q) * b == 0 - q * b && q * (0 - b) == 0 - q * b
  {
  }

  lemma SignLaw(a: int, b: int, q: nat, m: nat)
    requires b != 0 && Abs(a) == q * Abs(b) + m
    ensures a == (if (a < 0) == (b < 0) then q else 0 - q) * b + (if a < 0 then 0 - m else m)
  {
    SignedProducts(q, b);
  }

  /** That definition fits the law of division ... */
  lemma DivisionLaw(a: int, b: int)
    requires b != 0
    ensures a == Quotient(a, b) * b + Remainder(a, b)
    ensures Abs(Remainder(a, b)) < Abs(b)
    ensures Remainder(a, b) != 0 ==> (Remainder(a, b) < 0 <==> a < 0)
  {
    hide Quotient, Remainder;
    var q, m := Abs(a) / Abs(b), Abs(a) % Abs(b);
    DivMod(Abs(a), Abs(b));
    SignLaw(a, b, q, m);
    QuotientIs(a, b, q, m);
  }

  lemma QuotientIs(a: int, b: int, q: nat, m: nat)
    requires b != 0 && q == Abs(a) / Abs(b) && m == Abs(a) % Abs(b)
    ensures Quotient(a, b) == (if (a < 0) == (b < 0) then q else 0 - q)
    ensures Remainder(a, b) == (if a < 0 then 0 - m else m) && m < Abs(b)
  {
  }

  /** ... and no other quotient and remainder do. */
  lemma DivisionUnique(a: int, b: int, q: nat, r: nat)
    requires b != 0 && Abs(a) == q * Abs(b) + r && r < Abs(b)
    ensures Quotient(a, b) == (if (a < 0) == (b < 0) then q else 0 - q)
    ensures Remainder(a, b) == (if a < 0 then 0 - r else r)
  {
    UniqueQuotient(Abs(a), Abs(b), q, r);
  }

  lemma UniqueQuotient(n: nat, d: nat, q: nat, r: nat)
    requires d > 0 && n == q * d + r && r < d
    ensures n / d == q && n % d == r
  {
    DivMod(n, d);
    UniqueFactor(d, q, r, n / d, n % d);
  }

  lemma UniqueFactor(d: nat, q: nat, r: nat, q': nat, r': nat)
    requires d > 0 && q * d + r == q' * d + r' && r < d && r' < d
    ensures q == q' && r == r'
  {
    if q < q' {
      ProductGap(d, q, q');
    } else if q' < q {
      ProductGap(d, q', q);
    }
  }

  lemma ProductGap(d: nat, x: nat, y: nat)
    requires x < y
    ensures y * d >= x * d + d
  {
    assert y * d == x * d + (y - x) * d;
    ProductGrows(d, y - x);
    assert (y - x) * d == d * (y - x);
  }

  /** __divdi3: the quotient, except that -2^63 / -1 wraps around. */
  method Divdi3(a: int, b: int) returns (r: int)
    requires Int64Range(a) && Int64Range(b) && b != 0
    ensures Int64Range(r)
    ensures r == Quotient(a, b) <==> !(a == MIN64 && b == -1)
    ensures a == MIN64 && b == -1 ==> r == MIN64
  {
    hide CBits.Xor, NegateIf, Signed, Word;
    MagnitudeOf(a);
    MagnitudeOf(b);
    var x, y := NegateIf(Word(a), SignOf(a)), NegateIf(Word(b), SignOf(b));
    var s := Signed(Xor(Word(SignOf(a)), Word(SignOf(b))));
    SignsCombine(a, b);
    var q, m := Udivmoddi4(x, y);
    QuotientResult(a, b, q, m, s);
    r := Signed(NegateIf(q, s));
  }

  lemma QuotientResult(a: int, b: int, q: nat, m: nat, s: int)
    requires Int64Range(a) && Int64Range(b) && b != 0 && Abs(a) == q * Abs(b) + m && m < Abs(b)
    requires s == if (a < 0) == (b < 0) then 0 else -1
    ensures var r := Signed(NegateIf(q, s));
            && Int64Range(r) && (r == Quotient(a, b) <==> !(a == MIN64 && b == -1))
            && (a == MIN64 && b == -1 ==> r == MIN64)
  {
    hide Quotient, Remainder, Signed, NegateIf;
    DivisionUnique(a, b, q, m);
    QuotientRange(Abs(a), Abs(b), q, m);
    SignedResult(q, s);
  }

  lemma QuotientRange(n: nat, d: nat, q: nat, m: nat)
    requires d > 0 && n == q * d + m && m < d && n <= SIGN
    ensures q <= SIGN && (q == SIGN <==> n == SIGN && d == 1)
  {
    ProductGrows(q, d);
    if d > 1 {
      assert q * d == q * (d - 1) + q;
      ProductGrows(q, d - 1);
    } else {
      assert q * d == q && m == 0;
    }
  }

  /** __moddi3: the remainder, without exception. */
  method Moddi3(a: int, b: int) returns (r: int)
    requires Int64Range(a) && Int64Range(b) && b != 0
    ensures r == Remainder(a, b)
  {
    hide CBits.Xor, NegateIf, Signed, Word, Remainder, Quotient;
    MagnitudeOf(a);
    MagnitudeOf(b);
    var x, y := NegateIf(Word(a), SignOf(a)), NegateIf(Word(b), SignOf(b));
    var q, m := Udivmoddi4(x, y);
    DivisionUnique(a, b, q, m);
    SignedResult(m, SignOf(a));
    r := Signed(NegateIf(m, SignOf(a)));
  }

  lemma RemainderRange(a: int, b: int)
    requires Int64Range(a) && Int64Range(b) && b != 0
    ensures Signed(Word(Remainder(a, b))) == Remainder(a, b)
  {
    hide Quotient, Remainder;
    DivisionLaw(a, b);
  }

  /** __divmoddi4: the remainder is right even where the quotient wraps. */
  method Divmoddi4(a: int, b: int) returns (d: int, rem: int)
    requires Int64Range(a) && Int64Range(b) && b != 0
    ensures d == Quotient(a, b) <==> !(a == MIN64 && b == -1)
    ensures rem == Remainder(a, b)
  {
    hide Quotient, Remainder;
    d := Divdi3(a, b);
    rem := Signed(Word(a - d * b));
    DivisionLaw(a, b);
    if a == MIN64 && b == -1 {
      assert d * b == SIGN;
    } else {
      RemainderRange(a, b);
    }
  }

  // ----- Counting zeros in 64 bits -----

  lemma Select(x: nat, y: nat, cond: bool)
    requires x < WORD && y < WORD
    ensures Or(And(x, Mask(!cond)), And(y, Mask(cond))) == if cond then y else x
    ensures And(32, Mask(cond)) == if cond then 32 else 0
  {
    AndMask(x, !cond);
    AndMask(y, cond);
    AndMask(32, cond);
    OrZero(x);
    OrZeroLeft(y);
  }

  lemma {:induction false} OrZeroLeft(x: nat)
    ensures Or(0, x) == x
  {
    if x > 0 { OrZeroLeft(x / 2); }
  }

  /** __clzdi2. */
  method Clzdi2(a: nat) returns (r: nat)
    requires 0 < a < DWORD
    ensures LeadingZeros(a, 64, r)
  {
    hide CBits.Up, CBits.And, CBits.Or;
    var high, low := a / WORD, a % WORD;
    Select(high, low, high == 0);
    var c := Clzsi2(Or(And(high, Mask(high != 0)), And(low, Mask(high == 0))));
    if high != 0 {
      HighWordBounds(high, low, c);
    }
    r := c + And(32, Mask(high == 0));
  }

  /** __ctzdi2. */
  method Ctzdi2(a: nat) returns (r: nat)
    requires 0 < a < DWORD
    ensures TrailingZeros(a, r)
  {
    hide CBits.Up, CBits.And, CBits.Or, CBits.Low, CBits.Shr;
    var high, low := a / WORD, a % WORD;
    Select(low, high, low == 0);
    var c := Ctzsi2(Or(And(low, Mask(low != 0)), And(high, Mask(low == 0))));
    TrailingOfPair(high, low, c);
    r := c + And(32, Mask(low == 0));
  }

  lemma TrailingOfPair(high: nat, low: nat, c: nat)
    requires low < WORD && c < 32
    ensures low == 0 && TrailingZeros(high, c) ==> TrailingZeros(All(high, low), 32 + c)
    ensures low != 0 && TrailingZeros(low, c) ==> TrailingZeros(All(high, low), c)
  {
    hide CBits.Up, CBits.Low, CBits.Shr;
    Pow2Words();
    UpWord(high);
    SplitUnique(high, low, 32);
    var n := All(high, low);
    ShrShr(n, 32, c);
    LowSplit(n, 32, c);
    UpZero(32);
    NarrowShiftAt(high, low, c, 32);
    UpEven(Shr(high, c), 32);
    UpEven(Low(high, c), 32 - c);
  }

  lemma UpEven(x: nat, k: nat)
    requires k > 0
    ensures Up(x, k) % 2 == 0
  {
    hide CBits.Up;
    UpNext(x, k - 1);
  }
}
