/** C's operators on unsigned words, as functions on natural numbers, bit by bit. A word of
    width w is a number below 2^w. */
module CBits {

  // ----- Shifts -----

  /** x shifted left by k, with room for every bit. */
  function Up(x: nat, k: nat): (r: nat)
    ensures r >= x
  {
    if k == 0 then x else 2 * Up(x, k - 1)
  }

  /** x >> k. */
  function Shr(x: nat, k: nat): nat
    decreases x, k
  {
    if k == 0 then x else Shr(x / 2, k - 1)
  }

  /** The k lowest bits of x. */
  function Low(x: nat, k: nat): nat
    decreases x, k
  {
    if k == 0 then 0 else x % 2 + 2 * Low(x / 2, k - 1)
  }

  /** x << k in a word of the given width. */
  function Shl(x: nat, k: nat, width: nat): nat {
    Low(Up(x, k), width)
  }

  function Pow2(n: nat): nat {
    Up(1, n)
  }

  const WORD: nat := 0x1_0000_0000
  const DWORD: nat := 0x1_0000_0000_0000_0000
  const SIGN: nat := 0x8000_0000_0000_0000

  /** A number is its high bits followed by its k low bits. */
  lemma {:induction false} Split(x: nat, k: nat)
    ensures x == Up(Shr(x, k), k) + Low(x, k)
    ensures Low(x, k) < Pow2(k)
  {
    if k > 0 {
      Split(x / 2, k - 1);
    }
  }

  lemma {:induction false} SplitUnique(h: nat, l: nat, k: nat)
    requires l < Pow2(k)
    ensures Shr(Up(h, k) + l, k) == h && Low(Up(h, k) + l, k) == l
  {
    if k > 0 {
      assert (Up(h, k) + l) / 2 == Up(h, k - 1) + l / 2;
      SplitUnique(h, l / 2, k - 1);
    }
  }

  lemma LowOfSmall(x: nat, k: nat)
    requires x < Pow2(k)
    ensures Low(x, k) == x && Shr(x, k) == 0
  {
    UpZero(k);
    SplitUnique(0, x, k);
  }

  lemma ShrNothing(x: nat)
    ensures Shr(x, 0) == x && Low(x, 0) == 0
  {
  }

  lemma ShrLess(x: nat, k: nat)
    ensures Shr(x, k) <= x
  {
    Split(x, k);
  }

  lemma {:induction false} UpZero(k: nat)
    ensures Up(0, k) == 0
  {
    if k > 0 { UpZero(k - 1); }
  }

  lemma {:induction false} UpUp(x: nat, a: nat, b: nat)
    ensures Up(Up(x, a), b) == Up(x, a + b)
  {
    if b > 0 { UpUp(x, a, b - 1); }
  }

  lemma {:induction false} UpAdd(x: nat, y: nat, k: nat)
    ensures Up(x + y, k) == Up(x, k) + Up(y, k)
  {
    if k > 0 { UpAdd(x, y, k - 1); }
  }

  lemma {:induction false} UpLess(x: nat, y: nat, k: nat)
    ensures x < y ==> Up(x, k) < Up(y, k)
    ensures x <= y ==> Up(x, k) <= Up(y, k)
  {
    if k > 0 { UpLess(x, y, k - 1); }
  }

  lemma {:induction false} ShrShr(x: nat, a: nat, b: nat)
    ensures Shr(Shr(x, a), b) == Shr(x, a + b)
    decreases a
  {
    if a > 0 { ShrShr(x / 2, a - 1, b); }
  }

  lemma Pow2Bytes()
    ensures Pow2(0) == 1 && Pow2(1) == 2 && Pow2(2) == 4 && Pow2(4) == 0x10 && Pow2(8) == 0x100
    ensures Pow2(16) == 0x1_0000
  {
    UpByte(1);
    UpByte(0x100);
    UpUp(1, 8, 8);
  }

  lemma Pow2Words()
    ensures Pow2(31) == 0x8000_0000 && Pow2(32) == WORD && Pow2(63) == SIGN && Pow2(64) == DWORD
  {
    UpWord(1);
    UpWord(WORD);
    UpUp(1, 32, 32);
    assert Pow2(32) == 2 * Pow2(31);
    assert Pow2(64) == 2 * Pow2(63);
  }

  lemma UpByte(x: nat)
    ensures Up(x, 4) == 0x10 * x && Up(x, 8) == 0x100 * x
  {
    assert Up(x, 4) == 2 * Up(x, 3) && Up(x, 3) == 2 * Up(x, 2) && Up(x, 2) == 2 * Up(x, 1);
    assert Up(x, 8) == 2 * Up(x, 7) && Up(x, 7) == 2 * Up(x, 6) && Up(x, 6) == 2 * Up(x, 5) && Up(x, 5) == 2 * Up(x, 4);
  }

  lemma UpWord(x: nat)
    ensures Up(x, 32) == WORD * x
  {
    UpByte(x);
    UpUp(x, 8, 8);
    UpByte(Up(x, 8));
    UpUp(x, 16, 8);
    UpByte(Up(x, 16));
    UpUp(x, 24, 8);
    UpByte(Up(x, 24));
  }

  lemma UpSplit(x: nat, k: nat, w: nat)
    requires k <= w
    ensures Up(x, w - k) == Up(Shr(x, k), w) + Up(Low(x, k), w - k)
  {
    hide Up, Shr, Low;
    Split(x, k);
    UpAdd(Up(Shr(x, k), k), Low(x, k), w - k);
    UpUp(Shr(x, k), k, w - k);
  }

  /** x << (w - k) keeps the k low bits of x. */
  lemma ShlKeeps(x: nat, k: nat, w: nat)
    requires k <= w
    ensures Shl(x, w - k, w) == Up(Low(x, k), w - k)
    ensures Up(Low(x, k), w - k) < Pow2(w)
  {
    hide Up, Shr, Low;
    var h, l := Shr(x, k), Low(x, k);
    Split(x, k);
    LowTimes(l, k, w);
    UpSplit(x, k, w);
    SplitUnique(h, Up(l, w - k), w);
  }

  lemma LowTimes(l: nat, k: nat, w: nat)
    requires k <= w && l < Pow2(k)
    ensures Up(l, w - k) < Pow2(w)
  {
    UpLess(l, Pow2(k), w - k);
    UpUp(1, k, w - k);
  }

  /** The bits from k on of a w-bit word fit in w - k bits, and are there if x has any. */
  lemma ShrBounds(x: nat, k: nat, w: nat)
    requires k <= w
    ensures x < Pow2(w) <==> Shr(x, k) < Pow2(w - k)
    ensures x < Pow2(k) <==> Shr(x, k) == 0
  {
    hide Up, Shr, Low;
    Split(x, k);
    UpUp(1, w - k, k);
    var h := Shr(x, k);
    if h >= Pow2(w - k) {
      UpLess(Pow2(w - k), h, k);
    } else {
      UpLess(h + 1, Pow2(w - k), k);
      UpAdd(h, 1, k);
    }
    if h == 0 { UpZero(k); } else { UpLess(1, h, k); }
  }

  // ----- Bitwise operators -----

  function And(x: nat, y: nat): nat
    decreases x
  {
    if x == 0 then 0 else (if x % 2 == 1 && y % 2 == 1 then 1 else 0) + 2 * And(x / 2, y / 2)
  }

  function Or(x: nat, y: nat): nat
    decreases x + y
  {
    if x + y == 0 then 0 else (if x % 2 == 1 || y % 2 == 1 then 1 else 0) + 2 * Or(x / 2, y / 2)
  }

  function Xor(x: nat, y: nat): nat
    decreases x + y
  {
    if x + y == 0 then 0 else (if x % 2 != y % 2 then 1 else 0) + 2 * Xor(x / 2, y / 2)
  }

  lemma {:induction false} Pow2Positive(k: nat)
    ensures Pow2(k) >= 1
  {
    if k > 0 { Pow2Positive(k - 1); }
  }

  /** x & (2^k - 1) keeps the k low bits. */
  lemma {:induction false} AndLowMask(x: nat, k: nat)
    ensures Pow2(k) >= 1 && And(x, Pow2(k) - 1) == Low(x, k)
    decreases k
  {
    Pow2Positive(k);
    if k == 0 {
      AndZero(x);
    } else {
      AndLowMask(x / 2, k - 1);
      if x == 0 { LowOfSmall(0, k); }
    }
  }

  lemma {:induction false} AndZero(x: nat)
    ensures And(x, 0) == 0
  {
    if x > 0 { AndZero(x / 2); }
  }

  /** x & mask, for a mask of the bits k up to w, is zero exactly when x has none of them. */
  lemma {:induction false} AndHighMask(x: nat, k: nat, w: nat)
    requires k <= w && x < Pow2(w)
    ensures Pow2(k) <= Pow2(w)
    ensures And(x, Pow2(w) - Pow2(k)) == 0 <==> x < Pow2(k)
    decreases k
  {
    Pow2Positive(k);
    UpUp(1, w - k, k);
    Pow2Positive(w - k);
    UpLess(1, Pow2(w - k), k);
    if k == 0 {
      AndLowMask(x, w);
      LowOfSmall(x, w);
    } else if x > 0 {
      AndHighMask(x / 2, k - 1, w - 1);
      var y := Pow2(w - 1) - Pow2(k - 1);
      assert Pow2(w) - Pow2(k) == 2 * y;
    }
  }

  ghost predicate PowerOfTwo(d: nat) {
    exists k: nat :: d == Pow2(k)
  }

  /** d & (d - 1) is zero exactly for the powers of two. */
  lemma {:induction false} AndPredecessor(d: nat)
    requires d > 0
    ensures And(d, d - 1) == 0 <==> PowerOfTwo(d)
  {
    var h := d / 2;
    if d % 2 == 0 {
      assert (d - 1) / 2 == h - 1;
      AndPredecessor(h);
      assert And(d, d - 1) == 2 * And(h, h - 1);
      PowerOfTwoHalf(d);
    } else {
      AndSelf(h);
      assert And(d, d - 1) == 2 * And(h, h);
      PowerOfTwoOdd(d);
    }
  }

  lemma PowerOfTwoHalf(d: nat)
    requires d > 0 && d % 2 == 0
    ensures PowerOfTwo(d) <==> PowerOfTwo(d / 2)
  {
    if PowerOfTwo(d / 2) {
      var k: nat :| d / 2 == Pow2(k);
      assert d == Pow2(k + 1);
    }
    if PowerOfTwo(d) {
      var k: nat :| d == Pow2(k);
      assert k > 0 && d / 2 == Pow2(k - 1);
    }
  }

  lemma PowerOfTwoOdd(d: nat)
    requires d % 2 == 1
    ensures PowerOfTwo(d) <==> d == 1
  {
    assert Pow2(0) == 1;
    if PowerOfTwo(d) {
      var k: nat :| d == Pow2(k);
      Pow2Even(k);
    }
  }

  lemma Pow2Even(k: nat)
    ensures Pow2(k) % 2 == 0 <==> k > 0
  {
  }

  lemma {:induction false} AndSelf(x: nat)
    ensures And(x, x) == x
  {
    if x > 0 { AndSelf(x / 2); }
  }

  /** (h << k) | l is a sum when l has no more than k bits. */
  lemma {:induction false} OrDisjoint(h: nat, l: nat, k: nat)
    requires l < Pow2(k)
    ensures Or(Up(h, k), l) == Up(h, k) + l
    decreases k
  {
    if k == 0 {
      OrZero(h);
    } else if Up(h, k) + l > 0 {
      OrDisjoint(h, l / 2, k - 1);
    }
  }

  lemma {:induction false} OrZero(x: nat)
    ensures Or(x, 0) == x
  {
    if x > 0 { OrZero(x / 2); }
  }

  lemma {:induction false} XorZero(x: nat)
    ensures Xor(x, 0) == x
  {
    if x > 0 { XorZero(x / 2); }
  }

  /** Xor with all ones takes the complement. */
  lemma {:induction false} XorOnes(x: nat, k: nat)
    requires x < Pow2(k)
    ensures Xor(x, Pow2(k) - 1) == Pow2(k) - 1 - x
    decreases k
  {
    if k > 0 {
      Pow2Positive(k - 1);
      XorOnes(x / 2, k - 1);
    }
  }

  /** (h << (w - k)) | (l >> k): the k low bits of h, then the high bits of l. */
  lemma ShiftAcross(h: nat, l: nat, k: nat, w: nat)
    requires k <= w && l < Pow2(w)
    ensures Or(Shl(h, w - k, w), Shr(l, k)) == Up(Low(h, k), w - k) + Shr(l, k) < Pow2(w)
  {
    var a, b := Low(h, k), Shr(l, k);
    Split(h, k);
    assert b < Pow2(w - k) by { ShrBounds(l, k, w); }
    assert Shl(h, w - k, w) == Up(a, w - k) by { ShlKeeps(h, k, w); }
    OrDisjoint(a, b, w - k);
    FieldsFit(a, b, k, w);
  }

  lemma FieldsFit(a: nat, b: nat, k: nat, w: nat)
    requires k <= w && a < Pow2(k) && b < Pow2(w - k)
    ensures Up(a, w - k) + b < Pow2(w)
  {
    hide Up, Shr, Low;
    UpLess(a + 1, Pow2(k), w - k);
    UpAdd(a, 1, w - k);
    UpUp(1, k, w - k);
  }
}
