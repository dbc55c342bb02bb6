/**
 Fixed-width unsigned integers and the bit operations of C++ on them. A word is a bounded
 integer; shifts and masks are division and remainder by powers of two, and `|`, `&`, `^`
 are computed bit by bit.
 */
module Words {
  type u8 = x: int | 0 <= x < 0x100
  type u16 = x: int | 0 <= x < 0x1_0000
  type u32 = x: int | 0 <= x < 0x1_0000_0000
  type u64 = x: int | 0 <= x < 0x1_0000_0000_0000_0000

  datatype Option<+T> = None | Some(value: T)

  const ALL_ONES: u32 := 0xffff_ffff

  /** Conversion of any integer to a 32-bit unsigned word. */
  function Wrap32(x: int): u32 {
    x % 0x1_0000_0000
  }

  lemma WrapSmall(x: u32)
    ensures Wrap32(x) == x
  {
  }

  lemma WrapSum(x: int, y: int)
    ensures Wrap32(Wrap32(x) + y) == Wrap32(x + y)
  {
  }

  function Wrap64(x: int): u64 {
    x % 0x1_0000_0000_0000_0000
  }

  /** The two's complement reading of a 32-bit word. */
  function Signed32(x: u32): int {
    if x < 0x8000_0000 then x else x - 0x1_0000_0000
  }

  function Pow2(n: nat): (p: nat)
    ensures p > 0
  {
    if n == 0 then 1 else 2 * Pow2(n - 1)
  }

  lemma {:induction false} Pow2Add(a: nat, b: nat)
    ensures Pow2(a + b) == Pow2(a) * Pow2(b)
  {
    if a > 0 {
      Pow2Add(a - 1, b);
      assert Pow2(a + b) == 2 * (Pow2(a - 1) * Pow2(b));
    }
  }

  lemma Pow2Byte()
    ensures Pow2(8) == 0x100
  {
  }

  lemma Pow2Widths()
    ensures Pow2(32) == 0x1_0000_0000 && Pow2(64) == 0x1_0000_0000_0000_0000
  {
    hide Pow2;
    Pow2Byte();
    Pow2Add(8, 8);
    Pow2Add(16, 16);
    Pow2Add(32, 32);
  }

  // ----- bitwise operators on the low k bits -----

  function Or(a: nat, b: nat, k: nat): (r: nat)
    ensures r < Pow2(k)
  {
    if k == 0 then 0
    else (if a % 2 == 1 || b % 2 == 1 then 1 else 0) + 2 * Or(a / 2, b / 2, k - 1)
  }

  function And(a: nat, b: nat, k: nat): (r: nat)
    ensures r < Pow2(k)
  {
    if k == 0 then 0
    else (if a % 2 == 1 && b % 2 == 1 then 1 else 0) + 2 * And(a / 2, b / 2, k - 1)
  }

  function Xor(a: nat, b: nat, k: nat): (r: nat)
    ensures r < Pow2(k)
  {
    if k == 0 then 0
    else (if a % 2 != b % 2 then 1 else 0) + 2 * Xor(a / 2, b / 2, k - 1)
  }

  function Or32(a: u32, b: u32): u32 {
    Pow2Widths();
    Or(a, b, 32)
  }

  function And32(a: u32, b: u32): u32 {
    Pow2Widths();
    And(a, b, 32)
  }

  function Xor32(a: u32, b: u32): u32 {
    Pow2Widths();
    Xor(a, b, 32)
  }

  /** Bit i of a number, `(x >> i) & 1`. */
  function Bit(x: nat, i: nat): (r: nat)
    ensures r <= 1
    decreases i
  {
    if i == 0 then x % 2 else Bit(x / 2, i - 1)
  }

  lemma DivNonNeg(a: nat, d: nat)
    requires d > 0
    ensures a / d >= 0
  {
  }

  lemma MulAssoc(a: int, b: int, c: int)
    ensures a * (b * c) == (a * b) * c
  {
  }

  lemma MulDistr(a: int, b: int, c: int)
    ensures a * (b + c) == a * b + a * c
  {
  }

  lemma MulLe(a: nat, b: int, c: int)
    requires b <= c
    ensures a * b <= a * c
  {
  }

  lemma {:induction false} DivUnique(x: int, d: nat, q: int, r: int)
    requires d > 0 && x == d * q + r && 0 <= r < d
    ensures x / d == q && x % d == r
  {
    var p := x / d - q;
    assert d * p == r - x % d by { MulDistr(d, x / d, -q); }
    if p >= 1 {
      MulLe(d, 1, p);
    } else if p <= -1 {
      MulLe(d, p, -1);
    }
  }

  lemma {:induction false} BitOr(a: nat, b: nat, k: nat, i: nat)
    requires i < k
    ensures Bit(Or(a, b, k), i) == if Bit(a, i) == 1 || Bit(b, i) == 1 then 1 else 0
  {
    if i > 0 {
      assert Or(a, b, k) / 2 == Or(a / 2, b / 2, k - 1);
      BitOr(a / 2, b / 2, k - 1, i - 1);
    }
  }

  lemma {:induction false} BitAnd(a: nat, b: nat, k: nat, i: nat)
    requires i < k
    ensures Bit(And(a, b, k), i) == if Bit(a, i) == 1 && Bit(b, i) == 1 then 1 else 0
  {
    if i > 0 {
      assert And(a, b, k) / 2 == And(a / 2, b / 2, k - 1);
      BitAnd(a / 2, b / 2, k - 1, i - 1);
    }
  }

  lemma {:induction false} BitXor(a: nat, b: nat, k: nat, i: nat)
    requires i < k
    ensures Bit(Xor(a, b, k), i) == if Bit(a, i) != Bit(b, i) then 1 else 0
  {
    if i > 0 {
      assert Xor(a, b, k) / 2 == Xor(a / 2, b / 2, k - 1);
      BitXor(a / 2, b / 2, k - 1, i - 1);
    }
  }

  /** `x << s` without any loss. */
  function Shl(x: nat, s: nat): (r: nat)
    ensures r >= x
    decreases s
  {
    if s == 0 then x else 2 * Shl(x, s - 1)
  }

  lemma {:induction false} ShlAdd(x: nat, a: nat, b: nat)
    ensures Shl(Shl(x, a), b) == Shl(x, a + b)
  {
    if b > 0 {
      ShlAdd(x, a, b - 1);
    }
  }

  lemma {:induction false} ShlIsProduct(x: nat, s: nat)
    ensures Shl(x, s) == x * Pow2(s)
  {
    if s > 0 {
      ShlIsProduct(x, s - 1);
      MulAssoc(x, 2, Pow2(s - 1));
    }
  }

  /** `a | (b << s)` is a sum when `a` lies below bit s. */
  lemma {:induction false} OrDisjoint(a: nat, b: nat, s: nat, k: nat)
    requires a < Shl(1, s) && s <= k && Shl(b, s) < Pow2(k)
    ensures Or(a, Shl(b, s), k) == a + Shl(b, s)
  {
    if s == 0 {
      OrZero(b, k);
    } else {
      OrDisjoint(a / 2, b, s - 1, k - 1);
    }
  }

  lemma {:induction false} OrZero(b: nat, k: nat)
    requires b < Pow2(k)
    ensures Or(0, b, k) == b
  {
    if k > 0 {
      OrZero(b / 2, k - 1);
    }
  }

  lemma {:induction false} XorOnes(a: nat, k: nat)
    requires a < Pow2(k)
    ensures Xor(Pow2(k) - 1, a, k) == Pow2(k) - 1 - a
    ensures Xor(a, Pow2(k) - 1, k) == Pow2(k) - 1 - a
  {
    if k > 0 {
      var ones := Pow2(k) - 1;
      assert ones / 2 == Pow2(k - 1) - 1 && ones % 2 == 1;
      XorOnes(a / 2, k - 1);
    }
  }

  lemma {:induction false} XorZero(a: nat, k: nat)
    requires a < Pow2(k)
    ensures Xor(0, a, k) == a && Xor(a, 0, k) == a
  {
    if k > 0 {
      XorZero(a / 2, k - 1);
    }
  }

  lemma {:induction false} OrSame(a: nat, k: nat)
    requires a < Pow2(k)
    ensures Or(a, a, k) == a
  {
    if k > 0 {
      OrSame(a / 2, k - 1);
    }
  }

  lemma {:induction false} AndZero(a: nat, k: nat)
    ensures And(0, a, k) == 0 && And(a, 0, k) == 0
  {
    if k > 0 {
      AndZero(a / 2, k - 1);
    }
  }

  lemma {:induction false} AndOnes(a: nat, k: nat)
    requires a < Pow2(k)
    ensures And(Pow2(k) - 1, a, k) == a
  {
    if k > 0 {
      var ones := Pow2(k) - 1;
      assert ones / 2 == Pow2(k - 1) - 1 && ones % 2 == 1;
      AndOnes(a / 2, k - 1);
    }
  }

  // ----- shifts and masks as quotients and remainders -----

  /** `x >> s`. */
  function ShiftRight(x: u32, s: nat): (r: u32)
    ensures r <= x
    decreases s
  {
    if s == 0 then x else ShiftRight(x / 2, s - 1)
  }

  lemma {:induction false} ShiftRightIsQuotient(x: u32, s: nat)
    ensures ShiftRight(x, s) == x / Pow2(s)
    decreases s
  {
    if s > 0 {
      ShiftRightIsQuotient(x / 2, s - 1);
      QuotientTwice(x, Pow2(s - 1));
    }
  }

  lemma QuotientTwice(x: nat, p: nat)
    requires p > 0
    ensures x / (2 * p) == x / 2 / p
  {
    var q, r := x / 2 / p, x / 2 % p;
    assert x == (2 * p) * q + (2 * r + x % 2) by { MulAssoc(2, p, q); }
    DivUnique(x, 2 * p, q, 2 * r + x % 2);
  }

  lemma OrCommutes(a: nat, b: nat, k: nat)
    ensures Or(a, b, k) == Or(b, a, k)
  {
    if k > 0 {
      OrCommutes(a / 2, b / 2, k - 1);
    }
  }

  /** `(high << s) | low` is a sum when `low` lies below bit s. */
  lemma OrAdds(high: nat, s: nat, low: nat)
    requires s <= 32 && low < Pow2(s) && high * Pow2(s) < 0x1_0000_0000
    ensures low < 0x1_0000_0000 && Or(high * Pow2(s), low, 32) == high * Pow2(s) + low
    ensures Or(low, high * Pow2(s), 32) == high * Pow2(s) + low
  {
    hide Or, Shl, Pow2;
    Pow2Widths();
    Pow2Monotone(s, 32);
    ShlIsProduct(1, s);
    ShlIsProduct(high, s);
    OrDisjoint(low, high, s, 32);
    OrCommutes(high * Pow2(s), low, 32);
  }

  lemma {:induction false} Pow2Monotone(a: nat, b: nat)
    requires a <= b
    ensures Pow2(a) <= Pow2(b)
  {
    if a < b {
      Pow2Monotone(a, b - 1);
    }
  }

  lemma RemainderTwice(x: nat, p: nat)
    requires p > 0
    ensures x % (2 * p) == 2 * (x / 2 % p) + x % 2
  {
    assert x == (2 * p) * (x / 2 / p) + (2 * (x / 2 % p) + x % 2) by { MulAssoc(2, p, x / 2 / p); }
    DivUnique(x, 2 * p, x / 2 / p, 2 * (x / 2 % p) + x % 2);
  }

  /** `x & ((1 << w) - 1)` is a remainder. */
  lemma {:induction false} MaskIsRemainder(x: nat, w: nat, k: nat)
    requires w <= k
    ensures And(x, Pow2(w) - 1, k) == x % Pow2(w)
    decreases w
  {
    if w == 0 {
      AndZero(x, k);
    } else {
      var p := Pow2(w - 1);
      assert (Pow2(w) - 1) / 2 == p - 1 && (Pow2(w) - 1) % 2 == 1;
      MaskIsRemainder(x / 2, w - 1, k - 1);
      RemainderTwice(x, p);
    }
  }

  /** A mask of w ones from bit s up selects the bits there. */
  lemma {:induction false} MaskSelects(x: nat, s: nat, w: nat, k: nat)
    requires s + w <= k
    ensures And(x, Shl(Pow2(w) - 1, s), k) == Shl(x / Pow2(s) % Pow2(w), s)
    decreases s
  {
    if s == 0 {
      MaskIsRemainder(x, w, k);
    } else {
      assert Shl(Pow2(w) - 1, s) / 2 == Shl(Pow2(w) - 1, s - 1) && Shl(Pow2(w) - 1, s) % 2 == 0;
      MaskSelects(x / 2, s - 1, w, k - 1);
      QuotientTwice(x, Pow2(s - 1));
    }
  }

  lemma {:induction false} QuotientOfQuotient(x: nat, a: nat, b: nat)
    ensures x / Pow2(a) / Pow2(b) == x / Pow2(a + b)
    decreases a
  {
    if a > 0 {
      QuotientTwice(x, Pow2(a - 1));
      QuotientOfQuotient(x / 2, a - 1, b);
      QuotientTwice(x, Pow2(a + b - 1));
    }
  }

  /** `(x >> shift) & mask`, for a mask of w ones from bit s up. */
  lemma Slice(x: u32, shift: nat, s: nat, w: nat, mask: u32)
    requires s + w <= 32 && mask == (Pow2(w) - 1) * Pow2(s)
    ensures And32(ShiftRight(x, shift), mask) == x / Pow2(shift + s) % Pow2(w) * Pow2(s)
  {
    hide And, Shl, Pow2, ShiftRight;
    Pow2Widths();
    ShlIsProduct(Pow2(w) - 1, s);
    ShiftRightIsQuotient(x, shift);
    MaskSelects(ShiftRight(x, shift), s, w, 32);
    QuotientOfQuotient(x, shift, s);
    ShlIsProduct(x / Pow2(shift + s) % Pow2(w), s);
  }

  /** The powers that the instruction formats use. */
  lemma Pow2Table()
    ensures Pow2(0) == 1 && Pow2(1) == 2 && Pow2(3) == 8 && Pow2(4) == 0x10 && Pow2(5) == 0x20 && Pow2(6) == 0x40
    ensures Pow2(7) == 0x80 && Pow2(8) == 0x100 && Pow2(10) == 0x400 && Pow2(11) == 0x800 && Pow2(12) == 0x1000
    ensures Pow2(15) == 0x8000 && Pow2(19) == 0x8_0000 && Pow2(20) == 0x10_0000 && Pow2(21) == 0x20_0000
    ensures Pow2(25) == 0x200_0000 && Pow2(31) == 0x8000_0000
  {
    Pow2Byte();
    Pow2Small();
    Pow2Add(8, 4);
    Pow2Add(12, 3);
    Pow2Add(12, 7);
    Pow2Add(12, 8);
    Pow2Add(20, 1);
    Pow2Add(20, 5);
    Pow2Add(20, 11);
  }

  lemma Pow2Small()
    ensures Pow2(0) == 1 && Pow2(1) == 2 && Pow2(3) == 8 && Pow2(4) == 0x10 && Pow2(5) == 0x20 && Pow2(6) == 0x40
    ensures Pow2(7) == 0x80 && Pow2(10) == 0x400 && Pow2(11) == 0x800
  {
    Pow2Byte();
    assert Pow2(9) == 0x200;
  }

  /** Bit i is the remainder of a quotient. */
  lemma {:induction false} BitIsQuotient(x: nat, i: nat)
    ensures Bit(x, i) == x / Pow2(i) % 2
    decreases i
  {
    if i > 0 {
      BitIsQuotient(x / 2, i - 1);
      QuotientTwice(x, Pow2(i - 1));
    }
  }
}
