/** The single bits of the status registers: what setting and clearing a mask does to each of them. */
module StatusBits {
  import opened Words
  import opened Machines

  lemma OrBit(x: u32, mask: u32, i: nat)
    requires i < 32
    ensures Bit(Or32(x, mask), i) == if Bit(x, i) == 1 || Bit(mask, i) == 1 then 1 else 0
  {
    BitOr(x, mask, 32, i);
  }

  lemma AndBit(x: u32, mask: u32, i: nat)
    requires i < 32
    ensures Bit(And32(x, mask), i) == if Bit(x, i) == 1 && Bit(mask, i) == 1 then 1 else 0
  {
    BitAnd(x, mask, 32, i);
  }

  lemma {:induction false} BitOfShl(x: nat, k: nat, i: nat)
    ensures Bit(Shl(x, k), i) == if i < k then 0 else Bit(x, i - k)
    decreases k
  {
    if k > 0 && i > 0 {
      BitOfShl(x, k - 1, i - 1);
    }
  }

  lemma {:induction false} BitOfZero(i: nat)
    ensures Bit(0, i) == 0
  {
    if i > 0 {
      BitOfZero(i - 1);
    }
  }

  lemma {:induction false} BitOfComplement(x: nat, k: nat, i: nat)
    requires i < k && x < Pow2(k)
    ensures Bit(Pow2(k) - 1 - x, i) == 1 - Bit(x, i)
    decreases k
  {
    var y := Pow2(k) - 1 - x;
    assert y / 2 == Pow2(k - 1) - 1 - x / 2 && y % 2 == 1 - x % 2;
    if i > 0 {
      BitOfComplement(x / 2, k - 1, i - 1);
    }
  }

  lemma MasksAreShifts()
    ensures BIT3 == Shl(1, 3) && BIT7 == Shl(1, 7) && MPP == Shl(3, 11)
  {
  }

  lemma SmallBits(j: nat)
    ensures Bit(1, j) == (if j == 0 then 1 else 0) && Bit(3, j) == (if j < 2 then 1 else 0)
  {
    if j > 0 {
      BitOfZero(j - 1);
    }
    if j > 1 {
      BitOfZero(j - 2);
    }
  }

  /** The bits of the masks that the program uses, and of their complements. */
  lemma MaskBits(i: nat)
    requires i < 32
    ensures Bit(BIT3, i) == (if i == 3 then 1 else 0) && Bit(ALL_ONES - BIT3, i) == 1 - Bit(BIT3, i)
    ensures Bit(BIT7, i) == (if i == 7 then 1 else 0) && Bit(ALL_ONES - BIT7, i) == 1 - Bit(BIT7, i)
    ensures Bit(MPP, i) == (if i == 11 || i == 12 then 1 else 0)
  {
    hide Bit, Shl, Pow2;
    Pow2Widths();
    MasksAreShifts();
    BitOfShl(1, 3, i);
    BitOfShl(1, 7, i);
    BitOfShl(3, 11, i);
    BitOfComplement(BIT3, 32, i);
    BitOfComplement(BIT7, 32, i);
    if i >= 3 { SmallBits(i - 3); }
    if i >= 7 { SmallBits(i - 7); }
    if i >= 11 { SmallBits(i - 11); }
  }

  /** The bits of a register after setting or clearing a mask in it. */
  lemma SetBitsOf(csr: Csrs, a: u32, mask: u32, i: nat)
    requires i < 32
    ensures Bit(Get(Set(csr, a, mask), a), i) == if Bit(Get(csr, a), i) == 1 || Bit(mask, i) == 1 then 1 else 0
    ensures Bit(Get(Clear(csr, a, mask), a), i)
      == if Bit(Get(csr, a), i) == 1 && Bit(ALL_ONES - mask, i) == 1 then 1 else 0
  {
    hide Or32, And32, Bit;
    OrBit(Get(csr, a), mask, i);
    AndBit(Get(csr, a), ALL_ONES - mask, i);
  }

  /** Bit i of a register is the only one to change, and it becomes b. */
  predicate OnlyBit(before: Csrs, after: Csrs, a: u32, i: nat, b: nat) {
    && (forall c: u32 | c != a :: Get(after, c) == Get(before, c))
    && forall j: nat | j < 32 :: Bit(Get(after, a), j) == if j == i then b else Bit(Get(before, a), j)
  }

  lemma OthersKept(csr: Csrs, a: u32, value: u32)
    ensures forall c: u32 | c != a :: Get(csr[a := value], c) == Get(csr, c)
  {
  }

  lemma SetIsOnlyBit(csr: Csrs, a: u32)
    ensures OnlyBit(csr, Set(csr, a, BIT3), a, 3, 1) && OnlyBit(csr, Set(csr, a, BIT7), a, 7, 1)
  {
    hide Or32, Bit, Get;
    OthersKept(csr, a, Or32(Get(csr, a), BIT3));
    OthersKept(csr, a, Or32(Get(csr, a), BIT7));
    forall j: nat | j < 32
      ensures Bit(Get(Set(csr, a, BIT3), a), j) == if j == 3 then 1 else Bit(Get(csr, a), j)
      ensures Bit(Get(Set(csr, a, BIT7), a), j) == if j == 7 then 1 else Bit(Get(csr, a), j)
    {
      MaskBits(j);
      SetBitsOf(csr, a, BIT3, j);
      SetBitsOf(csr, a, BIT7, j);
    }
  }

  lemma ClearIsOnlyBit(csr: Csrs, a: u32)
    ensures OnlyBit(csr, Clear(csr, a, BIT3), a, 3, 0) && OnlyBit(csr, Clear(csr, a, BIT7), a, 7, 0)
  {
    hide And32, Bit, Get;
    OthersKept(csr, a, And32(Get(csr, a), ALL_ONES - BIT3));
    OthersKept(csr, a, And32(Get(csr, a), ALL_ONES - BIT7));
    forall j: nat | j < 32
      ensures Bit(Get(Clear(csr, a, BIT3), a), j) == if j == 3 then 0 else Bit(Get(csr, a), j)
      ensures Bit(Get(Clear(csr, a, BIT7), a), j) == if j == 7 then 0 else Bit(Get(csr, a), j)
    {
      MaskBits(j);
      SetBitsOf(csr, a, BIT3, j);
      SetBitsOf(csr, a, BIT7, j);
    }
  }

  /** The bits of a privilege mode at bit 11. */
  predicate ModeBit(mode: nat, j: nat) {
    (j == 11 && mode % 2 == 1) || (j == 12 && mode / 2 % 2 == 1)
  }

  /** Setting a mode: its bits are set, and bits that were set before stay set. */
  lemma SetModeBits(csr: Csrs, a: u32, mode: nat, j: nat)
    requires j < 32
    ensures Bit(Get(Set(csr, a, 0x800 * (mode % 4)), a), j) == if ModeBit(mode, j) then 1 else Bit(Get(csr, a), j)
  {
    hide Or32, Bit, Shl, Get, Set, ModeBit;
    SetBitsOf(csr, a, 0x800 * (mode % 4), j);
    ModeMask(mode, mode % 4, j);
  }

  lemma ModeMask(mode: nat, m: nat, j: nat)
    requires m == mode % 4
    ensures Bit(0x800 * m, j) == if ModeBit(mode, j) then 1 else 0
  {
    hide Bit, Shl;
    ShiftedMode(m);
    BitOfShl(m, 11, j);
    assert m % 2 == mode % 2 && m / 2 == mode / 2 % 2;
    if j >= 11 {
      ModeBits(m, j - 11);
    }
  }

  lemma ShiftedMode(m: nat)
    ensures Shl(m, 11) == 0x800 * m
  {
    ShlIsProduct(m, 11);
    Pow2Small();
  }

  lemma ModeBits(m: nat, j: nat)
    requires m < 4
    ensures Bit(m, j) == if j == 0 then m % 2 else if j == 1 then m / 2 else 0
  {
    if j > 1 {
      BitOfZero(j - 2);
    }
  }
}
