/** Numbers as 64-bit machine words, taken apart from the low end. */
module Words {
  import opened Arithmetic
  import opened BitStreams
  import opened PageEntry

  function Push(x: bv64, b: bool): bv64 {
    (x << 1) | (if b then 1 else 0)
  }

  function Half(x: bv64): bv64 {
    x >> 1
  }

  predicate Low(x: bv64) {
    x & 1 == 1
  }

  function And(x: bv64, y: bv64): bv64 {
    x & y
  }

  function Or(x: bv64, y: bv64): bv64 {
    x | y
  }

  /** No bit of `x` lies outside the mask. */
  predicate Inside(x: bv64, mask: bv64) {
    x & !mask == 0
  }

  /** The two words agree in the bits of the mask. */
  predicate Agree(x: bv64, y: bv64, mask: bv64) {
    Clear(x ^ y, mask)
  }

  /** The word of a number, modulo 2^64. */
  function Word(n: nat): bv64 {
    if n == 0 then 0 else Push(Word(n / 2), n % 2 == 1)
  }

  /** The lowest `k` bits set. */
  function Ones(k: nat): bv64 {
    if k == 0 then 0 else Push(Ones(k - 1), true)
  }

  /** The mask has exactly the `k` bits from bit `s` on. */
  predicate IsMask(mask: bv64, k: nat, s: nat)
    decreases k + s
  {
    if s > 0 then !Low(mask) && IsMask(Half(mask), k, s - 1)
    else if k > 0 then Low(mask) && IsMask(Half(mask), k - 1, 0)
    else mask == 0
  }

  // ---------- one bit at a time ----------

  lemma HalfPush(x: bv64, b: bool)
    ensures Half(Push(x, b)) == And(x, 0x7FFF_FFFF_FFFF_FFFF)
  {
  }

  lemma LowPush(x: bv64, b: bool)
    ensures Low(Push(x, b)) == b
  {
  }

  lemma HalfAnd(x: bv64, y: bv64)
    ensures Half(And(x, y)) == And(Half(x), Half(y))
  {
  }

  lemma HalfOr(x: bv64, y: bv64)
    ensures Half(Or(x, y)) == Or(Half(x), Half(y))
  {
  }

  lemma LowAnd(x: bv64, y: bv64)
    ensures Low(And(x, y)) <==> Low(x) && Low(y)
  {
  }

  lemma LowOr(x: bv64, y: bv64)
    ensures Low(Or(x, y)) <==> Low(x) || Low(y)
  {
  }

  lemma SameHalves(x: bv64, y: bv64)
    requires Half(x) == Half(y) && Low(x) == Low(y)
    ensures x == y
  {
  }

  lemma HalvesAgree(x: bv64, y: bv64, mask: bv64)
    requires Agree(x, y, mask)
    ensures Agree(Half(x), Half(y), Half(mask))
  {
  }

  lemma LowAgrees(x: bv64, y: bv64, mask: bv64)
    requires Agree(x, y, mask) && Low(mask)
    ensures Low(x) == Low(y)
  {
  }

  lemma AgreeByHalves(x: bv64, y: bv64, mask: bv64)
    requires Agree(Half(x), Half(y), Half(mask)) && Low(x) == Low(y)
    ensures Agree(x, y, mask)
  {
  }

  lemma AgreeAbove(x: bv64, y: bv64, mask: bv64)
    requires Agree(Half(x), Half(y), Half(mask)) && !Low(mask)
    ensures Agree(x, y, mask)
  {
  }

  lemma AgreeHalf(x: bv64, y: bv64, mask: bv64)
    ensures Agree(x, y, mask) <==> Agree(Half(x), Half(y), Half(mask)) && (Low(mask) ==> Low(x) == Low(y))
  {
    hide Agree, Half, Low;
    if Agree(x, y, mask) {
      HalvesAgree(x, y, mask);
      if Low(mask) {
        LowAgrees(x, y, mask);
      }
    } else if Agree(Half(x), Half(y), Half(mask)) {
      if !Low(mask) {
        AgreeAbove(x, y, mask);
      } else if Low(x) == Low(y) {
        AgreeByHalves(x, y, mask);
      }
    }
  }

  lemma PushOneInside(x: bv64, y: bv64)
    requires Inside(x, y)
    ensures Inside(Push(x, true), Push(y, true))
  {
  }

  lemma PushZeroInside(x: bv64, y: bv64)
    requires Inside(x, y)
    ensures Inside(Push(x, false), Push(y, true))
  {
  }

  lemma InsideAnd(x: bv64, y: bv64)
    requires Inside(x, y)
    ensures And(x, y) == x
  {
  }

  lemma AgreeNowhere(x: bv64, y: bv64)
    ensures Agree(x, y, 0)
  {
  }

  lemma ZeroInside(y: bv64)
    ensures Inside(0, y)
  {
  }

  lemma OnesAreTopClear()
    ensures Ones(63) == 0x7FFF_FFFF_FFFF_FFFF
  {
    assert Ones(10) == 0x3FF;
    assert Ones(20) == 0xF_FFFF;
    assert Ones(30) == 0x3FFF_FFFF;
    assert Ones(40) == 0xFF_FFFF_FFFF;
    assert Ones(50) == 0x3_FFFF_FFFF_FFFF;
    assert Ones(60) == 0xFFF_FFFF_FFFF_FFFF;
  }

  // ---------- the digits of a number ----------

  lemma {:induction false} WordBelow(n: nat, k: nat)
    requires n < Pow2(k)
    ensures Inside(Word(n), Ones(k))
    decreases k
  {
    hide Push, Inside;
    if n == 0 {
      ZeroInside(Ones(k));
    } else {
      WordBelow(n / 2, k - 1);
      if n % 2 == 1 {
        PushOneInside(Word(n / 2), Ones(k - 1));
      } else {
        PushZeroInside(Word(n / 2), Ones(k - 1));
      }
    }
  }

  lemma HalfLimit()
    ensures Pow2(63) == 0x8000_0000_0000_0000
  {
    assert Pow2(10) == 0x400;
    assert Pow2(20) == 0x10_0000;
    assert Pow2(30) == 0x4000_0000;
    assert Pow2(40) == 0x100_0000_0000;
    assert Pow2(50) == 0x4_0000_0000_0000;
    assert Pow2(60) == 0x1000_0000_0000_0000;
  }

  lemma TopFree(n: nat)
    requires n < 0x8000_0000_0000_0000
    ensures And(Word(n), 0x7FFF_FFFF_FFFF_FFFF) == Word(n)
  {
    hide And, Inside, Word;
    HalfLimit();
    WordBelow(n, 63);
    OnesAreTopClear();
    InsideAnd(Word(n), 0x7FFF_FFFF_FFFF_FFFF);
  }

  lemma WordPush(n: nat)
    ensures Word(n) == Push(Word(n / 2), n % 2 == 1)
  {
  }

  lemma HalfWord(n: nat)
    requires n < 0x1_0000_0000_0000_0000
    ensures Half(Word(n)) == Word(n / 2)
  {
    hide And, Half, Push, Word;
    WordPush(n);
    HalfPush(Word(n / 2), n % 2 == 1);
    TopFree(n / 2);
  }

  lemma LowWord(n: nat)
    ensures Low(Word(n)) <==> n % 2 == 1
  {
    hide Low, Push, Word;
    WordPush(n);
    LowPush(Word(n / 2), n % 2 == 1);
  }

  lemma SameWord(x: bv64, n: nat)
    requires n < 0x1_0000_0000_0000_0000 && Half(x) == Word(n / 2) && (Low(x) <==> n % 2 == 1)
    ensures x == Word(n)
  {
    hide Half, Low, Word;
    HalfWord(n);
    LowWord(n);
    SameHalves(x, Word(n));
  }

  // ---------- rounding and joining ----------

  /** The low `k` bits of a word are the word of the remainder modulo 2^k. */
  lemma {:induction false} WordLow(n: nat, mask: bv64, k: nat)
    requires n < 0x1_0000_0000_0000_0000 && IsMask(mask, k, 0)
    ensures And(Word(n), mask) == Word(n % Pow2(k))
    decreases k
  {
    hide And, Half, Low, Word;
    if k > 0 {
      RemainderDigits(n, Pow2(k - 1));
      WordLow(n / 2, Half(mask), k - 1);
      HalfWord(n);
      LowWord(n);
      HalfAnd(Word(n), mask);
      LowAnd(Word(n), mask);
      SameWord(And(Word(n), mask), n % Pow2(k));
    } else {
      AndZero(Word(n));
    }
  }

  lemma AndZero(x: bv64)
    ensures And(x, 0) == Word(0)
  {
  }

  lemma OrZero(x: bv64)
    ensures Or(x, Word(0)) == x
  {
  }

  /** A multiple of 2^k and a number below it do not overlap. */
  lemma {:induction false} WordJoin(q: nat, l: nat, k: nat)
    requires q % Pow2(k) == 0 && l < Pow2(k) && q + l < 0x1_0000_0000_0000_0000
    ensures Or(Word(q), Word(l)) == Word(q + l)
    decreases k
  {
    hide Or, Half, Low, Word;
    if k > 0 {
      HalveFirst(q, Pow2(k - 1));
      WordJoin(q / 2, l / 2, k - 1);
      HalfWord(q);
      LowWord(q);
      HalfWord(l);
      LowWord(l);
      HalfOr(Word(q), Word(l));
      LowOr(Word(q), Word(l));
      assert (q + l) / 2 == q / 2 + l / 2;
      SameWord(Or(Word(q), Word(l)), q + l);
    } else {
      OrZero(Word(q));
    }
  }

  /** Two words agree in `k` bits from bit `s` on exactly when the numbers divided by 2^s agree modulo 2^k. */
  lemma {:induction false} SameBits(m: nat, n: nat, mask: bv64, k: nat, s: nat)
    requires m < 0x1_0000_0000_0000_0000 && n < 0x1_0000_0000_0000_0000 && IsMask(mask, k, s)
    ensures Agree(Word(m), Word(n), mask) <==> m / Pow2(s) % Pow2(k) == n / Pow2(s) % Pow2(k)
    decreases s + k
  {
    hide Agree, Half, Low, Word;
    AgreeHalf(Word(m), Word(n), mask);
    HalfWord(m);
    LowWord(m);
    HalfWord(n);
    LowWord(n);
    if s > 0 {
      SameBits(m / 2, n / 2, Half(mask), k, s - 1);
      HalveFirst(m, Pow2(s - 1));
      HalveFirst(n, Pow2(s - 1));
    } else if k > 0 {
      SameBits(m / 2, n / 2, Half(mask), k - 1, 0);
      HalveFirst(m, Pow2(k - 1));
      HalveFirst(n, Pow2(k - 1));
    } else {
      AgreeNowhere(Word(m), Word(n));
    }
  }

  // ---------- pages ----------

  /** The bytes of a page of the given level: 4 KiB or 1 GiB. */
  function PageBytes(size: nat): (r: nat)
    ensures r > 0
  {
    if size == 1 then 0x1000 else 0x4000_0000
  }

  /** How many pages of the given level the walk tells apart. */
  function Slots(depth: nat, size: nat): (r: nat)
    ensures r > 0
  {
    if size == 1 then if depth == 5 then 0x2000_0000_0000 else 0x10_0000_0000
    else if depth == 5 then 0x800_0000 else 0x4_0000
  }

  lemma Powers()
    ensures Pow2(12) == 0x1000 && Pow2(18) == 0x4_0000 && Pow2(27) == 0x800_0000 && Pow2(30) == 0x4000_0000
    ensures Pow2(36) == 0x10_0000_0000 && Pow2(45) == 0x2000_0000_0000 && Pow2(47) == 0x8000_0000_0000
  {
    assert Pow2(10) == 0x400;
    assert Pow2(20) == 0x10_0000;
    assert Pow2(28) == 0x1000_0000;
    assert Pow2(38) == 0x40_0000_0000;
  }

  lemma SmallSlots4()
    ensures IsMask(0x0000_FFFF_FFFF_F000, 36, 12)
  {
    assert IsMask(0x3FF, 10, 0);
    assert IsMask(0xF_FFFF, 20, 0);
    assert IsMask(0x3FFF_FFFF, 30, 0);
    assert IsMask(0xF_FFFF_FFFF, 36, 0);
    assert IsMask(0xF_FFFF_FFFF << 6, 36, 6);
  }

  lemma SmallSlots5()
    ensures IsMask(0x01FF_FFFF_FFFF_F000, 45, 12)
  {
    assert IsMask(0x3FF, 10, 0);
    assert IsMask(0xF_FFFF, 20, 0);
    assert IsMask(0x3FFF_FFFF, 30, 0);
    assert IsMask(0xFF_FFFF_FFFF, 40, 0);
    assert IsMask(0x1FFF_FFFF_FFFF, 45, 0);
    assert IsMask(0x1FFF_FFFF_FFFF << 6, 45, 6);
  }

  lemma GigaSlots4()
    ensures IsMask(0x0000_FFFF_C000_0000, 18, 30)
  {
    assert IsMask(0x3FF, 10, 0);
    assert IsMask(0x3_FFFF, 18, 0);
    assert IsMask(0x3_FFFF << 10, 18, 10);
    assert IsMask(0x3_FFFF << 20, 18, 20);
  }

  lemma GigaSlots5()
    ensures IsMask(0x01FF_FFFF_C000_0000, 27, 30)
  {
    assert IsMask(0x3FF, 10, 0);
    assert IsMask(0xF_FFFF, 20, 0);
    assert IsMask(0x7FF_FFFF, 27, 0);
    assert IsMask(0x7FF_FFFF << 10, 27, 10);
    assert IsMask(0x7FF_FFFF << 20, 27, 20);
  }

  lemma SmallOffset()
    ensures IsMask(0xFFF, 12, 0)
  {
    assert IsMask(0x3F, 6, 0);
  }

  lemma GigaOffset()
    ensures IsMask(0x3FFF_FFFF, 30, 0)
  {
    assert IsMask(0x3FF, 10, 0);
    assert IsMask(0xF_FFFF, 20, 0);
  }

  /** Two addresses lie in one page exactly when their page numbers agree as far up as the walk looks. */
  lemma SamePageNumber(m: nat, n: nat, depth: nat, size: nat)
    requires m < 0x1_0000_0000_0000_0000 && n < 0x1_0000_0000_0000_0000 && (size == 1 || size == 3) && 4 <= depth <= 5
    ensures SamePage(Word(m), Word(n), depth, size) <==>
            m / PageBytes(size) % Slots(depth, size) == n / PageBytes(size) % Slots(depth, size)
  {
    hide Clear, Word, IsMask;
    Powers();
    if size == 1 && depth == 4 {
      SmallSlots4();
      SameBits(m, n, 0x0000_FFFF_FFFF_F000, 36, 12);
    } else if size == 1 {
      SmallSlots5();
      SameBits(m, n, 0x01FF_FFFF_FFFF_F000, 45, 12);
    } else if depth == 4 {
      GigaSlots4();
      SameBits(m, n, 0x0000_FFFF_C000_0000, 18, 30);
    } else {
      GigaSlots5();
      SameBits(m, n, 0x01FF_FFFF_C000_0000, 27, 30);
    }
  }

  /** The offset in a page is the remainder modulo the page's bytes. */
  lemma PageOffset(n: nat, size: nat)
    requires n < 0x1_0000_0000_0000_0000 && (size == 1 || size == 3)
    ensures And(Word(n), OffsetMask(size)) == Word(n % PageBytes(size))
  {
    hide And, Word, IsMask;
    Powers();
    if size == 1 {
      SmallOffset();
      WordLow(n, 0xFFF, 12);
    } else {
      GigaOffset();
      WordLow(n, 0x3FFF_FFFF, 30);
    }
  }

  /** A page start and an offset put together. */
  lemma StartAndOffset(q: nat, l: nat, size: nat)
    requires (size == 1 || size == 3) && q % PageBytes(size) == 0 && l < PageBytes(size) &&
      q + l < 0x1_0000_0000_0000_0000
    ensures Or(Word(q), Word(l)) == Word(q + l)
  {
    hide Or, Word;
    Powers();
    WordJoin(q, l, if size == 1 then 12 else 30);
  }

  lemma HalfOfSpace()
    ensures Ones(47) == 0x7FFF_FFFF_FFFF
  {
    assert Ones(10) == 0x3FF;
    assert Ones(20) == 0xF_FFFF;
    assert Ones(30) == 0x3FFF_FFFF;
    assert Ones(40) == 0xFF_FFFF_FFFF;
  }

  lemma MappableSmall(x: bv64)
    requires Inside(x, 0x7FFF_FFFF_FFFF) && And(x, 0xFFF) == 0
    ensures x & !0x000F_FFFF_FFFF_F000 == 0
  {
  }

  lemma MappableGiga(x: bv64)
    requires Inside(x, 0x7FFF_FFFF_FFFF) && And(x, 0x3FFF_FFFF) == 0
    ensures x & !0x000F_FFFF_C000_0000 == 0
  {
  }

  /** Page starts below 2^47 fit the address field of an entry. */
  lemma WordMappable(n: nat, size: nat)
    requires (size == 1 || size == 3) && n % PageBytes(size) == 0 && n < 0x8000_0000_0000
    ensures Mappable(Word(n), size)
  {
    hide Inside, And;
    Powers();
    WordBelow(n, 47);
    HalfOfSpace();
    PageOffset(n, size);
    if size == 1 {
      MappableSmall(Word(n));
    } else {
      MappableGiga(Word(n));
    }
  }

  lemma MiddleOfOffset(x: bv64)
    requires And(x, 0x3FFF_FFFF) == 0
    ensures x & 0x3FE0_0000 == 0
  {
  }

  lemma GigaStart(n: nat)
    requires n < 0x1_0000_0000_0000_0000 && n % 0x4000_0000 == 0
    ensures Word(n) & 0x3FE0_0000 == 0
  {
    hide And;
    PageOffset(n, 3);
    MiddleOfOffset(Word(n));
  }
}
