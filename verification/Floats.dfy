/** Which integers Python converts to a float: those that round to less than 2^1024 (IEEE 754-2019,
  * section 7.4). */
module Floats {
  /** 2^1024 - 2^970: from here on an integer rounds past the largest float. */
  const FLOAT_OVERFLOW: int := 0xFFFF_FFFF_FFFF_FC00 * (TWO_TO_480 * TWO_TO_480)

  const TWO_TO_480: int := SIXTEEN_TO_60 * SIXTEEN_TO_60

  const SIXTEEN_TO_60: int := 0x1000000000000000000000000000000000000000000000000000000000000

  predicate FitsFloat(n: int) {
    -FLOAT_OVERFLOW < n < FLOAT_OVERFLOW
  }

  function Pow2(n: nat): nat {
    if n == 0 then 1 else 2 * Pow2(n - 1)
  }

  lemma {:induction false} Pow2Add(m: nat, n: nat)
    ensures Pow2(m + n) == Pow2(m) * Pow2(n)
    decreases m
  {
    if m == 0 {
    } else {
      Pow2Add(m - 1, n);
      assert 2 * (Pow2(m - 1) * Pow2(n)) == (2 * Pow2(m - 1)) * Pow2(n);
    }
  }

  lemma Pow2Ten()
    ensures Pow2(10) == 1024
  {
    assert Pow2(5) == 32;
    Pow2Add(5, 5);
  }

  lemma Pow2Sixty()
    ensures Pow2(60) == 0x1000_0000_0000_0000 && Pow2(64) == 0x1_0000_0000_0000_0000
  {
    Pow2Ten();
    Pow2Add(10, 10);
    Pow2Add(20, 10);
    Pow2Add(30, 30);
    assert Pow2(4) == 16;
    Pow2Add(4, 60);
  }

  lemma Pow2OfSixteens()
    ensures Pow2(480) == TWO_TO_480
  {
    Pow2Sixty();
    Pow2Add(60, 60);
    Pow2Add(120, 120);
    Pow2Add(240, 240);
  }

  lemma Distribute(x: int)
    ensures 0xFFFF_FFFF_FFFF_FC00 * x == 0x1_0000_0000_0000_0000 * x - 1024 * x
  {}

  /** Halfway between the largest float, 2^1024 - 2^971, and 2^1024. */
  lemma FloatOverflowIs()
    ensures FLOAT_OVERFLOW == Pow2(1024) - Pow2(970)
  {
    Pow2Ten();
    Pow2Sixty();
    Pow2OfSixteens();
    Pow2Add(480, 480);
    Pow2Add(64, 960);
    Pow2Add(10, 960);
    Distribute(Pow2(960));
  }
}
