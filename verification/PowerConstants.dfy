/**
 * Four exact powers, reached by doubling. They bracket the base-two logarithm of ten between the neighbouring
 * fractions 485/146 and 1651/497.
 */
module PowerConstants {
  import opened Powers

  lemma Twice(b: nat, m: nat, x: nat)
    requires Pow(b, m) == x
    ensures Pow(b, 2 * m) == x * x
  {
    PowAdd(b, m, m);
  }

  lemma Next(b: nat, m: nat, x: nat)
    requires Pow(b, m) == x
    ensures Pow(b, m + 1) == b * x
  {
  }

  lemma TwoTo485()
    ensures Pow(2, 485) == 0x20000000000000000000000000000000000000000000000000000000000000000000000000000000000000000000000000000000000000000000000000
  {
    assert Pow(2, 1) == 2;
    Twice(2, 1, 0x2);
    Next(2, 2, 0x4);
    Twice(2, 3, 0x8);
    Next(2, 6, 0x40);
    Twice(2, 7, 0x80);
    Next(2, 14, 0x4000);
    Twice(2, 15, 0x8000);
    Twice(2, 30, 0x40000000);
    Twice(2, 60, 0x1000000000000000);
    Next(2, 120, 0x1000000000000000000000000000000);
    Twice(2, 121, 0x2000000000000000000000000000000);
    Twice(2, 242, 0x4000000000000000000000000000000000000000000000000000000000000);
    Next(2, 484, 0x10000000000000000000000000000000000000000000000000000000000000000000000000000000000000000000000000000000000000000000000000);
  }

  lemma TenTo146()
    ensures Pow(10, 146) == 100000000000000000000000000000000000000000000000000000000000000000000000000000000000000000000000000000000000000000000000000000000000000000000000000
  {
    assert Pow(10, 1) == 10;
    Twice(10, 1, 10);
    Twice(10, 2, 100);
    Twice(10, 4, 10000);
    Next(10, 8, 100000000);
    Twice(10, 9, 1000000000);
    Twice(10, 18, 1000000000000000000);
    Twice(10, 36, 1000000000000000000000000000000000000);
    Next(10, 72, 1000000000000000000000000000000000000000000000000000000000000000000000000);
    Twice(10, 73, 10000000000000000000000000000000000000000000000000000000000000000000000000);
  }

  lemma TwoTo1651()
    ensures Pow(2, 1651) == 0x80000000000000000000000000000000000000000000000000000000000000000000000000000000000000000000000000000000000000000000000000000000000000000000000000000000000000000000000000000000000000000000000000000000000000000000000000000000000000000000000000000000000000000000000000000000000000000000000000000000000000000000000000000000000000000000000000000000000000000000000000000000000000000000000000000000000000000000000000000
  {
    assert Pow(2, 1) == 2;
    Twice(2, 1, 0x2);
    Next(2, 2, 0x4);
    Twice(2, 3, 0x8);
    Twice(2, 6, 0x40);
    Twice(2, 12, 0x1000);
    Next(2, 24, 0x1000000);
    Twice(2, 25, 0x2000000);
    Next(2, 50, 0x4000000000000);
    Twice(2, 51, 0x8000000000000);
    Next(2, 102, 0x40000000000000000000000000);
    Twice(2, 103, 0x80000000000000000000000000);
    Twice(2, 206, 0x4000000000000000000000000000000000000000000000000000);
    Twice(2, 412, 0x10000000000000000000000000000000000000000000000000000000000000000000000000000000000000000000000000000000);
    Next(2, 824, 0x100000000000000000000000000000000000000000000000000000000000000000000000000000000000000000000000000000000000000000000000000000000000000000000000000000000000000000000000000000000000000000000000000000000000000);
    Twice(2, 825, 0x200000000000000000000000000000000000000000000000000000000000000000000000000000000000000000000000000000000000000000000000000000000000000000000000000000000000000000000000000000000000000000000000000000000000000);
    Next(2, 1650, 0x40000000000000000000000000000000000000000000000000000000000000000000000000000000000000000000000000000000000000000000000000000000000000000000000000000000000000000000000000000000000000000000000000000000000000000000000000000000000000000000000000000000000000000000000000000000000000000000000000000000000000000000000000000000000000000000000000000000000000000000000000000000000000000000000000000000000000000000000000000);
  }

  lemma TenTo497()
    ensures Pow(10, 497) == 100000000000000000000000000000000000000000000000000000000000000000000000000000000000000000000000000000000000000000000000000000000000000000000000000000000000000000000000000000000000000000000000000000000000000000000000000000000000000000000000000000000000000000000000000000000000000000000000000000000000000000000000000000000000000000000000000000000000000000000000000000000000000000000000000000000000000000000000000000000000000000000000000000000000000000000000000000000000000000000000000000000000000000
  {
    assert Pow(10, 1) == 10;
    Twice(10, 1, 10);
    Next(10, 2, 100);
    Twice(10, 3, 1000);
    Next(10, 6, 1000000);
    Twice(10, 7, 10000000);
    Next(10, 14, 100000000000000);
    Twice(10, 15, 1000000000000000);
    Next(10, 30, 1000000000000000000000000000000);
    Twice(10, 31, 10000000000000000000000000000000);
    Twice(10, 62, 100000000000000000000000000000000000000000000000000000000000000);
    Twice(10, 124, 10000000000000000000000000000000000000000000000000000000000000000000000000000000000000000000000000000000000000000000000000000);
    Twice(10, 248, 100000000000000000000000000000000000000000000000000000000000000000000000000000000000000000000000000000000000000000000000000000000000000000000000000000000000000000000000000000000000000000000000000000000000000000000000000000000000000000000000000000000);
    Next(10, 496, 10000000000000000000000000000000000000000000000000000000000000000000000000000000000000000000000000000000000000000000000000000000000000000000000000000000000000000000000000000000000000000000000000000000000000000000000000000000000000000000000000000000000000000000000000000000000000000000000000000000000000000000000000000000000000000000000000000000000000000000000000000000000000000000000000000000000000000000000000000000000000000000000000000000000000000000000000000000000000000000000000000000000000000);
  }

  const WORD: nat := 0x1_0000_0000_0000_0000

  /** 2^485 falls short of 10^146 by more than 146 parts in 2^64. */
  lemma LowerBracket()
    ensures Pow(2, 485) * WORD <= (WORD - 146) * Pow(10, 146)
  {
    TwoTo485();
    TenTo146();
  }

  /** 10^497 falls short of 2^1651 by more than 497 parts in 2^64. */
  lemma UpperBracket()
    ensures Pow(10, 497) * WORD <= (WORD - 497) * Pow(2, 1651)
  {
    TwoTo1651();
    TenTo497();
  }

  lemma TwoTo2136()
    ensures Pow(2, 2136) == 0x1000000000000000000000000000000000000000000000000000000000000000000000000000000000000000000000000000000000000000000000000000000000000000000000000000000000000000000000000000000000000000000000000000000000000000000000000000000000000000000000000000000000000000000000000000000000000000000000000000000000000000000000000000000000000000000000000000000000000000000000000000000000000000000000000000000000000000000000000000000000000000000000000000000000000000000000000000000000000000000000000000000000000000000000000000000000000000000000000000000
  {
    assert Pow(2, 1) == 2;
    Twice(2, 1, 0x2);
    Twice(2, 2, 0x4);
    Twice(2, 4, 0x10);
    Twice(2, 8, 0x100);
    Twice(2, 16, 0x10000);
    Next(2, 32, 0x100000000);
    Twice(2, 33, 0x200000000);
    Twice(2, 66, 0x40000000000000000);
    Next(2, 132, 0x1000000000000000000000000000000000);
    Twice(2, 133, 0x2000000000000000000000000000000000);
    Next(2, 266, 0x4000000000000000000000000000000000000000000000000000000000000000000);
    Twice(2, 267, 0x8000000000000000000000000000000000000000000000000000000000000000000);
    Twice(2, 534, 0x40000000000000000000000000000000000000000000000000000000000000000000000000000000000000000000000000000000000000000000000000000000000000);
    Twice(2, 1068, 0x1000000000000000000000000000000000000000000000000000000000000000000000000000000000000000000000000000000000000000000000000000000000000000000000000000000000000000000000000000000000000000000000000000000000000000000000000000000000000000000000000000000000000000000000000000);
  }

  lemma TenToThe643()
    ensures Pow(10, 643) == 10000000000000000000000000000000000000000000000000000000000000000000000000000000000000000000000000000000000000000000000000000000000000000000000000000000000000000000000000000000000000000000000000000000000000000000000000000000000000000000000000000000000000000000000000000000000000000000000000000000000000000000000000000000000000000000000000000000000000000000000000000000000000000000000000000000000000000000000000000000000000000000000000000000000000000000000000000000000000000000000000000000000000000000000000000000000000000000000000000000000000000000000000000000000000000000000000000000000000000000000000000000000000000000000000000000000000000000
  {
    assert Pow(10, 1) == 10;
    Twice(10, 1, 10);
    Twice(10, 2, 100);
    Next(10, 4, 10000);
    Twice(10, 5, 100000);
    Twice(10, 10, 10000000000);
    Twice(10, 20, 100000000000000000000);
    Twice(10, 40, 10000000000000000000000000000000000000000);
    Twice(10, 80, 100000000000000000000000000000000000000000000000000000000000000000000000000000000);
    Twice(10, 160, 10000000000000000000000000000000000000000000000000000000000000000000000000000000000000000000000000000000000000000000000000000000000000000000000000000000000000000);
    Next(10, 320, 100000000000000000000000000000000000000000000000000000000000000000000000000000000000000000000000000000000000000000000000000000000000000000000000000000000000000000000000000000000000000000000000000000000000000000000000000000000000000000000000000000000000000000000000000000000000000000000000000000000000000000000000000000000);
    Twice(10, 321, 1000000000000000000000000000000000000000000000000000000000000000000000000000000000000000000000000000000000000000000000000000000000000000000000000000000000000000000000000000000000000000000000000000000000000000000000000000000000000000000000000000000000000000000000000000000000000000000000000000000000000000000000000000000000);
    Next(10, 642, 1000000000000000000000000000000000000000000000000000000000000000000000000000000000000000000000000000000000000000000000000000000000000000000000000000000000000000000000000000000000000000000000000000000000000000000000000000000000000000000000000000000000000000000000000000000000000000000000000000000000000000000000000000000000000000000000000000000000000000000000000000000000000000000000000000000000000000000000000000000000000000000000000000000000000000000000000000000000000000000000000000000000000000000000000000000000000000000000000000000000000000000000000000000000000000000000000000000000000000000000000000000000000000000000000000000000000000000);
  }

  /** The next convergent of the logarithm, 2136/643, lies on the other side. */
  lemma TenTo643()
    ensures Pow(10, 643) < Pow(2, 2136)
  {
    TwoTo2136();
    TenToThe643();
  }
}
