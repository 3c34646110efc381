/** The halving subsidy adds up to a fixed cap (src/blockchain.c). */
module Supply {
  import opened Bytes
  import opened Ledger

  /** What heights 0 to n are paid when the first era pays v a block. */
  function PaidSum(v: nat, n: nat): (s: nat) {
    if n == 0 then v else PaidSum(v, n - 1) + Halved(v, n / HALVING)
  }

  /** The subsidies of heights 0 to n. */
  function SubsidySum(n: nat): (s: nat) {
    PaidSum(5_000_000_000, n)
  }

  lemma SubsidySumStep(n: nat)
    ensures SubsidySum(0) == Subsidy(0) && SubsidySum(n + 1) == SubsidySum(n) + Subsidy(n + 1)
  {
  }

  function PowerOfTwo(k: nat): (n: nat) {
    if k == 0 then 1 else 2 * PowerOfTwo(k - 1)
  }

  lemma {:induction false} HalvedExactly(v: nat, k: nat)
    ensures Halved(v, k) * PowerOfTwo(k) <= v < (Halved(v, k) + 1) * PowerOfTwo(k)
  {
    if k > 0 {
      HalvedExactly(v / 2, k - 1);
      DoubledBounds(Halved(v, k), PowerOfTwo(k - 1), v);
    }
  }

  lemma DoubledBounds(h: nat, p: nat, v: nat)
    requires h * p <= v / 2 < (h + 1) * p
    ensures h * (2 * p) <= v < (h + 1) * (2 * p)
  {
    assert h * (2 * p) == 2 * (h * p);
    assert (h + 1) * (2 * p) == 2 * ((h + 1) * p);
  }

  /** A block at height h is paid fifty coins divided by two to the number of eras of 210000 blocks before it, rounded down. */
  lemma SubsidyExactly(h: nat)
    ensures Subsidy(h) * PowerOfTwo(h / 210000) <= 5_000_000_000 < (Subsidy(h) + 1) * PowerOfTwo(h / 210000)
  {
    HalvedExactly(5_000_000_000, h / 210000);
  }

  /** v, half of v, a quarter, ... for e terms, each rounded down. */
  function HalvingSum(v: nat, e: nat): (s: nat) {
    if e == 0 then 0 else v + HalvingSum(v / 2, e - 1)
  }

  function Ones(v: nat): (n: nat) {
    if v == 0 then 0 else v % 2 + Ones(v / 2)
  }

  /** However long it goes on, halving loses one unit for each binary one. */
  lemma {:induction false} HalvingSumBound(v: nat, e: nat)
    ensures HalvingSum(v, e) <= 2 * v - Ones(v)
    decreases v, e
  {
    if v == 0 {
      HalvingSumOfZero(e);
    } else if e == 0 {
      OnesBound(v);
    } else {
      HalvingSumBound(v / 2, e - 1);
    }
  }

  lemma {:induction false} HalvingSumOfZero(e: nat)
    ensures HalvingSum(0, e) == 0
  {
    if e > 0 {
      HalvingSumOfZero(e - 1);
    }
  }

  lemma {:induction false} OnesBound(v: nat)
    ensures Ones(v) <= v
  {
    if v > 0 {
      OnesBound(v / 2);
    }
  }

  lemma {:induction false} HalvingSumSnoc(v: nat, e: nat)
    ensures HalvingSum(v, e + 1) == HalvingSum(v, e) + Halved(v, e)
  {
    if e > 0 {
      HalvingSumSnoc(v / 2, e - 1);
    }
  }

  /** The total paid by the k-th block of an era: the full eras of 210000 blocks before it, and its own so far. */
  lemma {:induction false} PaidSumByEras(v: nat, e: nat, k: nat)
    requires k < 210000
    ensures PaidSum(v, 210000 * e + k) == 210000 * HalvingSum(v, e) + (k + 1) * Halved(v, e)
    decreases e, k
  {
    assert (210000 * e + k) / HALVING == e;
    if k > 0 {
      PaidSumByEras(v, e, k - 1);
      OneMore(k, Halved(v, e));
    } else if e > 0 {
      PaidSumByEras(v, e - 1, 209999);
      HalvingSumSnoc(v, e - 1);
    }
  }

  lemma OneMore(k: int, v: int)
    ensures (k + 1) * v == k * v + v
  {
  }

  lemma OnesOfCoinbase()
    ensures Ones(5_000_000_000) == 11
  {
    assert Ones(1) == 1;
    assert Ones(4) == 1;
    assert Ones(18) == 2;
    assert Ones(74) == 3;
    assert Ones(298) == 4;
    assert Ones(1_192) == 4;
    assert Ones(4_768) == 4;
    assert Ones(19_073) == 5;
    assert Ones(76_293) == 6;
    assert Ones(305_175) == 8;
    assert Ones(1_220_703) == 10;
    assert Ones(4_882_812) == 10;
    assert Ones(19_531_250) == 11;
    assert Ones(78_125_000) == 11;
    assert Ones(312_500_000) == 11;
    assert Ones(1_250_000_000) == 11;
  }

  const SUPPLY_CAP := 2_099_999_997_690_000

  lemma PaidCap(v: nat, n: nat)
    ensures PaidSum(v, n) <= 210000 * (2 * v - Ones(v))
  {
    var e, k := n / 210000, n % 210000;
    PaidSumByEras(v, e, k);
    HalvingSumSnoc(v, e);
    HalvingSumBound(v, e + 1);
    LessThanEra(k + 1, Halved(v, e));
  }

  lemma LessThanEra(k: nat, v: nat)
    requires k <= 210000
    ensures k * v <= 210000 * v
  {
  }

  /** No chain, of any length, is paid more than the cap. */
  lemma SubsidyCap(n: nat)
    ensures SubsidySum(n) <= SUPPLY_CAP
  {
    PaidCap(5_000_000_000, n);
    OnesOfCoinbase();
  }

  lemma FirstEras()
    ensures HalvingSum(5_000_000_000, 33) == 9_999_999_989 && Halved(5_000_000_000, 33) == 0
  {
    assert HalvingSum(1, 1) == 1 && Halved(1, 1) == 0;
    assert HalvingSum(4, 3) == 7 && Halved(4, 3) == 0;
    assert HalvingSum(18, 5) == 34 && Halved(18, 5) == 0;
    assert HalvingSum(74, 7) == 145 && Halved(74, 7) == 0;
    assert HalvingSum(298, 9) == 592 && Halved(298, 9) == 0;
    assert HalvingSum(1_192, 11) == 2_380 && Halved(1_192, 11) == 0;
    assert HalvingSum(4_768, 13) == 9_532 && Halved(4_768, 13) == 0;
    assert HalvingSum(19_073, 15) == 38_141 && Halved(19_073, 15) == 0;
    assert HalvingSum(76_293, 17) == 152_580 && Halved(76_293, 17) == 0;
    assert HalvingSum(305_175, 19) == 610_342 && Halved(305_175, 19) == 0;
    assert HalvingSum(1_220_703, 21) == 2_441_396 && Halved(1_220_703, 21) == 0;
    assert HalvingSum(4_882_812, 23) == 9_765_614 && Halved(4_882_812, 23) == 0;
    assert HalvingSum(19_531_250, 25) == 39_062_489 && Halved(19_531_250, 25) == 0;
    assert HalvingSum(78_125_000, 27) == 156_249_989 && Halved(78_125_000, 27) == 0;
    assert HalvingSum(312_500_000, 29) == 624_999_989 && Halved(312_500_000, 29) == 0;
    assert HalvingSum(1_250_000_000, 31) == 2_499_999_989 && Halved(1_250_000_000, 31) == 0;
    assert HalvingSum(5_000_000_000, 33) == 9_999_999_989 && Halved(5_000_000_000, 33) == 0;
  }

  lemma {:induction false} NothingMore(v: nat, a: nat, e: nat)
    requires Halved(v, a) == 0 && e >= a
    ensures HalvingSum(v, e) == HalvingSum(v, a) && Halved(v, e) == 0
  {
    if e > a {
      NothingMore(v, a, e - 1);
      HalvingSumSnoc(v, e - 1);
      HalvedNext(v, e - 1);
    }
  }

  lemma {:induction false} HalvedNext(v: nat, k: nat)
    ensures Halved(v, k + 1) == Halved(v, k) / 2
  {
    if k > 0 {
      HalvedNext(v / 2, k - 1);
    }
  }

  lemma PaidInAll(v: nat, eras: nat, n: nat)
    requires Halved(v, eras) == 0 && n >= eras * 210000 - 1 && eras > 0
    ensures PaidSum(v, n) == 210000 * HalvingSum(v, eras)
  {
    var e, k := n / 210000, n % 210000;
    PaidSumByEras(v, e, k);
    if e >= eras {
      NothingMore(v, eras, e);
    } else {
      assert e == eras - 1 && k == 209999;
      HalvingSumSnoc(v, e);
    }
  }

  /** The cap is what is paid in all: from the last block of the 33rd era on the subsidies add up to it exactly. */
  lemma CapReached(n: nat)
    requires n >= 33 * 210000 - 1
    ensures SubsidySum(n) == SUPPLY_CAP
  {
    FirstEras();
    PaidInAll(5_000_000_000, 33, n);
  }
}
