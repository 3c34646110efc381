/** Compact targets and retargeting (src/blockchain.c, src/messages/block.c). */
module Target {
  import opened Bytes
  import opened Numerals

  type Compact = uint32

  // ----- a compact's three readings -----

  function SizeOf(c: Compact): (n: nat) {
    c / 0x100_0000
  }

  function Mantissa(c: Compact): (m: nat) {
    c % 0x100_0000
  }

  function MantissaBytes(c: Compact): (b: seq<byte>)
    ensures |b| == 3
  {
    [c / 0x1_0000 % 256, c / 256 % 256, c % 256]
  }

  function Zeros(n: nat): (z: seq<byte>)
    ensures |z| == n && forall i :: 0 <= i < n ==> z[i] == 0
  {
    if n == 0 then [] else [0] + Zeros(n - 1)
  }

  /** The MPI body target_compact_to_bignum builds: the first bytes of the mantissa, then zeros, `size` in all. */
  function Body(c: Compact): (b: seq<byte>)
    ensures |b| == SizeOf(c)
  {
    (MantissaBytes(c) + Zeros(SizeOf(c)))[..SizeOf(c)]
  }

  /** BN_mpi2bn: the top bit of the first byte is the sign. */
  function FromMpi(b: seq<byte>): (n: int) {
    if b == [] || b[0] < 128 then FromBE(b) else 0 - FromBE([b[0] - 128] + b[1..]) as int
  }

  function ToBignum(c: Compact): (n: int)
    ensures SignClear(c) ==> n >= 0
  {
    TopMantissaByte(c);
    FromMpi(Body(c))
  }

  lemma TopMantissaByte(c: uint32)
    ensures c % 0x100_0000 < 0x80_0000 <==> c / 0x1_0000 % 256 < 128
  {
    assert c % 0x100_0000 == 0x1_0000 * (c / 0x1_0000 % 256) + c % 0x1_0000;
  }

  /** target_bignum_to_compact of a number that is not negative: the width and the first three bytes of its MPI body. */
  function FromBignum(n: nat): (c: Compact)
    requires |Numeral(n)| <= 60
  {
    var b := Numeral(n);
    |b| * 0x100_0000 + Lead(b, 0) * 0x1_0000 + Lead(b, 1) * 0x100 + Lead(b, 2)
  }

  function Lead(b: seq<byte>, i: nat): (n: nat)
    ensures n < 256
  {
    if i < |b| then b[i] else 0
  }

  /** target_compact_to_float, as an exact real; below size 3 the exponent underflows and the double is infinite. */
  function ToReal(c: Compact): (x: real)
    requires SizeOf(c) >= 3
  {
    Shift(Mantissa(c), SizeOf(c) - 3) as real
  }

  /** m * 256^k. */
  function Shift(m: nat, k: nat): (n: nat) {
    if k == 0 then m else 256 * Shift(m, k - 1)
  }

  lemma {:induction false} ShiftIsProduct(m: nat, k: nat)
    ensures Shift(m, k) == m * Pow256(k)
  {
    if k > 0 {
      ShiftIsProduct(m, k - 1);
      MulAssoc(256, m, Pow256(k - 1));
      MulAssoc(m, 256, Pow256(k - 1));
    }
  }

  /** target_4to32: the three mantissa bytes, little-endian, at offset size - 3 of 32 zero bytes. */
  function Expanded(c: Compact): (b: seq<byte>)
    requires 3 <= SizeOf(c) <= 32
    ensures |b| == 32
  {
    Zeros(SizeOf(c) - 3) + Reversed(MantissaBytes(c)) + Zeros(32 - SizeOf(c))
  }

  predicate SignClear(c: Compact) {
    Mantissa(c) < 0x80_0000
  }

  // ----- the readings agree -----

  lemma MantissaValue(c: Compact)
    ensures FromBE(MantissaBytes(c)) == Mantissa(c)
    ensures SignClear(c) <==> MantissaBytes(c)[0] < 128
  {
    ThreeDigits(c / 0x1_0000 % 256, c / 256 % 256, c % 256);
    MantissaDigits(c);
  }

  lemma ThreeDigits(x: byte, y: byte, z: byte)
    ensures FromBE([x, y, z]) == x as int * 0x1_0000 + y as int * 0x100 + z
  {
    assert [x, y, z][1..] == [y, z] && [y, z][1..] == [z];
    SingleDigit(z);
    Pow256Values();
  }

  lemma MantissaDigits(c: uint32)
    ensures c % 0x100_0000 == c / 0x1_0000 % 256 * 0x1_0000 + c / 256 % 256 * 0x100 + c % 256
  {
    var a, b := c / 256, c / 0x1_0000;
    assert b == a / 256 && c / 0x100_0000 == b / 256;
  }

  lemma {:induction false} ZerosValue(n: nat)
    ensures FromBE(Zeros(n)) == 0 && FromLE(Zeros(n)) == 0
  {
    if n > 0 {
      ZerosValue(n - 1);
      assert Zeros(n)[1..] == Zeros(n - 1);
    }
  }

  lemma BodyOfThree(c: Compact)
    requires SizeOf(c) >= 3
    ensures Body(c) == MantissaBytes(c) + Zeros(SizeOf(c) - 3)
  {
  }

  /** From size 3 up, a sign-clear compact is its mantissa shifted. */
  lemma ToBignumValue(c: Compact)
    requires SizeOf(c) >= 3 && SignClear(c)
    ensures ToBignum(c) == Shift(Mantissa(c), SizeOf(c) - 3)
  {
    ShiftIsProduct(Mantissa(c), SizeOf(c) - 3);
    BodyOfThree(c);
    MantissaValue(c);
    ZerosValue(SizeOf(c) - 3);
    FromBEConcat(MantissaBytes(c), Zeros(SizeOf(c) - 3));
  }

  lemma ExpandedValue(c: Compact)
    requires 3 <= SizeOf(c) <= 32
    ensures FromLE(Expanded(c)) == Shift(Mantissa(c), SizeOf(c) - 3)
  {
    ReversedNumeral(MantissaBytes(c));
    MantissaValue(c);
    PaddedValue(SizeOf(c) - 3, Reversed(MantissaBytes(c)), 32 - SizeOf(c));
  }

  lemma PaddedValue(i: nat, s: seq<byte>, k: nat)
    ensures FromLE(Zeros(i) + s + Zeros(k)) == Shift(FromLE(s), i)
  {
    var p := Zeros(i) + s;
    assert FromLE(p + Zeros(k)) == FromLE(p) by {
      FromLEConcat(p, Zeros(k));
      ZerosValue(k);
    }
    assert FromLE(p) == Pow256(i) * FromLE(s) by {
      FromLEConcat(Zeros(i), s);
      ZerosValue(i);
    }
    ShiftIsProduct(FromLE(s), i);
    MulCommutes(FromLE(s), Pow256(i));
  }

  /** The big number, the exact double and the 32 expanded bytes are one value. */
  lemma ReadingsAgree(c: Compact)
    requires 3 <= SizeOf(c) <= 32 && SignClear(c)
    ensures ToBignum(c) == FromLE(Expanded(c))
    ensures ToBignum(c) as real == ToReal(c)
  {
    ToBignumValue(c);
    ExpandedValue(c);
  }

  // ----- encoding and decoding -----

  /** What a number becomes when it is stored as a compact and read back. */
  function Stored(n: nat): (t: int)
    requires |Numeral(n)| <= 60
  {
    ToBignum(FromBignum(n))
  }

  /** The first three bytes of a numeral, and zeros. */
  function Truncated(b: seq<byte>): (t: seq<byte>)
    ensures |t| == |b|
  {
    if |b| <= 3 then b else b[..3] + Zeros(|b| - 3)
  }

  lemma TruncatedMinimal(b: seq<byte>)
    requires Minimal(b)
    ensures Minimal(Truncated(b)) && Truncated(Truncated(b)) == Truncated(b)
  {
    if |b| > 3 {
      assert Truncated(b)[0] == b[0] && Truncated(b)[1] == b[1];
      assert (b[..3] + Zeros(|b| - 3))[..3] == b[..3];
    }
  }

  lemma FieldsOf(size: byte, x: byte, y: byte, z: byte)
    ensures var c: nat := (size as int) * 0x100_0000 + (x as int) * 0x1_0000 + (y as int) * 0x100 + z;
            c < 0x1_0000_0000 && SizeOf(c) == size && MantissaBytes(c) == [x, y, z]
  {
    var c: nat := (size as int) * 0x100_0000 + (x as int) * 0x1_0000 + (y as int) * 0x100 + z;
    assert c / 0x1_0000 == 256 * (size as int) + x;
    assert c / 256 == 0x1_0000 * (size as int) + 256 * (x as int) + y;
  }

  /** A stored number is its numeral, truncated. */
  lemma StoredIsTruncated(n: nat)
    requires |Numeral(n)| <= 60
    ensures Body(FromBignum(n)) == Truncated(Numeral(n))
    ensures Stored(n) == FromBE(Truncated(Numeral(n)))
  {
    var b := Numeral(n);
    FieldsOf(|b|, Lead(b, 0), Lead(b, 1), Lead(b, 2));
    TruncatedMinimal(b);
  }

  /** Storing loses less than one part in 2^15, and never rounds up. */
  lemma StoredBounds(n: nat)
    requires |Numeral(n)| <= 60
    ensures 0 <= Stored(n) <= n
    ensures n > 0 ==> Stored(n) > 0 && 0x8000 * n < 0x8001 * Stored(n)
  {
    var b := Numeral(n);
    StoredIsTruncated(n);
    TruncatedMinimal(b);
    if |b| > 3 {
      var head, tail := b[..3], b[3..];
      assert b == head + tail;
      FromBEConcat(head, tail);
      FromBEConcat(head, Zeros(|b| - 3));
      ZerosValue(|b| - 3);
      FromBEBound(tail);
      LeadIsLarge(head);
      MulMonotone(0x8000, FromBE(head), Pow256(|b| - 3));
    }
  }

  /** The first three bytes of a wide minimal numeral are at least 0x8000. */
  lemma LeadIsLarge(head: seq<byte>)
    requires |head| == 3 && Minimal(head)
    ensures FromBE(head) >= 0x8000
  {
    MinimalWidth(head);
    assert Pow256(2) == 65536;
  }

  lemma StoredIdempotent(n: nat)
    requires |Numeral(n)| <= 60
    ensures 0 <= Stored(n) && Numeral(Stored(n)) == Truncated(Numeral(n))
    ensures FromBignum(Stored(n)) == FromBignum(n)
  {
    var b := Numeral(n);
    StoredIsTruncated(n);
    TruncatedMinimal(b);
    MinimalUnique(Numeral(Stored(n)), Truncated(b));
    assert forall i :: 0 <= i < 3 ==> Lead(Truncated(b), i) == Lead(b, i);
  }

  lemma StoredMonotone(m: nat, n: nat)
    requires m <= n && |Numeral(n)| <= 60
    ensures |Numeral(m)| <= 60 && Stored(m) <= Stored(n)
  {
    NumeralWidthMonotone(m, n);
    var a, b := Numeral(m), Numeral(n);
    StoredIsTruncated(m);
    StoredIsTruncated(n);
    if |a| < |b| {
      StoredBounds(m);
      NarrowerIsBelow(a, b);
    } else if |b| > 3 {
      TruncatedOrder(a, b);
    }
  }

  lemma NarrowerIsBelow(a: seq<byte>, b: seq<byte>)
    requires Minimal(a) && Minimal(b) && |a| < |b|
    ensures FromBE(a) <= FromBE(Truncated(b))
  {
    TruncatedMinimal(b);
    MinimalWidth(a);
    MinimalWidth(Truncated(b));
    WidthOrder(|a|, |b|);
  }

  lemma TruncatedOrder(a: seq<byte>, b: seq<byte>)
    requires |a| == |b| && |b| > 3 && FromBE(a) <= FromBE(b)
    ensures FromBE(Truncated(a)) <= FromBE(Truncated(b))
  {
    var k := |b| - 3;
    assert a == a[..3] + a[3..] && b == b[..3] + b[3..];
    FromBEConcat(a[..3], a[3..]);
    FromBEConcat(b[..3], b[3..]);
    FromBEConcat(a[..3], Zeros(k));
    FromBEConcat(b[..3], Zeros(k));
    ZerosValue(k);
    FromBEBound(b[3..]);
    FromBEBound(a[3..]);
    if FromBE(a[..3]) > FromBE(b[..3]) {
      LeadingDigit(FromBE(b[..3]), FromBE(a[..3]), Pow256(k), FromBE(b[3..]), FromBE(a[3..]));
    } else {
      MulMonotone(FromBE(a[..3]), FromBE(b[..3]), Pow256(k));
    }
  }

  /** The stored value is the greatest storable number that is not above the original. */
  lemma StoredIsGreatest(n: nat, u: nat)
    requires u <= n && |Numeral(n)| <= 60
    ensures |Numeral(u)| <= 60 && (Stored(u) == u ==> u <= Stored(n))
  {
    StoredMonotone(u, n);
  }

  /** A compact that encoding produces: minimal, not negative, and no mantissa bits beyond its size. */
  predicate Canonical(c: Compact) {
    && SizeOf(c) <= 60 && Minimal(Body(c))
    && (SizeOf(c) < 3 ==> MantissaBytes(c)[2] == 0)
    && (SizeOf(c) < 2 ==> MantissaBytes(c)[1] == 0)
    && (SizeOf(c) < 1 ==> MantissaBytes(c)[0] == 0)
  }

  /** Decoding then encoding gives a compact back exactly when it is canonical. */
  lemma CompactRoundTrip(c: Compact)
    requires SizeOf(c) <= 60 && 0 <= ToBignum(c)
    ensures |Numeral(ToBignum(c))| <= 60
    ensures FromBignum(ToBignum(c)) == c <==> Canonical(c)
  {
    var n := ToBignum(c);
    BodyBound(c);
    var b := Numeral(n);
    FieldsOf(|b|, Lead(b, 0), Lead(b, 1), Lead(b, 2));
    if Canonical(c) {
      MinimalUnique(b, Body(c));
      var m := MantissaBytes(c);
      SameFields(c, FromBignum(n));
    }
    if FromBignum(n) == c {
      StoredIsTruncated(n);
      TruncatedMinimal(b);
    }
  }

  lemma BodyBound(c: Compact)
    requires SizeOf(c) <= 60 && 0 <= ToBignum(c)
    ensures |Numeral(ToBignum(c))| <= 60
  {
    var b, n := Body(c), ToBignum(c);
    if b != [] && b[0] < 128 {
      FromBEBound(b[1..]);
      MulMonotone(b[0], 127, Pow256(|b| - 1));
      if |Numeral(n)| > |b| {
        MinimalWidth(Numeral(n));
        WidthOrder(|b|, |Numeral(n)|);
      }
    }
  }

  lemma SameFields(c: Compact, d: Compact)
    requires SizeOf(c) == SizeOf(d) && MantissaBytes(c) == MantissaBytes(d)
    ensures c == d
  {
    MantissaValue(c);
    MantissaValue(d);
  }

  // ----- comparing a hash with a target -----

  /** target_4to32 fills the array. */
  method Expand(c: Compact, bytes: array<byte>)
    requires bytes.Length == 32 && 3 <= SizeOf(c) <= 32
    modifies bytes
    ensures bytes[..] == Expanded(c)
  {
    var offset := SizeOf(c) - 3;
    forall i | 0 <= i < 32 {
      bytes[i] := 0;
    }
    var m := Reversed(MantissaBytes(c));
    bytes[offset], bytes[offset + 1], bytes[offset + 2] := m[0], m[1], m[2];
    assert bytes[..offset] == Zeros(offset);
    assert bytes[offset..offset + 3] == m;
    assert bytes[offset + 3..] == Zeros(29 - offset);
    assert bytes[..] == bytes[..offset] + bytes[offset..offset + 3] + bytes[offset + 3..];
  }

  /** hash_satisfies_target_compact: the comparison that never looks at byte 0. */
  predicate Satisfies(hash: Hash, c: Compact)
    requires 3 <= SizeOf(c) <= 32
  {
    FromLE(hash) / 256 <= FromLE(Expanded(c)) / 256
  }

  method HashSatisfiesTarget(hash: Hash, c: Compact) returns (ok: bool)
    requires 3 <= SizeOf(c) <= 32
    ensures ok == Satisfies(hash, c)
  {
    var expanded := new byte[32](_ => 0);
    Expand(c, expanded);
    var order := Bytescmp(hash, expanded[..], 32);
    ok := order <= 0;
  }

  lemma ZeroSatisfies(hash: Hash, c: Compact)
    requires 3 <= SizeOf(c) <= 32 && FromLE(hash) == 0
    ensures Satisfies(hash, c)
  {
  }

  /** The decision is the comparison of whole numbers except when only the lowest byte exceeds the target's. */
  lemma SatisfiesExactly(hash: Hash, c: Compact)
    requires 3 <= SizeOf(c) <= 32 && SignClear(c)
    ensures (Satisfies(hash, c) <==> FromLE(hash) <= ToBignum(c))
       <==> !(hash[1..] == Expanded(c)[1..] && hash[0] > Expanded(c)[0])
  {
    assert ToBignum(c) == FromLE(Expanded(c)) by { ReadingsAgree(c); }
    LowestByteDecides(hash, Expanded(c));
  }

  lemma LowestByteDecides(a: seq<byte>, e: seq<byte>)
    requires |a| == |e| > 0
    ensures (FromLE(a) / 256 <= FromLE(e) / 256 <==> FromLE(a) <= FromLE(e))
       <==> !(a[1..] == e[1..] && a[0] > e[0])
  {
    FromLEInjective(a[1..], e[1..]);
    assert FromLE(a) / 256 == FromLE(a[1..]) && FromLE(e) / 256 == FromLE(e[1..]);
  }

  /** A hash of one above a zero target passes: only byte 0 differs. */
  lemma LowestByteIgnored()
    ensures var c: Compact := 0x0300_0000;
            var one: Hash := [1] + seq(31, _ => 0);
            Satisfies(one, c) && FromLE(one) > ToBignum(c)
  {
    var c: Compact := 0x0300_0000;
    var one: Hash := [1] + seq(31, _ => 0);
    assert one[1..] == seq(31, _ => 0);
    FromLEOfZeros(31);
    ToBignumValue(c);
    ExpandedValue(c);
  }

  // ----- retargeting -----

  const DESIRED_PERIOD := 1209600
  const RETARGET_BOUND := 4

  /** The integer branch of get_maximal_target; the product with the bound is computed in 32 bits. */
  function Scaled(prior: nat, period: uint32): (n: nat) {
    if period > DESIRED_PERIOD * RETARGET_BOUND then prior * RETARGET_BOUND
    else if (period * RETARGET_BOUND) % 0x1_0000_0000 < DESIRED_PERIOD then prior / RETARGET_BOUND
    else prior * period / DESIRED_PERIOD
  }

  predicate OverLimit(current: real, period: uint32, limit: real) {
    current * (period as real / DESIRED_PERIOD as real) > limit
  }

  predicate Ceiling(oldTarget: Compact, genesisTarget: Compact, period: uint32)
    requires SizeOf(oldTarget) >= 3 && SizeOf(genesisTarget) >= 3
  {
    OverLimit(ToReal(oldTarget), period, ToReal(genesisTarget))
  }

  /** A compact that a retarget can start from: not negative, and at most the genesis target, which fits 32 bytes. */
  predicate Retargetable(oldTarget: Compact, genesisTarget: Compact) {
    && 3 <= SizeOf(oldTarget) <= 32 && 3 <= SizeOf(genesisTarget) <= 32
    && SignClear(oldTarget) && SignClear(genesisTarget)
    && ToBignum(oldTarget) <= ToBignum(genesisTarget)
  }

  lemma ScaledFits(oldTarget: Compact, period: uint32)
    requires 3 <= SizeOf(oldTarget) <= 32 && SignClear(oldTarget)
    ensures ToBignum(oldTarget) >= 0
    ensures |Numeral(Scaled(ToBignum(oldTarget), period))| <= 60
  {
    TargetBound(oldTarget);
    var prior := ToBignum(oldTarget);
    ScaledBelow(prior, period);
    MulMonotone(prior, Pow256(32), 0x1_0000_0000);
    Pow256Add(32, 4);
    Pow256Values();
    NumeralWidthBound(Scaled(prior, period), 36);
  }

  lemma TargetBound(c: Compact)
    requires 3 <= SizeOf(c) <= 32 && SignClear(c)
    ensures 0 <= ToBignum(c) < Pow256(32)
  {
    ToBignumValue(c);
    ShiftBound(Mantissa(c), SizeOf(c) - 3);
  }

  lemma ShiftBound(m: nat, k: nat)
    requires m < 0x100_0000 && k <= 29
    ensures Shift(m, k) < Pow256(32)
  {
    ShiftIsProduct(m, k);
    Pow256Values();
    LeadingDigit(m, Pow256(3), Pow256(k), 0, 0);
    Pow256Add(3, k);
    WidthOrder(k + 3, 33);
  }

  lemma ScaledBelow(prior: nat, period: uint32)
    ensures Scaled(prior, period) <= prior * 0x1_0000_0000
    ensures prior > 0 ==> Scaled(prior, period) < prior * 0x1_0000_0000
  {
    MulMonotone(period, 0xFFFF_FFFF, prior);
    MulCommutes(period, prior);
  }

  /** The new target of get_maximal_target at a retarget height. */
  function NewTarget(oldTarget: Compact, genesisTarget: Compact, period: uint32): (c: Compact)
    requires 3 <= SizeOf(oldTarget) <= 32 && SignClear(oldTarget) && SizeOf(genesisTarget) >= 3
  {
    if Ceiling(oldTarget, genesisTarget, period) then genesisTarget
    else
      ScaledFits(oldTarget, period);
      FromBignum(Scaled(ToBignum(oldTarget), period))
  }

  /** The tail of get_maximal_target: the period is a difference of 32-bit timestamps, the big number is scaled in place. */
  method Retarget(oldTarget: Compact, genesisTarget: Compact, startTime: uint32, endTime: uint32) returns (result: Compact)
    requires 3 <= SizeOf(oldTarget) <= 32 && SignClear(oldTarget) && SizeOf(genesisTarget) >= 3
    ensures result == NewTarget(oldTarget, genesisTarget, (endTime - startTime) % 0x1_0000_0000)
  {
    var actualPeriod: uint32 := (endTime - startTime) % 0x1_0000_0000;
    if OverLimit(ToReal(oldTarget), actualPeriod, ToReal(genesisTarget)) {
      result := genesisTarget;
    } else {
      ScaledFits(oldTarget, actualPeriod);
      var newTarget: nat := ToBignum(oldTarget);
      if actualPeriod > DESIRED_PERIOD * RETARGET_BOUND {
        newTarget := newTarget * RETARGET_BOUND;
      } else if (actualPeriod * RETARGET_BOUND) % 0x1_0000_0000 < DESIRED_PERIOD {
        newTarget := newTarget / RETARGET_BOUND;
      } else {
        newTarget := newTarget * actualPeriod;
        newTarget := newTarget / DESIRED_PERIOD;
      }
      result := FromBignum(newTarget);
    }
  }

  /** Without the ceiling the scaled number is between a quarter of the old target and the smaller of four times it and the limit. */
  lemma ScaledBounds(oldTarget: Compact, genesisTarget: Compact, period: uint32)
    requires Retargetable(oldTarget, genesisTarget)
    ensures var prior := ToBignum(oldTarget);
            prior / 4 <= Scaled(prior, period) <= 4 * prior
            && (!Ceiling(oldTarget, genesisTarget, period) ==> Scaled(prior, period) <= ToBignum(genesisTarget))
  {
    var prior := ToBignum(oldTarget);
    ScaledRange(prior, period);
    ReadingsAgree(oldTarget);
    ReadingsAgree(genesisTarget);
    if !Ceiling(oldTarget, genesisTarget, period) {
      ScaledBelowCeiling(ToReal(oldTarget), ToReal(genesisTarget), prior, ToBignum(genesisTarget), period);
    }
  }

  lemma ScaledBelowCeiling(x: real, y: real, prior: nat, max: nat, period: uint32)
    requires x == prior as real && y == max as real && prior <= max
    requires !OverLimit(x, period, y)
    ensures Scaled(prior, period) <= max
  {
    OverLimitExactly(prior, period, max);
    ScaledByPeriod(prior, max, period);
  }

  /** The comparison of doubles is, over exact reals, one of products of integers. */
  lemma OverLimitExactly(a: int, period: uint32, b: int)
    ensures OverLimit(a as real, period, b as real) <==> a * period > b * DESIRED_PERIOD
  {
    var p, d := period as real, DESIRED_PERIOD as real;
    RealProduct(a, period);
    assert a as real * (p / d) * d == a as real * p;
    assert a as real * (p / d) > b as real <==> a as real * p > b as real * d;
  }

  lemma {:induction false} RealProduct(a: int, b: nat)
    ensures (a * b) as real == a as real * b as real
  {
    if b > 0 {
      RealProduct(a, b - 1);
      MulDistribute(a, b - 1, 1);
      assert a as real * b as real == a as real * (b - 1) as real + a as real;
    }
  }

  lemma ScaledByPeriod(prior: nat, max: nat, period: uint32)
    requires prior * period <= max * DESIRED_PERIOD && prior <= max
    ensures Scaled(prior, period) <= max
  {
    if period > DESIRED_PERIOD * RETARGET_BOUND {
      MulMonotone(DESIRED_PERIOD * RETARGET_BOUND, period, prior);
      MulCommutes(period, prior);
    }
  }

  lemma ScaledRange(prior: nat, period: uint32)
    ensures prior / 4 <= Scaled(prior, period) <= 4 * prior
  {
    if period <= DESIRED_PERIOD * RETARGET_BOUND && (period * RETARGET_BOUND) % 0x1_0000_0000 >= DESIRED_PERIOD {
      assert 4 * period >= DESIRED_PERIOD;
      MulMonotone(DESIRED_PERIOD, 4 * period, prior);
      MulMonotone(period, DESIRED_PERIOD * RETARGET_BOUND, prior);
      MulCommutes(period, prior);
    }
  }

  /**
   * A retarget stays within bounds for every period, including one whose fourfold overflows: the new target is at
   * most the limit, at least a quarter of the old one as stored, and at most four times it when the ceiling is not hit.
   */
  lemma RetargetBounds(oldTarget: Compact, genesisTarget: Compact, period: uint32)
    requires Retargetable(oldTarget, genesisTarget)
    ensures var prior, next, max := ToBignum(oldTarget), ToBignum(NewTarget(oldTarget, genesisTarget, period)), ToBignum(genesisTarget);
            && next <= max
            && |Numeral(prior / 4)| <= 60 && Stored(prior / 4) <= next
            && (!Ceiling(oldTarget, genesisTarget, period) ==> next <= 4 * prior)
  {
    var prior := ToBignum(oldTarget);
    ScaledFits(oldTarget, period);
    ScaledBounds(oldTarget, genesisTarget, period);
    StoredMonotone(prior / 4, Scaled(prior, period));
    StoredBounds(prior / 4);
    StoredBounds(Scaled(prior, period));
  }

  // ----- the exact law of retargeting -----

  /** A number some compact stands for. */
  ghost predicate Storable(t: int) {
    t >= 0 && exists c: Compact :: SizeOf(c) <= 60 && ToBignum(c) == t
  }

  /** `t` is the greatest storable number with t * den <= num. */
  ghost predicate GreatestStorable(t: int, num: nat, den: nat) {
    && Storable(t) && t * den <= num
    && forall u: nat :: Storable(u) && u * den <= num ==> u <= t
  }

  /** A numeral without a fourth significant byte is stored as it is, whatever leads it. */
  lemma {:induction false} TrimmedIsStored(b: seq<byte>)
    requires |b| <= 60 && (b == [] || b[0] < 128) && forall i :: 3 <= i < |b| ==> b[i] == 0
    ensures |Numeral(FromBE(b))| <= 60 && Truncated(Numeral(FromBE(b))) == Numeral(FromBE(b))
  {
    if Minimal(b) {
      MinimalUnique(Numeral(FromBE(b)), b);
      assert Truncated(b) == b;
    } else {
      assert b[0] == 0;
      TrimmedIsStored(b[1..]);
    }
  }

  lemma BodyIsTrimmed(c: Compact)
    ensures forall i :: 3 <= i < |Body(c)| ==> Body(c)[i] == 0
  {
  }

  lemma StorableIsStored(t: nat)
    ensures Storable(t) <==> |Numeral(t)| <= 60 && Stored(t) == t
  {
    if Storable(t) {
      var c: Compact :| SizeOf(c) <= 60 && ToBignum(c) == t;
      if t > 0 {
        BodyIsTrimmed(c);
        TrimmedIsStored(Body(c));
      }
      StoredIsTruncated(t);
    }
    if |Numeral(t)| <= 60 && Stored(t) == t {
      var b := Numeral(t);
      FieldsOf(|b|, Lead(b, 0), Lead(b, 1), Lead(b, 2));
      assert SizeOf(FromBignum(t)) <= 60;
    }
  }

  /** Storing a rounded quotient gives the greatest storable number below the exact one. */
  lemma StoredQuotient(s: nat, num: nat, den: nat)
    requires |Numeral(s)| <= 60 && s * den <= num < (s + 1) * den
    ensures GreatestStorable(Stored(s), num, den)
  {
    StoredBounds(s);
    StoredIdempotent(s);
    StorableIsStored(Stored(s));
    MulMonotone(Stored(s), s, den);
    forall u: nat | Storable(u) && u * den <= num
      ensures u <= Stored(s)
    {
      if u > s {
        MulMonotone(s + 1, u, den);
      }
      StorableIsStored(u);
      StoredIsGreatest(s, u);
    }
  }

  lemma Quotient(num: nat, den: nat)
    requires den > 0
    ensures num / den * den <= num < (num / den + 1) * den
  {
    MulCommutes(num / den, den);
    MulDistribute(den, num / den, 1);
    MulCommutes(num / den + 1, den);
  }

  /**
   * What a retarget answers, for every 32-bit period p and old target t: the genesis target when t * p / 1209600 is
   * above it, and otherwise the greatest storable number not above 4 * t when p is above 4838400, t / 4 when p is below
   * 302400, and t * p / 1209600 in between.
   */
  lemma RetargetExactly(oldTarget: Compact, genesisTarget: Compact, p: uint32)
    requires 3 <= SizeOf(oldTarget) <= 32 && SignClear(oldTarget) && SizeOf(genesisTarget) >= 3
    ensures var prior, max := ToBignum(oldTarget), Shift(Mantissa(genesisTarget), SizeOf(genesisTarget) - 3);
            var r := NewTarget(oldTarget, genesisTarget, p);
            && prior >= 0
            && (prior * p > max * 1209600 ==> r == genesisTarget)
            && (prior * p <= max * 1209600 ==> Canonical(r))
            && (prior * p <= max * 1209600 && p > 4838400 ==> GreatestStorable(ToBignum(r), 4 * prior, 1))
            && (prior * p <= max * 1209600 && p < 302400 ==> GreatestStorable(ToBignum(r), prior, 4))
            && (prior * p <= max * 1209600 && 302400 <= p <= 4838400 ==> GreatestStorable(ToBignum(r), prior * p, 1209600))
  {
    ToBignumValue(oldTarget);
    var prior: nat := ToBignum(oldTarget);
    OverLimitExactly(prior, p, Shift(Mantissa(genesisTarget), SizeOf(genesisTarget) - 3));
    ScaledFits(oldTarget, p);
    ScaledCases(prior, p);
    EncodedIsCanonical(Scaled(prior, p));
    if p > 4838400 {
      StoredQuotient(Scaled(prior, p), 4 * prior, 1);
    } else if p < 302400 {
      Quotient(prior, 4);
      StoredQuotient(Scaled(prior, p), prior, 4);
    } else {
      Quotient(prior * p, 1209600);
      StoredQuotient(Scaled(prior, p), prior * p, 1209600);
    }
  }

  lemma EncodedIsCanonical(n: nat)
    requires |Numeral(n)| <= 60
    ensures Canonical(FromBignum(n))
  {
    var b := Numeral(n);
    FieldsOf(|b|, Lead(b, 0), Lead(b, 1), Lead(b, 2));
    StoredIdempotent(n);
    CompactRoundTrip(FromBignum(n));
  }

  lemma ScaledCases(prior: nat, p: uint32)
    ensures Scaled(prior, p) == if p > 4838400 then 4 * prior else if p < 302400 then prior / 4 else prior * p / 1209600
  {
  }

  /**
   * The second test of the source compares the fourfold period in 32 bits. It is true although the exact fourfold is
   * not below 1209600 for the periods from 2^30 on that a multiple of 2^30 exceeds by less than 302400; the first test
   * has taken all of those.
   */
  lemma WrappedTestExactly(p: uint32)
    ensures p * 4 % 0x1_0000_0000 < 1209600 && p * 4 >= 1209600 <==> p >= 0x4000_0000 && p % 0x4000_0000 < 302400
    ensures p * 4 % 0x1_0000_0000 < 1209600 && p * 4 >= 1209600 ==> p > 4838400
  {
    var q, r := p / 0x4000_0000, p % 0x4000_0000;
    assert p * 4 == q * 0x1_0000_0000 + r * 4;
  }
}
