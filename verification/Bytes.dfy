/** Bytes, fixed-width integers and the numerals they spell (src/utils/data.c, src/utils/integers.c). */
module Bytes {

  type byte = b: int | 0 <= b < 256
  type uint16 = n: int | 0 <= n < 0x1_0000
  type uint32 = n: int | 0 <= n < 0x1_0000_0000
  type uint64 = n: int | 0 <= n < 0x1_0000_0000_0000_0000
  type int64 = n: int | -0x8000_0000_0000_0000 <= n < 0x8000_0000_0000_0000

  /** A SHA256_HASH. */
  type Hash = s: seq<byte> | |s| == 32 witness seq(32, _ => 0)

  const ZERO_HASH: Hash := [
    0, 0, 0, 0, 0, 0, 0, 0, 0, 0, 0, 0, 0, 0, 0, 0,
    0, 0, 0, 0, 0, 0, 0, 0, 0, 0, 0, 0, 0, 0, 0, 0
  ]
  const UINT32_MAX: uint32 := 0xFFFF_FFFF

  datatype Option<+T> = None | Some(value: T)

  function Pow256(k: nat): (r: nat)
    ensures r > 0
  {
    if k == 0 then 1 else 256 * Pow256(k - 1)
  }

  lemma MulAssoc(a: int, b: int, c: int)
    ensures a * (b * c) == (a * b) * c
  {
  }

  lemma MulCommutes(a: int, b: int)
    ensures a * b == b * a
  {
  }

  lemma MulDistribute(a: int, b: int, c: int)
    ensures a * (b + c) == a * b + a * c
    ensures (b + c) * a == b * a + c * a
  {
  }

  lemma MulMonotone(a: int, b: int, c: int)
    requires a <= b && 0 <= c
    ensures a * c <= b * c
  {
  }

  lemma Assoc<T>(a: seq<T>, b: seq<T>, c: seq<T>)
    ensures (a + b) + c == a + (b + c)
  {
  }

  lemma Assoc3<T>(p: seq<T>, a: seq<T>, b: seq<T>, c: seq<T>)
    ensures p + a + b + c == p + (a + b + c)
  {
  }

  lemma Assoc4<T>(p: seq<T>, a: seq<T>, b: seq<T>, c: seq<T>, d: seq<T>)
    ensures p + a + b + c + d == p + (a + b + c + d)
  {
  }

  /** The `w` low bytes of `n`, least significant first: what memcpy of an integer writes. */
  function LE(n: nat, w: nat): (r: seq<byte>)
    ensures |r| == w
  {
    if w == 0 then [] else [n % 256] + LE(n / 256, w - 1)
  }

  function FromLE(s: seq<byte>): (n: nat)
  {
    if s == [] then 0 else s[0] + 256 * FromLE(s[1..])
  }

  /** The number a big-endian byte string spells. */
  function FromBE(s: seq<byte>): (n: nat)
  {
    if s == [] then 0 else s[0] * Pow256(|s| - 1) + FromBE(s[1..])
  }

  lemma {:induction false} FromLEOfLE(n: nat, w: nat)
    requires n < Pow256(w)
    ensures FromLE(LE(n, w)) == n
  {
    if w > 0 {
      FromLEOfLE(n / 256, w - 1);
      assert LE(n, w)[1..] == LE(n / 256, w - 1);
    }
  }

  lemma {:induction false} LEOfFromLE(s: seq<byte>)
    ensures LE(FromLE(s), |s|) == s
    ensures FromLE(s) < Pow256(|s|)
  {
    if s != [] {
      LEOfFromLE(s[1..]);
      assert [s[0]] + s[1..] == s;
    }
  }

  lemma FromLEInjective(a: seq<byte>, b: seq<byte>)
    requires |a| == |b|
    ensures FromLE(a) == FromLE(b) <==> a == b
  {
    LEOfFromLE(a);
    LEOfFromLE(b);
  }

  lemma {:induction false} FromLEConcat(a: seq<byte>, b: seq<byte>)
    ensures FromLE(a + b) == FromLE(a) + Pow256(|a|) * FromLE(b)
  {
    if a == [] {
      assert a + b == b;
    } else {
      FromLEConcat(a[1..], b);
      assert (a + b)[1..] == a[1..] + b;
      MulAssoc(256, Pow256(|a| - 1), FromLE(b));
    }
  }

  lemma {:induction false} FromLEOfZeros(k: nat)
    ensures FromLE(seq(k, _ => 0)) == 0
  {
    if k > 0 {
      FromLEOfZeros(k - 1);
      var z: seq<byte> := seq(k, _ => 0);
      assert z[1..] == seq(k - 1, _ => 0);
    }
  }

  lemma ZeroHashIsZero()
    ensures FromLE(ZERO_HASH) == 0
  {
    assert ZERO_HASH == seq(32, _ => 0);
    FromLEOfZeros(32);
  }

  lemma {:induction false} FromBEBound(s: seq<byte>)
    ensures FromBE(s) < Pow256(|s|)
  {
    if s != [] {
      FromBEBound(s[1..]);
      MulMonotone(s[0], 255, Pow256(|s| - 1));
    }
  }

  lemma {:induction false} FromBEConcat(a: seq<byte>, b: seq<byte>)
    ensures FromBE(a + b) == FromBE(a) * Pow256(|b|) + FromBE(b)
  {
    if a == [] {
      assert a + b == b;
    } else {
      FromBEConcat(a[1..], b);
      assert (a + b)[1..] == a[1..] + b;
      Pow256Add(|a| - 1, |b|);
      var p, q, x := Pow256(|a| - 1), Pow256(|b|), FromBE(a[1..]);
      MulAssoc(a[0], p, q);
      MulDistribute(q, a[0] * p, x);
    }
  }

  /** The leading digit decides the order of two big-endian numbers. */
  lemma LeadingDigit(x: int, y: int, p: nat, u: nat, v: nat)
    requires x < y && u < p
    ensures x * p + u < y * p + v
  {
    MulMonotone(x + 1, y, p);
    MulDistribute(p, x, 1);
  }

  lemma {:induction false} FromBEInjective(a: seq<byte>, b: seq<byte>)
    requires |a| == |b|
    ensures FromBE(a) == FromBE(b) <==> a == b
  {
    if a != [] {
      var u, v := a[1..], b[1..];
      assert a == [a[0]] + u && b == [b[0]] + v;
      FromBEInjective(u, v);
      FromBEBound(u);
      FromBEBound(v);
      if a[0] < b[0] {
        LeadingDigit(a[0], b[0], Pow256(|u|), FromBE(u), FromBE(v));
      } else if b[0] < a[0] {
        LeadingDigit(b[0], a[0], Pow256(|u|), FromBE(v), FromBE(u));
      }
    }
  }

  lemma {:induction false} Pow256Add(m: nat, n: nat)
    ensures Pow256(m + n) == Pow256(m) * Pow256(n)
  {
    if m > 0 {
      Pow256Add(m - 1, n);
      MulAssoc(256, Pow256(m - 1), Pow256(n));
    }
  }

  lemma Pow256Values()
    ensures Pow256(1) == 0x100 && Pow256(2) == 0x1_0000 && Pow256(3) == 0x100_0000
    ensures Pow256(4) == 0x1_0000_0000
    ensures Pow256(8) == 0x1_0000_0000_0000_0000
  {
    assert Pow256(4) == 0x1_0000_0000;
    assert Pow256(5) == 256 * Pow256(4);
    assert Pow256(6) == 256 * Pow256(5);
    assert Pow256(7) == 256 * Pow256(6);
    assert Pow256(8) == 256 * Pow256(7);
  }

  // ----- src/utils/integers.c -----

  /** combine_uint16: two bytes, least significant first. */
  function CombineUint16(c: seq<byte>): (n: uint16)
    requires |c| == 2
  {
    c[1] as int * 0x100 + c[0]
  }

  /** combine_uint32: four bytes, least significant first. */
  function CombineUint32(c: seq<byte>): (n: uint32)
    requires |c| == 4
  {
    c[3] as int * 0x100_0000 + c[2] as int * 0x1_0000 + c[1] as int * 0x100 + c[0]
  }

  /** combine_uint64 computes the four low bytes in a signed 32-bit int: byte 3 is sign-extended. */
  function CombineUint64(c: seq<byte>): (n: uint64)
    requires |c| == 8
  {
    var high := c[7] as int * 0x100_0000_0000_0000 + c[6] as int * 0x1_0000_0000_0000 + c[5] as int * 0x100_0000_0000 + c[4] as int * 0x1_0000_0000;
    var byte3 := c[3] as int * 0x100_0000 - (if c[3] >= 128 then 0x1_0000_0000 else 0);
    (high + byte3 + c[2] as int * 0x1_0000 + c[1] as int * 0x100 + c[0]) % 0x1_0000_0000_0000_0000
  }

  /** segment_uint32 writes the four bytes of a number into an array. */
  method SegmentUint32(number: uint32, chars: array<byte>)
    requires chars.Length >= 4
    modifies chars
    ensures chars[..] == LE(number, 4) + old(chars[4..])
  {
    ghost var rest := chars[4..];
    chars[0] := number % 0x100;
    chars[1] := (number / 0x100) % 0x100;
    chars[2] := (number / 0x1_0000) % 0x100;
    chars[3] := (number / 0x100_0000) % 0x100;
    LE4(number);
    assert number / 0x100_0000 % 256 == number / 0x100_0000;
    assert chars[..4] == LE(number, 4);
    assert chars[..] == chars[..4] + rest;
  }

  lemma LE2(n: uint16)
    ensures LE(n, 2) == [n % 256, n / 256]
  {
    assert LE(n / 256, 1) == [n / 256] + LE(n / 256 / 256, 0);
  }

  lemma LE4(n: uint32)
    ensures LE(n, 4) == [n % 256, n / 256 % 256, n / 0x1_0000 % 256, n / 0x100_0000]
  {
    assert n / 256 / 256 == n / 0x1_0000 && n / 0x1_0000 / 256 == n / 0x100_0000;
    assert LE(n / 0x100_0000, 1) == [n / 0x100_0000] + LE(n / 0x100_0000 / 256, 0);
    assert LE(n / 0x1_0000, 2) == [n / 0x1_0000 % 256] + LE(n / 0x100_0000, 1);
    assert LE(n / 256, 3) == [n / 256 % 256] + LE(n / 0x1_0000, 2);
  }

  lemma Combine16Inverse(n: uint16)
    ensures CombineUint16(LE(n, 2)) == n
  {
    LE2(n);
  }

  lemma Combine32Inverse(n: uint32)
    ensures CombineUint32(LE(n, 4)) == n
  {
    LE4(n);
  }

  lemma Combine32Value(c: seq<byte>)
    requires |c| == 4
    ensures CombineUint32(c) == FromLE(c)
  {
    assert c[1..][1..] == c[2..] && c[2..][1..] == c[3..] && c[3..][1..] == [];
    assert FromLE(c[3..]) == c[3];
    assert FromLE(c[2..]) == c[2] + 256 * FromLE(c[3..]);
    assert FromLE(c[1..]) == c[1] + 256 * FromLE(c[2..]);
  }

  lemma FromLEHalves(c: seq<byte>)
    requires |c| == 8
    ensures FromLE(c) == CombineUint32(c[..4]) + 0x1_0000_0000 * CombineUint32(c[4..])
  {
    assert c == c[..4] + c[4..];
    FromLEConcat(c[..4], c[4..]);
    Combine32Value(c[..4]);
    Combine32Value(c[4..]);
    assert Pow256(4) == 0x1_0000_0000;
  }

  lemma Combine64Value(c: seq<byte>)
    requires |c| == 8
    ensures CombineUint64(c) == (FromLE(c) - (if c[3] >= 128 then 0x1_0000_0000 else 0)) % 0x1_0000_0000_0000_0000
  {
    FromLEHalves(c);
    assert 0x1_0000_0000 * CombineUint32(c[4..])
        == c[7] as int * 0x100_0000_0000_0000 + c[6] as int * 0x1_0000_0000_0000 + c[5] as int * 0x100_0000_0000 + c[4] as int * 0x1_0000_0000;
  }

  /** Eight bytes come back as written exactly when the top bit of byte 3 is clear. */
  lemma Combine64Inverse(n: uint64)
    ensures CombineUint64(LE(n, 8)) == n <==> n / 0x8000_0000 % 2 == 0
  {
    var c := LE(n, 8);
    assert n == CombineUint32(c[..4]) + 0x1_0000_0000 * CombineUint32(c[4..]) by {
      LE8Inverse(n);
      FromLEHalves(c);
    }
    assert CombineUint64(c) == (n - (if c[3] >= 128 then 0x1_0000_0000 else 0)) % 0x1_0000_0000_0000_0000 by {
      LE8Inverse(n);
      Combine64Value(c);
    }
    assert n / 0x8000_0000 % 2 == (if c[3] >= 128 then 1 else 0) by {
      Bit31(CombineUint32(c[..4]), CombineUint32(c[4..]));
      TopByte(c[..4]);
    }
    ExtendedDiffers(n, CombineUint64(c), c[3] >= 128);
  }

  lemma ExtendedDiffers(n: uint64, read: uint64, high: bool)
    requires read == (n - (if high then 0x1_0000_0000 else 0)) % 0x1_0000_0000_0000_0000
    requires n / 0x8000_0000 % 2 == if high then 1 else 0
    ensures read == n <==> n / 0x8000_0000 % 2 == 0
  {
    WrappedDiffers(n);
  }

  lemma LE8Inverse(n: uint64)
    ensures FromLE(LE(n, 8)) == n
  {
    Pow256Values();
    FromLEOfLE(n, 8);
  }

  lemma Bit31(lo: uint32, hi: uint32)
    ensures (lo + 0x1_0000_0000 * hi) / 0x8000_0000 % 2 == lo / 0x8000_0000
  {
    assert (lo + 0x1_0000_0000 * hi) / 0x8000_0000 == 2 * hi + lo / 0x8000_0000;
  }

  lemma TopByte(c: seq<byte>)
    requires |c| == 4
    ensures CombineUint32(c) / 0x8000_0000 == if c[3] >= 128 then 1 else 0
  {
  }

  lemma WrappedDiffers(n: uint64)
    ensures (n - 0x1_0000_0000) % 0x1_0000_0000_0000_0000 != n
  {
    if n < 0x1_0000_0000 {
      assert (n - 0x1_0000_0000) % 0x1_0000_0000_0000_0000 == n - 0x1_0000_0000 + 0x1_0000_0000_0000_0000;
    }
  }

  // ----- src/utils/data.c -----

  function Reversed<T>(s: seq<T>): (r: seq<T>)
    ensures |r| == |s|
    ensures forall i :: 0 <= i < |s| ==> r[i] == s[|s| - 1 - i]
  {
    if s == [] then [] else Reversed(s[1..]) + [s[0]]
  }

  /** reverse_bytes swaps the two halves of the first `width` bytes in place. */
  method ReverseBytes(data: array<byte>, width: uint32)
    requires width <= data.Length
    modifies data
    ensures data[..] == Reversed(old(data[..width])) + old(data[width..])
  {
    ghost var was := data[..];
    ghost var rev := Reversed(was[..width]);
    for i := 0 to width / 2
      invariant forall k: nat :: k < width ==> data[k] == if i <= k && k + i < width then was[k] else rev[k]
      invariant forall k: nat :: width <= k < data.Length ==> data[k] == was[k]
    {
      var temp := data[i];
      data[i] := data[width - i - 1];
      data[width - i - 1] := temp;
      assert data[i] == rev[i] && data[width - i - 1] == rev[width - i - 1];
    }
    assert data[..width] == rev;
    assert data[..] == data[..width] + data[width..];
  }

  /** Reading a byte string from either end gives the same number. */
  lemma {:induction false} ReversedNumeral(s: seq<byte>)
    ensures FromLE(Reversed(s)) == FromBE(s)
  {
    if s != [] {
      var t, d := s[1..], [s[0]];
      ReversedNumeral(t);
      FromLEConcat(Reversed(t), d);
      assert FromLE(d) == s[0] by { assert d[1..] == []; }
      MulCommutes(s[0], Pow256(|t|));
    }
  }

  /** bytescmp compares little-endian numbers from the top byte down, but never looks at byte 0. */
  method Bytescmp(a: seq<byte>, b: seq<byte>, width: uint32) returns (r: int)
    requires 0 < width == |a| == |b|
    ensures r == -1 <==> FromLE(a) / 256 < FromLE(b) / 256
    ensures r == 0 <==> FromLE(a) / 256 == FromLE(b) / 256
    ensures r == 1 <==> FromLE(a) / 256 > FromLE(b) / 256
  {
    var i := width - 1;
    while i > 0
      invariant 0 <= i < width
      invariant a[i + 1..] == b[i + 1..]
    {
      if a[i] != b[i] {
        CompareFrom(a[1..], b[1..], i - 1);
      }
      if a[i] < b[i] { return -1; }
      if a[i] > b[i] { return 1; }
      assert a[i..] == [a[i]] + a[i + 1..] && b[i..] == [b[i]] + b[i + 1..];
      i := i - 1;
    }
    return 0;
  }

  /** The highest differing byte decides the order. */
  lemma {:induction false} CompareFrom(a: seq<byte>, b: seq<byte>, i: nat)
    requires i < |a| == |b| && a[i] != b[i] && a[i + 1..] == b[i + 1..]
    ensures FromLE(a) < FromLE(b) <==> a[i] < b[i]
    ensures FromLE(a) != FromLE(b)
  {
    if i > 0 {
      assert a[1..][i..] == a[i + 1..] && b[1..][i..] == b[i + 1..];
      CompareFrom(a[1..], b[1..], i - 1);
    }
  }

  ghost predicate NoRepeats<T>(s: seq<T>) {
    forall i, j :: 0 <= i < j < |s| ==> s[i] != s[j]
  }
}
