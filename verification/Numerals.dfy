/** Minimal big-endian numerals with a clear sign bit: what DER integers and OpenSSL's MPI bodies both are. */
module Numerals {
  import opened Bytes

  /** The shortest non-negative two's complement numeral: section 8.3.2 of ITU-T X.690. Zero has no bytes here. */
  predicate Minimal(s: seq<byte>) {
    s == [] || (s[0] < 128 && (s[0] == 0 ==> |s| > 1 && s[1] >= 128))
  }

  /** A minimal numeral is determined by its value. */
  lemma MinimalUnique(a: seq<byte>, b: seq<byte>)
    requires Minimal(a) && Minimal(b) && FromBE(a) == FromBE(b)
    ensures a == b
  {
    MinimalWidth(a);
    MinimalWidth(b);
    if |a| < |b| {
      WidthOrder(|a|, |b|);
    } else if |b| < |a| {
      WidthOrder(|b|, |a|);
    } else {
      FromBEInjective(a, b);
    }
  }

  /** A minimal numeral of width n lies between 2^(8n - 9) and 2^(8n - 1). */
  lemma MinimalWidth(a: seq<byte>)
    requires Minimal(a)
    ensures a == [] ==> FromBE(a) == 0
    ensures a != [] ==> 1 <= FromBE(a) && 2 * FromBE(a) < Pow256(|a|) && Pow256(|a| - 1) <= 2 * FromBE(a)
  {
    if a != [] {
      var p, t := Pow256(|a| - 1), a[1..];
      FromBEBound(t);
      MulMonotone(a[0], 127, p);
      if a[0] == 0 {
        MulMonotone(128, t[0], Pow256(|t| - 1));
      } else {
        MulMonotone(1, a[0], p);
      }
    }
  }

  lemma WidthOrder(m: nat, n: nat)
    requires m < n
    ensures Pow256(m) <= Pow256(n - 1)
  {
    Pow256Add(m, n - 1 - m);
    MulMonotone(1, Pow256(n - 1 - m), Pow256(m));
  }

  /** The minimal numeral of a number: base 256 digits, and a zero in front when the top bit would be set. */
  function Numeral(n: nat): (s: seq<byte>)
    ensures Minimal(s) && FromBE(s) == n
    ensures s == [] <==> n == 0
  {
    var d := Digits(n);
    if d != [] && d[0] >= 128 then
      assert ([0] + d)[1..] == d;
      [0] + d
    else d
  }

  function Digits(n: nat): (s: seq<byte>)
    ensures FromBE(s) == n && (s != [] ==> s[0] != 0)
    ensures s == [] <==> n == 0
  {
    if n == 0 then []
    else
      FromBEConcat(Digits(n / 256), [n % 256]);
      SingleDigit(n % 256);
      Digits(n / 256) + [n % 256]
  }

  lemma SingleDigit(b: byte)
    ensures FromBE([b]) == b && Pow256(1) == 256
  {
    assert [b][1..] == [];
  }

  /** A smaller number has no wider numeral. */
  lemma NumeralWidthMonotone(m: nat, n: nat)
    requires m <= n
    ensures |Numeral(m)| <= |Numeral(n)|
  {
    if |Numeral(m)| > |Numeral(n)| {
      MinimalWidth(Numeral(m));
      MinimalWidth(Numeral(n));
      WidthOrder(|Numeral(n)|, |Numeral(m)|);
    }
  }

  lemma NumeralWidthBound(n: nat, k: nat)
    requires n < Pow256(k)
    ensures |Numeral(n)| <= k + 1
  {
    if |Numeral(n)| > k + 1 {
      MinimalWidth(Numeral(n));
      WidthOrder(k + 1, |Numeral(n)|);
    }
  }
}
