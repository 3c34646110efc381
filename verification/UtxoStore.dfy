/** The store of unspent outputs: a key-value database under textual keys (src/persistent.c). */
module UtxoStore {
  import opened Bytes
  import opened Varint
  import opened Codec

  // ----- keys -----

  function HexDigit(n: nat): (c: char)
    requires n < 16
  {
    "0123456789abcdef"[n]
  }

  /** hash_binary_to_hex: two lower-case digits a byte. */
  function Hex(s: seq<byte>): (r: string)
    ensures |r| == 2 * |s|
  {
    if s == [] then "" else [HexDigit(s[0] / 16), HexDigit(s[0] % 16)] + Hex(s[1..])
  }

  /** The last `width` decimal digits of a number, with leading zeros: the format %0*u. */
  function Decimal(n: nat, width: nat): (r: string)
    ensures |r| == width
  {
    if width == 0 then "" else Decimal(n / 10, width - 1) + [HexDigit(n % 10)]
  }

  /** make_txo_key. */
  function Key(o: Outpoint): (r: string) {
    Hex(o.txHash) + "_" + Decimal(o.index, 10)
  }

  lemma HexDigitInjective(m: nat, n: nat)
    requires m < 16 && n < 16
    ensures HexDigit(m) == HexDigit(n) <==> m == n
  {
  }

  lemma {:induction false} HexInjective(s: seq<byte>, t: seq<byte>)
    requires |s| == |t|
    ensures Hex(s) == Hex(t) <==> s == t
  {
    if s != [] && Hex(s) == Hex(t) {
      assert Hex(s)[0] == Hex(t)[0] && Hex(s)[1] == Hex(t)[1];
      HexDigitInjective(s[0] / 16, t[0] / 16);
      HexDigitInjective(s[0] % 16, t[0] % 16);
      assert Hex(s)[2..] == Hex(s[1..]) && Hex(t)[2..] == Hex(t[1..]);
      HexInjective(s[1..], t[1..]);
      assert s == [s[0]] + s[1..] && t == [t[0]] + t[1..];
    }
  }

  function Pow10(n: nat): (r: nat) {
    if n == 0 then 1 else 10 * Pow10(n - 1)
  }

  lemma {:induction false} DecimalInjective(m: nat, n: nat, width: nat)
    requires m < Pow10(width) && n < Pow10(width)
    ensures Decimal(m, width) == Decimal(n, width) <==> m == n
  {
    if width > 0 && Decimal(m, width) == Decimal(n, width) {
      assert Decimal(m, width)[width - 1] == Decimal(n, width)[width - 1];
      HexDigitInjective(m % 10, n % 10);
      assert Decimal(m, width)[..width - 1] == Decimal(m / 10, width - 1);
      assert Decimal(n, width)[..width - 1] == Decimal(n / 10, width - 1);
      DecimalInjective(m / 10, n / 10, width - 1);
    }
  }

  /** Ten decimal digits are enough for 32 bits, so two outpoints share a key only if they are equal. */
  lemma KeyInjective(a: Outpoint, b: Outpoint)
    ensures Key(a) == Key(b) <==> a == b
  {
    if Key(a) == Key(b) {
      assert Key(a)[..64] == Hex(a.txHash) && Key(b)[..64] == Hex(b.txHash);
      assert Key(a)[65..] == Decimal(a.index, 10) && Key(b)[65..] == Decimal(b.index, 10);
      HexInjective(a.txHash, b.txHash);
      TenDigits();
      DecimalInjective(a.index, b.index, 10);
    }
  }

  lemma TenDigits()
    ensures Pow10(10) == 10_000_000_000
  {
    assert Pow10(4) == 10_000;
    assert Pow10(7) == 10_000_000;
    assert Pow10(10) == 10_000_000_000;
  }

  // ----- the store -----

  /** The rows hold exactly the outputs of the map, serialized. */
  ghost predicate Holds(rows: map<string, seq<byte>>, outputs: map<Outpoint, TxOut>) {
    && (forall o :: o in outputs <==> Key(o) in rows)
    && (forall o :: o in outputs ==> SafeOut(outputs[o]) && rows[Key(o)] == TxOutBytes(outputs[o]))
  }

  lemma SaveHolds(rows: map<string, seq<byte>>, outputs: map<Outpoint, TxOut>, o: Outpoint, out: TxOut)
    requires Holds(rows, outputs) && SafeOut(out)
    ensures Holds(rows[Key(o) := TxOutBytes(out)], outputs[o := out])
  {
    forall p: Outpoint
      ensures Key(p) == Key(o) <==> p == o
    {
      KeyInjective(p, o);
    }
  }

  lemma SpendHolds(rows: map<string, seq<byte>>, outputs: map<Outpoint, TxOut>, o: Outpoint)
    requires Holds(rows, outputs)
    ensures Holds(rows - {Key(o)}, outputs - {o})
  {
    forall p: Outpoint
      ensures Key(p) == Key(o) <==> p == o
    {
      KeyInjective(p, o);
    }
  }

  class Store {
    var rows: map<string, seq<byte>>
    ghost var outputs: map<Outpoint, TxOut>

    ghost predicate Valid()
      reads this
    {
      Holds(rows, outputs)
    }

    constructor ()
      ensures Valid() && outputs == map[]
    {
      rows := map[];
      outputs := map[];
    }

    method SaveUtxo(o: Outpoint, out: TxOut)
      requires Valid() && SafeOut(out)
      modifies this
      ensures Valid() && outputs == old(outputs)[o := out]
    {
      SaveHolds(rows, outputs, o, out);
      rows := rows[Key(o) := TxOutBytes(out)];
      outputs := outputs[o := out];
    }

    /** load_utxo: what was saved last under the outpoint comes back. */
    method LoadUtxo(o: Outpoint) returns (r: Option<TxOut>)
      requires Valid()
      ensures r == if o in outputs then Some(outputs[o]) else None
    {
      if Key(o) !in rows {
        return None;
      }
      TxOutRoundTrip(outputs[o], []);
      assert TxOutBytes(outputs[o]) + [] == rows[Key(o)];
      var parsed := ParseTxOut(rows[Key(o)]);
      return Some(parsed.parsed.value);
    }

    /** destory_db. */
    method Clear()
      modifies this
      ensures Valid() && outputs == map[]
    {
      rows := map[];
      outputs := map[];
    }

    /** spend_output: deleting an absent key is no error. */
    method SpendOutput(o: Outpoint)
      requires Valid()
      modifies this
      ensures Valid() && outputs == old(outputs) - {o}
    {
      SpendHolds(rows, outputs, o);
      rows := rows - {Key(o)};
      outputs := outputs - {o};
    }
  }
}
