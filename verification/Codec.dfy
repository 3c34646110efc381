/** Variable-length integers, and lists of encoded items (src/messages/shared.c). */
module Varint {
  import opened Bytes

  datatype Parsed<+T> = Parsed(value: T, rest: seq<byte>)

  /** A parse result; None stands for a read past the end of the buffer. */
  datatype Parse<+T> = Overrun | Done(parsed: Parsed<T>) {
    predicate IsFailure() { Overrun? }
    function PropagateFailure<U>(): Parse<U>
      requires Overrun?
    {
      Overrun
    }
    function Extract(): Parsed<T>
      requires Done?
    {
      parsed
    }
  }

  function Take(s: seq<byte>, n: nat): (r: Parse<seq<byte>>)
  {
    if n <= |s| then Done(Parsed(s[..n], s[n..])) else Overrun
  }

  lemma TakeExact(x: seq<byte>, rest: seq<byte>)
    ensures Take(x + rest, |x|) == Done(Parsed(x, rest))
  {
    assert (x + rest)[..|x|] == x && (x + rest)[|x|..] == rest;
  }

  function TakeUint32(s: seq<byte>): (r: Parse<uint32>)
  {
    var Parsed(b, s1) :- Take(s, 4);
    Done(Parsed(CombineUint32(b), s1))
  }

  lemma TakeUint32Exact(n: uint32, rest: seq<byte>)
    ensures TakeUint32(LE(n, 4) + rest) == Done(Parsed(n, rest))
  {
    TakeExact(LE(n, 4), rest);
    Combine32Inverse(n);
  }

  /** The two's complement pattern of a 64-bit integer. */
  function Unsigned(v: int64): (u: uint64)
  {
    if v < 0 then v + 0x1_0000_0000_0000_0000 else v
  }

  function Signed(u: uint64): (v: int64)
    ensures Unsigned(v) == u
  {
    if u >= 0x8000_0000_0000_0000 then u - 0x1_0000_0000_0000_0000 else u
  }

  function TakeInt64(s: seq<byte>): (r: Parse<int64>)
  {
    var Parsed(b, s1) :- Take(s, 8);
    FromLEBound8(b);
    Done(Parsed(Signed(FromLE(b)), s1))
  }

  lemma FromLEBound8(b: seq<byte>)
    requires |b| == 8
    ensures FromLE(b) < 0x1_0000_0000_0000_0000
  {
    LEOfFromLE(b);
    Pow256Values();
  }

  lemma TakeInt64Exact(v: int64, rest: seq<byte>)
    ensures TakeInt64(LE(Unsigned(v), 8) + rest) == Done(Parsed(v, rest))
  {
    TakeExact(LE(Unsigned(v), 8), rest);
    LE8Inverse(Unsigned(v));
  }

  function VarintWidth(n: uint64): (w: nat)
  {
    if n < 0xFD then 1 else if n <= 0xFFFF then 3 else if n <= 0xFFFF_FFFF then 5 else 9
  }

  function VarintBytes(n: uint64): (r: seq<byte>)
    ensures |r| == VarintWidth(n)
  {
    if n < 0xFD then [n]
    else if n <= 0xFFFF then [0xFD] + LE(n, 2)
    else if n <= 0xFFFF_FFFF then [0xFE] + LE(n, 4)
    else [0xFF] + LE(n, 8)
  }

  function ParseVarint(s: seq<byte>): (r: Parse<uint64>)
  {
    var Parsed(first, s1) :- Take(s, 1);
    match first[0]
    case 0xFD => var Parsed(b, s2) :- Take(s1, 2); Done(Parsed(CombineUint16(b), s2))
    case 0xFE => var Parsed(b, s2) :- Take(s1, 4); Done(Parsed(CombineUint32(b), s2))
    case 0xFF => var Parsed(b, s2) :- Take(s1, 8); Done(Parsed(CombineUint64(b), s2))
    case _ => Done(Parsed(first[0], s1))
  }

  /** The numbers the nine-byte form reads back as written. */
  predicate VarintSafe(n: int)
  {
    0 <= n < 0x1_0000_0000 || (0 <= n < 0x1_0000_0000_0000_0000 && n / 0x8000_0000 % 2 == 0)
  }

  /** A variable-length integer survives the round trip exactly when it is safe. */
  lemma VarintRoundTrip(n: uint64, rest: seq<byte>)
    ensures ParseVarint(VarintBytes(n) + rest) == Done(Parsed(n, rest)) <==> VarintSafe(n)
  {
    if n < 0xFD {
      TakeExact([n], rest);
    } else if n <= 0xFFFF {
      PrefixedNumber(0xFD, LE(n, 2), rest);
      Combine16Inverse(n);
    } else if n <= 0xFFFF_FFFF {
      PrefixedNumber(0xFE, LE(n, 4), rest);
      Combine32Inverse(n);
    } else {
      PrefixedNumber(0xFF, LE(n, 8), rest);
      Combine64Inverse(n);
    }
  }

  lemma PrefixedNumber(prefix: byte, x: seq<byte>, rest: seq<byte>)
    ensures Take([prefix] + x + rest, 1) == Done(Parsed([prefix], x + rest))
    ensures Take(x + rest, |x|) == Done(Parsed(x, rest))
  {
    assert [prefix] + x + rest == [prefix] + (x + rest);
    TakeExact([prefix], x + rest);
    TakeExact(x, rest);
  }

  // ----- lists of items -----

  function ListBytes<T>(f: T -> seq<byte>, xs: seq<T>): (r: seq<byte>)
  {
    if xs == [] then [] else f(xs[0]) + ListBytes(f, xs[1..])
  }

  /** `n` more items, appended to those already read: the state of a parsing loop. */
  function ParseOnto<T>(p: seq<byte> -> Parse<T>, n: nat, s: seq<byte>, xs: seq<T>): (r: Parse<seq<T>>)
    decreases n
  {
    if n == 0 then Done(Parsed(xs, s))
    else
      match p(s)
      case Overrun => Overrun
      case Done(Parsed(x, rest)) => ParseOnto(p, n - 1, rest, xs + [x])
  }

  function ParseList<T>(p: seq<byte> -> Parse<T>, n: nat, s: seq<byte>): (r: Parse<seq<T>>)
  {
    ParseOnto(p, n, s, [])
  }

  /** Whatever follows it, the item is read back as written. */
  ghost predicate RoundTrips<T(!new)>(f: T -> seq<byte>, p: seq<byte> -> Parse<T>, x: T)
  {
    forall r :: p(f(x) + r) == Done(Parsed(x, r))
  }

  /** Items that round-trip one by one round-trip as a list. */
  lemma {:induction false} ListRoundTrip<T(!new)>(f: T -> seq<byte>, p: seq<byte> -> Parse<T>,
                                                  done: seq<T>, xs: seq<T>, rest: seq<byte>)
    requires forall x :: x in xs ==> RoundTrips(f, p, x)
    ensures ParseOnto(p, |xs|, ListBytes(f, xs) + rest, done) == Done(Parsed(done + xs, rest))
    decreases |xs|
  {
    if xs == [] {
      assert ListBytes(f, xs) + rest == rest && done + xs == done;
    } else {
      var tail := ListBytes(f, xs[1..]) + rest;
      assert ListBytes(f, xs) + rest == f(xs[0]) + tail;
      assert RoundTrips(f, p, xs[0]);
      ListRoundTrip(f, p, done + [xs[0]], xs[1..], rest);
      assert done + [xs[0]] + xs[1..] == done + xs;
    }
  }

  lemma {:induction false} ListBytesConcat<T>(f: T -> seq<byte>, xs: seq<T>, ys: seq<T>)
    ensures ListBytes(f, xs + ys) == ListBytes(f, xs) + ListBytes(f, ys)
  {
    if xs == [] {
      assert xs + ys == ys;
    } else {
      assert (xs + ys)[1..] == xs[1..] + ys;
      ListBytesConcat(f, xs[1..], ys);
    }
  }

  lemma ListBytesSnoc<T>(f: T -> seq<byte>, xs: seq<T>, i: nat)
    requires i < |xs|
    ensures ListBytes(f, xs[..i + 1]) == ListBytes(f, xs[..i]) + f(xs[i])
    ensures |ListBytes(f, xs[..i + 1])| <= |ListBytes(f, xs)|
  {
    assert xs[..i + 1] == xs[..i] + [xs[i]];
    ListBytesConcat(f, xs[..i], [xs[i]]);
    assert ListBytes(f, [xs[i]]) == f(xs[i]) + [];
    assert xs == xs[..i + 1] + xs[i + 1..];
    ListBytesConcat(f, xs[..i + 1], xs[i + 1..]);
  }
}

/** Transactions and blocks on the wire (src/messages/tx.c, src/messages/block.c). */
module Codec {
  import opened Bytes
  import opened Varint

  datatype Outpoint = Outpoint(txHash: Hash, index: uint32)

  datatype TxIn = TxIn(previous: Outpoint, script: seq<byte>, sequence: uint32)

  datatype TxOut = TxOut(value: int64, script: seq<byte>)

  /** `version` is the bit pattern of the signed 32-bit field. */
  datatype Tx = Tx(version: uint32, marker: byte, flag: byte,
                   inputs: seq<TxIn>, outputs: seq<TxOut>, witnesses: seq<seq<byte>>, lockTime: uint32)
  {
    predicate HasWitness() {
      marker == 0 && flag == 1
    }
  }

  datatype Header = Header(version: uint32, prevBlock: Hash, merkleRoot: Hash,
                           timestamp: uint32, target: uint32, nonce: uint32)

  datatype Block = Block(header: Header, txs: seq<Tx>)

  // ----- serialization -----

  function Counted(n: nat): (r: seq<byte>)
  {
    if n < 0x1_0000_0000_0000_0000 then VarintBytes(n) else []
  }

  function OutpointBytes(o: Outpoint): (r: seq<byte>)
    ensures |r| == 36
  {
    o.txHash + LE(o.index, 4)
  }

  function VarBytes(s: seq<byte>): (r: seq<byte>)
  {
    Counted(|s|) + s
  }

  function TxInBytes(i: TxIn): (r: seq<byte>)
  {
    OutpointBytes(i.previous) + VarBytes(i.script) + LE(i.sequence, 4)
  }

  function TxOutBytes(o: TxOut): (r: seq<byte>)
  {
    LE(Unsigned(o.value), 8) + VarBytes(o.script)
  }

  function MarkerBytes(tx: Tx): (r: seq<byte>)
  {
    if tx.HasWitness() then [tx.marker, tx.flag] else []
  }

  /** The first |inputs| witnesses, and none without the segregated-witness marker. */
  function WitnessBytes(tx: Tx): (r: seq<byte>)
    requires tx.HasWitness() ==> |tx.inputs| <= |tx.witnesses|
  {
    if tx.HasWitness() then ListBytes(VarBytes, tx.witnesses[..|tx.inputs|]) else []
  }

  function TxBytes(tx: Tx): (r: seq<byte>)
    requires tx.HasWitness() ==> |tx.inputs| <= |tx.witnesses|
  {
    LE(tx.version, 4) + MarkerBytes(tx) + Counted(|tx.inputs|) + ListBytes(TxInBytes, tx.inputs)
    + Counted(|tx.outputs|) + ListBytes(TxOutBytes, tx.outputs) + WitnessBytes(tx) + LE(tx.lockTime, 4)
  }

  function HeaderBytes(h: Header): (r: seq<byte>)
    ensures |r| == 80
  {
    LE(h.version, 4) + h.prevBlock + h.merkleRoot + LE(h.timestamp, 4) + LE(h.target, 4) + LE(h.nonce, 4)
  }

  // ----- parsing -----

  function ParseHash(s: seq<byte>): (r: Parse<Hash>)
  {
    var Parsed(h, s1) :- Take(s, 32);
    Done(Parsed(h, s1))
  }

  function ParseOutpoint(s: seq<byte>): (r: Parse<Outpoint>)
  {
    var Parsed(hash, s1) :- ParseHash(s);
    var Parsed(index, s2) :- TakeUint32(s1);
    Done(Parsed(Outpoint(hash, index), s2))
  }

  function ParseVarBytes(s: seq<byte>): (r: Parse<seq<byte>>)
  {
    var Parsed(n, s1) :- ParseVarint(s);
    Take(s1, n)
  }

  function ParseTxIn(s: seq<byte>): (r: Parse<TxIn>)
  {
    var Parsed(previous, s1) :- ParseOutpoint(s);
    var Parsed(script, s2) :- ParseVarBytes(s1);
    var Parsed(sequence, s3) :- TakeUint32(s2);
    Done(Parsed(TxIn(previous, script, sequence), s3))
  }

  function ParseTxOut(s: seq<byte>): (r: Parse<TxOut>)
  {
    var Parsed(value, s1) :- TakeInt64(s);
    var Parsed(script, s2) :- ParseVarBytes(s1);
    Done(Parsed(TxOut(value, script), s2))
  }

  /** The two bytes after the version are a marker only when they are (0, 1). */
  function ParseMarker(s: seq<byte>): (r: Parse<bool>)
  {
    var Parsed(mark, s1) :- Take(s, 2);
    if mark == [0, 1] then Done(Parsed(true, s1)) else Done(Parsed(false, s))
  }

  function ParseCounted<T>(p: seq<byte> -> Parse<T>, s: seq<byte>): (r: Parse<seq<T>>)
  {
    var Parsed(n, s1) :- ParseVarint(s);
    ParseList(p, n, s1)
  }

  function ParseTx(s: seq<byte>): (r: Parse<Tx>)
  {
    var Parsed(version, s1) :- TakeUint32(s);
    var Parsed(hasWitness, s2) :- ParseMarker(s1);
    ParseTxBody(version, hasWitness, s2)
  }

  function ParseTxBody(version: uint32, hasWitness: bool, s: seq<byte>): (r: Parse<Tx>)
  {
    var Parsed(inputs, s1) :- ParseCounted(ParseTxIn, s);
    var Parsed(outputs, s2) :- ParseCounted(ParseTxOut, s1);
    var Parsed(witnesses, s3) :- ParseList(ParseVarBytes, if hasWitness then |inputs| else 0, s2);
    var Parsed(lockTime, s4) :- TakeUint32(s3);
    Done(Parsed(Tx(version, 0, if hasWitness then 1 else 0, inputs, outputs, witnesses, lockTime), s4))
  }

  function ParseHeader(s: seq<byte>): (r: Parse<Header>)
  {
    var Parsed(version, s1) :- TakeUint32(s);
    var Parsed(prev, s2) :- ParseHash(s1);
    var Parsed(root, s3) :- ParseHash(s2);
    var Parsed(time, s4) :- TakeUint32(s3);
    var Parsed(target, s5) :- TakeUint32(s4);
    var Parsed(nonce, s6) :- TakeUint32(s5);
    Done(Parsed(Header(version, prev, root, time, target, nonce), s6))
  }

  function ParseBlock(s: seq<byte>): (r: Parse<Block>)
  {
    var Parsed(header, s1) :- ParseHeader(s);
    var Parsed(txs, s2) :- ParseCounted(ParseTx, s1);
    Done(Parsed(Block(header, txs), s2))
  }

  // ----- what can be written and read back -----

  predicate SafeIn(i: TxIn) {
    VarintSafe(|i.script|)
  }

  predicate SafeOut(o: TxOut) {
    VarintSafe(|o.script|)
  }

  /** A transaction as the parser leaves it: no stray marker, one witness per input under the marker. */
  ghost predicate WellFormedTx(tx: Tx)
  {
    && VarintSafe(|tx.inputs|) && VarintSafe(|tx.outputs|)
    && (forall i :: i in tx.inputs ==> SafeIn(i))
    && (forall o :: o in tx.outputs ==> SafeOut(o))
    && (forall w :: w in tx.witnesses ==> VarintSafe(|w|))
    && (if tx.HasWitness() then |tx.witnesses| == |tx.inputs| else tx.marker == tx.flag == 0 && tx.witnesses == [])
  }

  /** No input and one output: the two counts spell the segregated-witness marker. */
  predicate SpellsMarker(tx: Tx) {
    !tx.HasWitness() && |tx.inputs| == 0 && |tx.outputs| == 1
  }

  lemma OutpointRoundTrip(o: Outpoint, rest: seq<byte>)
    ensures ParseOutpoint(OutpointBytes(o) + rest) == Done(Parsed(o, rest))
  {
    assert OutpointBytes(o) + rest == o.txHash + (LE(o.index, 4) + rest);
    TakeExact(o.txHash, LE(o.index, 4) + rest);
    TakeUint32Exact(o.index, rest);
  }

  lemma VarBytesRoundTrip(x: seq<byte>, rest: seq<byte>)
    requires VarintSafe(|x|)
    ensures ParseVarBytes(VarBytes(x) + rest) == Done(Parsed(x, rest))
  {
    assert VarBytes(x) + rest == VarintBytes(|x|) + (x + rest);
    VarintRoundTrip(|x|, x + rest);
    TakeExact(x, rest);
  }

  lemma TxInRoundTrip(i: TxIn, rest: seq<byte>)
    requires SafeIn(i)
    ensures ParseTxIn(TxInBytes(i) + rest) == Done(Parsed(i, rest))
  {
    var s2 := LE(i.sequence, 4) + rest;
    var s1 := VarBytes(i.script) + s2;
    assert TxInBytes(i) + rest == OutpointBytes(i.previous) + s1;
    OutpointRoundTrip(i.previous, s1);
    VarBytesRoundTrip(i.script, s2);
    TakeUint32Exact(i.sequence, rest);
  }

  lemma TxOutRoundTrip(o: TxOut, rest: seq<byte>)
    requires SafeOut(o)
    ensures ParseTxOut(TxOutBytes(o) + rest) == Done(Parsed(o, rest))
  {
    var s1 := VarBytes(o.script) + rest;
    assert TxOutBytes(o) + rest == LE(Unsigned(o.value), 8) + s1;
    TakeInt64Exact(o.value, s1);
    VarBytesRoundTrip(o.script, rest);
  }

  lemma CountRoundTrip(n: nat, items: seq<byte>, rest: seq<byte>)
    requires VarintSafe(n)
    ensures ParseVarint(Counted(n) + items + rest) == Done(Parsed(n, items + rest))
  {
    assert Counted(n) + items + rest == VarintBytes(n) + (items + rest);
    VarintRoundTrip(n, items + rest);
  }

  lemma CountedList<T>(p: seq<byte> -> Parse<T>, xs: seq<T>, items: seq<byte>, rest: seq<byte>)
    requires VarintSafe(|xs|) && ParseList(p, |xs|, items + rest) == Done(Parsed(xs, rest))
    ensures ParseCounted(p, Counted(|xs|) + items + rest) == Done(Parsed(xs, rest))
  {
    CountRoundTrip(|xs|, items, rest);
  }

  lemma CountedRoundTrip<T(!new)>(f: T -> seq<byte>, p: seq<byte> -> Parse<T>, xs: seq<T>, rest: seq<byte>)
    requires VarintSafe(|xs|)
    requires forall x :: x in xs ==> RoundTrips(f, p, x)
    ensures ParseCounted(p, Counted(|xs|) + ListBytes(f, xs) + rest) == Done(Parsed(xs, rest))
  {
    var items := ListBytes(f, xs);
    ListRoundTrip(f, p, [], xs, rest);
    assert [] + xs == xs;
    CountedList(p, xs, items, rest);
  }

  /** The tails of a serialized transaction, field by field. */
  function AfterOutputs(tx: Tx, rest: seq<byte>): seq<byte>
    requires tx.HasWitness() ==> |tx.inputs| <= |tx.witnesses|
  {
    WitnessBytes(tx) + (LE(tx.lockTime, 4) + rest)
  }

  function AfterInputs(tx: Tx, rest: seq<byte>): seq<byte>
    requires tx.HasWitness() ==> |tx.inputs| <= |tx.witnesses|
  {
    Counted(|tx.outputs|) + ListBytes(TxOutBytes, tx.outputs) + AfterOutputs(tx, rest)
  }

  function AfterMarker(tx: Tx, rest: seq<byte>): seq<byte>
    requires tx.HasWitness() ==> |tx.inputs| <= |tx.witnesses|
  {
    Counted(|tx.inputs|) + ListBytes(TxInBytes, tx.inputs) + AfterInputs(tx, rest)
  }

  lemma TxBytesNested(tx: Tx, rest: seq<byte>)
    requires tx.HasWitness() ==> |tx.inputs| <= |tx.witnesses|
    ensures TxBytes(tx) + rest == LE(tx.version, 4) + (MarkerBytes(tx) + AfterMarker(tx, rest))
  {
    Reassociate(LE(tx.version, 4), MarkerBytes(tx), Counted(|tx.inputs|), ListBytes(TxInBytes, tx.inputs),
                Counted(|tx.outputs|), ListBytes(TxOutBytes, tx.outputs), WitnessBytes(tx), LE(tx.lockTime, 4), rest);
  }

  lemma Reassociate(a: seq<byte>, b: seq<byte>, c: seq<byte>, d: seq<byte>, e: seq<byte>,
                    f: seq<byte>, g: seq<byte>, h: seq<byte>, r: seq<byte>)
    ensures a + b + c + d + e + f + g + h + r == a + (b + (c + d + (e + f + (g + (h + r)))))
  {
    var x := a + b + c + d;
    assert x + e + f + g + h + r == x + (e + f + (g + (h + r)));
    var y := e + f + (g + (h + r));
    assert x + y == a + (b + (c + d + y));
  }

  lemma InputsRoundTrip(tx: Tx, rest: seq<byte>)
    requires WellFormedTx(tx)
    ensures ParseCounted(ParseTxIn, AfterMarker(tx, rest)) == Done(Parsed(tx.inputs, AfterInputs(tx, rest)))
  {
    forall i | i in tx.inputs ensures RoundTrips(TxInBytes, ParseTxIn, i) {
      forall r { TxInRoundTrip(i, r); }
    }
    CountedRoundTrip(TxInBytes, ParseTxIn, tx.inputs, AfterInputs(tx, rest));
  }

  lemma OutputsRoundTrip(tx: Tx, rest: seq<byte>)
    requires WellFormedTx(tx)
    ensures ParseCounted(ParseTxOut, AfterInputs(tx, rest)) == Done(Parsed(tx.outputs, AfterOutputs(tx, rest)))
  {
    forall o | o in tx.outputs ensures RoundTrips(TxOutBytes, ParseTxOut, o) {
      forall r { TxOutRoundTrip(o, r); }
    }
    CountedRoundTrip(TxOutBytes, ParseTxOut, tx.outputs, AfterOutputs(tx, rest));
  }

  lemma WitnessesRoundTrip(tx: Tx, rest: seq<byte>)
    requires WellFormedTx(tx)
    ensures ParseList(ParseVarBytes, if tx.HasWitness() then |tx.inputs| else 0, AfterOutputs(tx, rest))
         == Done(Parsed(tx.witnesses, LE(tx.lockTime, 4) + rest))
  {
    var s := LE(tx.lockTime, 4) + rest;
    if tx.HasWitness() {
      forall w | w in tx.witnesses ensures RoundTrips(VarBytes, ParseVarBytes, w) {
        forall r { VarBytesRoundTrip(w, r); }
      }
      assert tx.witnesses[..|tx.inputs|] == tx.witnesses;
      ListRoundTrip(VarBytes, ParseVarBytes, [], tx.witnesses, s);
      assert [] + tx.witnesses == tx.witnesses;
    } else {
      assert AfterOutputs(tx, rest) == s;
    }
  }

  /** The first byte of a count tells zero and one apart from the rest. */
  lemma FirstCountByte(n: nat, items: seq<byte>, rest: seq<byte>)
    requires VarintSafe(n)
    ensures var s := Counted(n) + items + rest;
            |s| > 0 && (s[0] == 0 <==> n == 0) && (s[0] == 1 <==> n == 1)
  {
  }

  lemma EmptyInputs(tx: Tx, rest: seq<byte>)
    requires WellFormedTx(tx) && tx.inputs == []
    ensures var m := AfterMarker(tx, rest);
            |m| >= 2 && m[0] == 0 && (m[1] == 1 <==> |tx.outputs| == 1)
  {
    var l := AfterInputs(tx, rest);
    FirstCountByte(|tx.outputs|, ListBytes(TxOutBytes, tx.outputs), AfterOutputs(tx, rest));
    assert Counted(0) + ListBytes(TxInBytes, tx.inputs) == [0];
    assert ([0] + l)[1] == l[0];
  }

  lemma SomeInputs(tx: Tx, rest: seq<byte>)
    requires WellFormedTx(tx) && tx.inputs != []
    ensures var m := AfterMarker(tx, rest); |m| >= 2 && m[0] != 0
  {
    FirstCountByte(|tx.inputs|, ListBytes(TxInBytes, tx.inputs), AfterInputs(tx, rest));
    FirstCountByte(|tx.outputs|, ListBytes(TxOutBytes, tx.outputs), AfterOutputs(tx, rest));
  }

  lemma MarkerByBytes(s: seq<byte>)
    requires |s| >= 2
    ensures ParseMarker(s) == Done(if s[0] == 0 && s[1] == 1 then Parsed(true, s[2..]) else Parsed(false, s))
  {
    assert s[..2] == [s[0], s[1]];
  }

  /** The parser takes the marker branch exactly for witness transactions and look-alikes. */
  lemma MarkerDetected(tx: Tx, rest: seq<byte>)
    requires WellFormedTx(tx)
    ensures var s := MarkerBytes(tx) + AfterMarker(tx, rest);
            ParseMarker(s) == Done(if tx.HasWitness() then Parsed(true, AfterMarker(tx, rest))
                                   else if SpellsMarker(tx) then Parsed(true, s[2..]) else Parsed(false, s))
  {
    var m := AfterMarker(tx, rest);
    if tx.HasWitness() {
      assert MarkerBytes(tx) == [0, 1];
      MarkerByBytes([0, 1] + m);
    } else {
      assert MarkerBytes(tx) + m == m;
      if tx.inputs == [] {
        EmptyInputs(tx, rest);
      } else {
        SomeInputs(tx, rest);
      }
      MarkerByBytes(m);
    }
  }

  /**
   * A transaction survives serialization followed by parsing, whatever bytes follow,
   * exactly when its counts do not spell the marker; the parser stops at the serialized width.
   */
  lemma TxRoundTrip(tx: Tx, rest: seq<byte>)
    requires WellFormedTx(tx)
    ensures ParseTx(TxBytes(tx) + rest) == Done(Parsed(tx, rest)) <==> !SpellsMarker(tx)
  {
    var s1 := MarkerBytes(tx) + AfterMarker(tx, rest);
    TxBytesNested(tx, rest);
    TakeUint32Exact(tx.version, s1);
    MarkerDetected(tx, rest);
    if !SpellsMarker(tx) {
      if !tx.HasWitness() {
        assert s1 == AfterMarker(tx, rest);
      }
      InputsRoundTrip(tx, rest);
      OutputsRoundTrip(tx, rest);
      WitnessesRoundTrip(tx, rest);
      TakeUint32Exact(tx.lockTime, rest);
    }
  }

  /** No serialized transaction is a proper prefix of another, and each determines its transaction. */
  lemma TxPrefixFree(a: Tx, b: Tx, restA: seq<byte>, restB: seq<byte>)
    requires WellFormedTx(a) && WellFormedTx(b) && !SpellsMarker(a) && !SpellsMarker(b)
    requires TxBytes(a) + restA == TxBytes(b) + restB
    ensures a == b && restA == restB
  {
    TxRoundTrip(a, restA);
    TxRoundTrip(b, restB);
  }

  lemma HeaderRoundTrip(h: Header, rest: seq<byte>)
    ensures ParseHeader(HeaderBytes(h) + rest) == Done(Parsed(h, rest))
  {
    var s5 := LE(h.nonce, 4) + rest;
    var s4 := LE(h.target, 4) + s5;
    var s3 := LE(h.timestamp, 4) + s4;
    var s2 := h.merkleRoot + s3;
    var s1 := h.prevBlock + s2;
    assert HeaderBytes(h) + rest == LE(h.version, 4) + s1;
    TakeUint32Exact(h.version, s1);
    TakeExact(h.prevBlock, s2);
    TakeExact(h.merkleRoot, s3);
    TakeUint32Exact(h.timestamp, s4);
    TakeUint32Exact(h.target, s5);
    TakeUint32Exact(h.nonce, rest);
  }

  ghost predicate WellFormedBlock(b: Block)
  {
    VarintSafe(|b.txs|) && forall tx :: tx in b.txs ==> WellFormedTx(tx) && !SpellsMarker(tx)
  }

  /** Serializing a transaction whose witnesses may be missing: total, for use as a list item. */
  function TxItemBytes(tx: Tx): (r: seq<byte>)
  {
    if tx.HasWitness() && |tx.witnesses| < |tx.inputs| then [] else TxBytes(tx)
  }

  function BlockBytes(b: Block): (r: seq<byte>)
  {
    HeaderBytes(b.header) + Counted(|b.txs|) + ListBytes(TxItemBytes, b.txs)
  }

  lemma BlockRoundTrip(b: Block, rest: seq<byte>)
    requires WellFormedBlock(b)
    ensures ParseBlock(BlockBytes(b) + rest) == Done(Parsed(b, rest))
  {
    var s1 := Counted(|b.txs|) + ListBytes(TxItemBytes, b.txs) + rest;
    assert BlockBytes(b) + rest == HeaderBytes(b.header) + s1;
    HeaderRoundTrip(b.header, s1);
    forall tx | tx in b.txs ensures RoundTrips(TxItemBytes, ParseTx, tx) {
      forall r { TxRoundTrip(tx, r); }
    }
    CountedRoundTrip(TxItemBytes, ParseTx, b.txs, rest);
  }

  lemma BlockPrefixFree(a: Block, b: Block, restA: seq<byte>, restB: seq<byte>)
    requires WellFormedBlock(a) && WellFormedBlock(b)
    requires BlockBytes(a) + restA == BlockBytes(b) + restB
    ensures a == b && restA == restB
  {
    BlockRoundTrip(a, restA);
    BlockRoundTrip(b, restB);
  }

  // ----- where the fields stand -----

  /** The 80 bytes of a header: version, previous hash, Merkle root, time, target and nonce. */
  lemma HeaderLayout(h: Header)
    ensures var s := HeaderBytes(h);
            && FromLE(s[0..4]) == h.version && s[4..36] == h.prevBlock && s[36..68] == h.merkleRoot
            && FromLE(s[68..72]) == h.timestamp && FromLE(s[72..76]) == h.target && FromLE(s[76..80]) == h.nonce
  {
    var s := HeaderBytes(h);
    assert s[0..4] == LE(h.version, 4) && s[68..72] == LE(h.timestamp, 4);
    assert s[72..76] == LE(h.target, 4) && s[76..80] == LE(h.nonce, 4);
    Word(h.version);
    Word(h.timestamp);
    Word(h.target);
    Word(h.nonce);
  }

  lemma Word(n: uint32)
    ensures FromLE(LE(n, 4)) == n
  {
    FromLEOfLE(n, 4);
    Pow256Values();
  }

  /** A length: itself below 253, and otherwise 253, 254 or 255 and the number in two, four or eight bytes. */
  lemma VarintLayout(n: uint64)
    ensures var s := VarintBytes(n);
            && (n < 253 ==> s == [n])
            && (253 <= n < 0x1_0000 ==> |s| == 3 && s[0] == 253 && FromLE(s[1..]) == n)
            && (0x1_0000 <= n < 0x1_0000_0000 ==> |s| == 5 && s[0] == 254 && FromLE(s[1..]) == n)
            && (0x1_0000_0000 <= n ==> |s| == 9 && s[0] == 255 && FromLE(s[1..]) == n)
  {
    Pow256Values();
    if n >= 253 {
      var w := VarintWidth(n) - 1;
      FromLEOfLE(n, w);
      assert VarintBytes(n)[1..] == LE(n, w);
    }
  }

  /** An input: hash and index of the output it names, its script behind its length, its sequence. */
  lemma TxInLayout(i: TxIn)
    ensures var s := TxInBytes(i);
            && |s| == 40 + |VarBytes(i.script)|
            && s[..32] == i.previous.txHash && FromLE(s[32..36]) == i.previous.index
            && s[36..|s| - 4] == VarBytes(i.script) && FromLE(s[|s| - 4..]) == i.sequence
  {
    var s := TxInBytes(i);
    assert s[32..36] == LE(i.previous.index, 4) && s[|s| - 4..] == LE(i.sequence, 4);
    assert s[36..|s| - 4] == VarBytes(i.script);
    Word(i.previous.index);
    Word(i.sequence);
  }

  /** An output: its value in eight bytes, two's complement, and its script behind its length. */
  lemma TxOutLayout(o: TxOut)
    ensures var s := TxOutBytes(o);
            && FromLE(s[..8]) == (if o.value >= 0 then o.value else o.value + 0x1_0000_0000_0000_0000)
            && s[8..] == VarBytes(o.script)
  {
    var s := TxOutBytes(o);
    assert s[..8] == LE(Unsigned(o.value), 8) && s[8..] == VarBytes(o.script);
    FromLEOfLE(Unsigned(o.value), 8);
    Pow256Values();
  }

  /** A transaction: version first, the bytes 0 and 1 for one with witnesses, counted inputs, counted outputs, witnesses, lock time last. */
  lemma TxLayout(tx: Tx)
    requires tx.HasWitness() ==> |tx.inputs| <= |tx.witnesses|
    ensures var s := TxBytes(tx);
            var body := Counted(|tx.inputs|) + ListBytes(TxInBytes, tx.inputs) + Counted(|tx.outputs|) + ListBytes(TxOutBytes, tx.outputs);
            && |s| >= 8 && FromLE(s[..4]) == tx.version && FromLE(s[|s| - 4..]) == tx.lockTime
            && (if tx.HasWitness() then [0, 1] + body <= s[4..] else s[4..|s| - 4] == body)
  {
    var body := Counted(|tx.inputs|) + ListBytes(TxInBytes, tx.inputs) + Counted(|tx.outputs|) + ListBytes(TxOutBytes, tx.outputs);
    Word(tx.version);
    Word(tx.lockTime);
    TxBody(tx, body);
    PartsAt(LE(tx.version, 4), MarkerBytes(tx) + body, WitnessBytes(tx), LE(tx.lockTime, 4));
    MarkedBody(tx, body);
  }

  lemma TxBody(tx: Tx, body: seq<byte>)
    requires tx.HasWitness() ==> |tx.inputs| <= |tx.witnesses|
    requires body == Counted(|tx.inputs|) + ListBytes(TxInBytes, tx.inputs) + Counted(|tx.outputs|) + ListBytes(TxOutBytes, tx.outputs)
    ensures TxBytes(tx) == LE(tx.version, 4) + (MarkerBytes(tx) + body) + WitnessBytes(tx) + LE(tx.lockTime, 4)
  {
    var v, m := LE(tx.version, 4), MarkerBytes(tx);
    Assoc4(v + m, Counted(|tx.inputs|), ListBytes(TxInBytes, tx.inputs), Counted(|tx.outputs|), ListBytes(TxOutBytes, tx.outputs));
    Assoc(v, m, body);
  }

  lemma PartsAt(v: seq<byte>, b: seq<byte>, w: seq<byte>, l: seq<byte>)
    requires |v| == 4 && |l| == 4
    ensures var s := v + b + w + l; s[..4] == v && s[|s| - 4..] == l && s[4..|s| - 4] == b + w && b <= s[4..]
  {
    var s := v + b + w + l;
    assert s[4..] == b + (w + l);
  }

  lemma MarkedBody(tx: Tx, body: seq<byte>)
    requires tx.HasWitness() ==> |tx.inputs| <= |tx.witnesses|
    ensures MarkerBytes(tx) + body == if tx.HasWitness() then [0, 1] + body else body
    ensures !tx.HasWitness() ==> MarkerBytes(tx) + body + WitnessBytes(tx) == body
  {
  }
}
