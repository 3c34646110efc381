/** The cursor-based writers and readers of src/messages/tx.c, block.c and shared.c. */
module CodecBuffer {
  import opened Bytes
  import opened Varint
  import opened Codec

  /** memcpy of `data` to the cursor. */
  method Put(buffer: array<byte>, p: nat, data: seq<byte>) returns (q: nat)
    requires p + |data| <= buffer.Length
    modifies buffer
    ensures q == p + |data| && buffer[..q] == old(buffer[..p]) + data
    ensures forall k :: q <= k < buffer.Length ==> buffer[k] == old(buffer[k])
  {
    forall k | 0 <= k < |data| {
      buffer[p + k] := data[k];
    }
    q := p + |data|;
  }

  /** serialize_to_varint. */
  method PutVarint(buffer: array<byte>, p: nat, n: uint64) returns (q: nat)
    requires p + VarintWidth(n) <= buffer.Length
    modifies buffer
    ensures q == p + VarintWidth(n) && buffer[..q] == old(buffer[..p]) + VarintBytes(n)
    ensures forall k :: q <= k < buffer.Length ==> buffer[k] == old(buffer[k])
  {
    ghost var before := buffer[..p];
    if n < 0xFD {
      q := Put(buffer, p, [n]);
    } else if n <= 0xFFFF {
      q := Put(buffer, p, [0xFD]);
      q := Put(buffer, q, LE(n, 2));
      Assoc(before, [0xFD], LE(n, 2));
    } else if n <= 0xFFFF_FFFF {
      q := Put(buffer, p, [0xFE]);
      q := Put(buffer, q, LE(n, 4));
      Assoc(before, [0xFE], LE(n, 4));
    } else {
      q := Put(buffer, p, [0xFF]);
      q := Put(buffer, q, LE(n, 8));
      Assoc(before, [0xFF], LE(n, 8));
    }
  }

  /** A length followed by that many bytes: scripts and witnesses. */
  method PutVarBytes(buffer: array<byte>, p: nat, s: seq<byte>) returns (q: nat)
    requires |s| < 0x1_0000_0000_0000_0000 && p + |VarBytes(s)| <= buffer.Length
    modifies buffer
    ensures q == p + |VarBytes(s)| && buffer[..q] == old(buffer[..p]) + VarBytes(s)
    ensures forall k :: q <= k < buffer.Length ==> buffer[k] == old(buffer[k])
  {
    ghost var before := buffer[..p];
    q := PutVarint(buffer, p, |s|);
    q := Put(buffer, q, s);
    Assoc(before, VarintBytes(|s|), s);
  }

  method PutTxIn(buffer: array<byte>, p: nat, i: TxIn) returns (q: nat)
    requires |i.script| < 0x1_0000_0000_0000_0000 && p + |TxInBytes(i)| <= buffer.Length
    modifies buffer
    ensures q == p + |TxInBytes(i)| && buffer[..q] == old(buffer[..p]) + TxInBytes(i)
    ensures forall k :: q <= k < buffer.Length ==> buffer[k] == old(buffer[k])
  {
    ghost var before := buffer[..p];
    q := Put(buffer, p, OutpointBytes(i.previous));
    q := PutVarBytes(buffer, q, i.script);
    q := Put(buffer, q, LE(i.sequence, 4));
    Assoc(before, OutpointBytes(i.previous), VarBytes(i.script));
    Assoc(before, OutpointBytes(i.previous) + VarBytes(i.script), LE(i.sequence, 4));
  }

  method PutTxOut(buffer: array<byte>, p: nat, o: TxOut) returns (q: nat)
    requires |o.script| < 0x1_0000_0000_0000_0000 && p + |TxOutBytes(o)| <= buffer.Length
    modifies buffer
    ensures q == p + |TxOutBytes(o)| && buffer[..q] == old(buffer[..p]) + TxOutBytes(o)
    ensures forall k :: q <= k < buffer.Length ==> buffer[k] == old(buffer[k])
  {
    ghost var before := buffer[..p];
    q := Put(buffer, p, LE(Unsigned(o.value), 8));
    q := PutVarBytes(buffer, q, o.script);
    Assoc(before, LE(Unsigned(o.value), 8), VarBytes(o.script));
  }

  /** What serialize_tx_payload needs of its argument: counts and lengths that fit their fields. */
  ghost predicate Serializable(tx: Tx)
  {
    && |tx.inputs| < 0x1_0000_0000_0000_0000 && |tx.outputs| < 0x1_0000_0000_0000_0000
    && (forall i :: i in tx.inputs ==> |i.script| < 0x1_0000_0000_0000_0000)
    && (forall o :: o in tx.outputs ==> |o.script| < 0x1_0000_0000_0000_0000)
    && (forall w :: w in tx.witnesses ==> |w| < 0x1_0000_0000_0000_0000)
    && (tx.HasWitness() ==> |tx.inputs| <= |tx.witnesses|)
  }

  /** The loop of serialize_tx_payload over the inputs. */
  method PutInputs(buffer: array<byte>, p: nat, xs: seq<TxIn>) returns (q: nat)
    requires forall i :: i in xs ==> |i.script| < 0x1_0000_0000_0000_0000
    requires p + |ListBytes(TxInBytes, xs)| <= buffer.Length
    modifies buffer
    ensures q == p + |ListBytes(TxInBytes, xs)| && buffer[..q] == old(buffer[..p]) + ListBytes(TxInBytes, xs)
    ensures forall k :: q <= k < buffer.Length ==> buffer[k] == old(buffer[k])
  {
    ghost var before := buffer[..p];
    q := p;
    for k := 0 to |xs|
      invariant q == p + |ListBytes(TxInBytes, xs[..k])| <= p + |ListBytes(TxInBytes, xs)|
      invariant buffer[..q] == before + ListBytes(TxInBytes, xs[..k])
      invariant forall j :: q <= j < buffer.Length ==> buffer[j] == old(buffer[j])
    {
      ListBytesSnoc(TxInBytes, xs, k);
      Assoc(before, ListBytes(TxInBytes, xs[..k]), TxInBytes(xs[k]));
      q := PutTxIn(buffer, q, xs[k]);
    }
    assert xs[..|xs|] == xs;
  }

  /** The loop of serialize_tx_payload over the outputs. */
  method PutOutputs(buffer: array<byte>, p: nat, xs: seq<TxOut>) returns (q: nat)
    requires forall o :: o in xs ==> |o.script| < 0x1_0000_0000_0000_0000
    requires p + |ListBytes(TxOutBytes, xs)| <= buffer.Length
    modifies buffer
    ensures q == p + |ListBytes(TxOutBytes, xs)| && buffer[..q] == old(buffer[..p]) + ListBytes(TxOutBytes, xs)
    ensures forall k :: q <= k < buffer.Length ==> buffer[k] == old(buffer[k])
  {
    ghost var before := buffer[..p];
    q := p;
    for k := 0 to |xs|
      invariant q == p + |ListBytes(TxOutBytes, xs[..k])| <= p + |ListBytes(TxOutBytes, xs)|
      invariant buffer[..q] == before + ListBytes(TxOutBytes, xs[..k])
      invariant forall j :: q <= j < buffer.Length ==> buffer[j] == old(buffer[j])
    {
      ListBytesSnoc(TxOutBytes, xs, k);
      Assoc(before, ListBytes(TxOutBytes, xs[..k]), TxOutBytes(xs[k]));
      q := PutTxOut(buffer, q, xs[k]);
    }
    assert xs[..|xs|] == xs;
  }

  /** The loop of serialize_tx_payload over the first |xs| witnesses. */
  method PutWitnesses(buffer: array<byte>, p: nat, xs: seq<seq<byte>>) returns (q: nat)
    requires forall w :: w in xs ==> |w| < 0x1_0000_0000_0000_0000
    requires p + |ListBytes(VarBytes, xs)| <= buffer.Length
    modifies buffer
    ensures q == p + |ListBytes(VarBytes, xs)| && buffer[..q] == old(buffer[..p]) + ListBytes(VarBytes, xs)
    ensures forall k :: q <= k < buffer.Length ==> buffer[k] == old(buffer[k])
  {
    ghost var before := buffer[..p];
    q := p;
    for k := 0 to |xs|
      invariant q == p + |ListBytes(VarBytes, xs[..k])| <= p + |ListBytes(VarBytes, xs)|
      invariant buffer[..q] == before + ListBytes(VarBytes, xs[..k])
      invariant forall j :: q <= j < buffer.Length ==> buffer[j] == old(buffer[j])
    {
      ListBytesSnoc(VarBytes, xs, k);
      Assoc(before, ListBytes(VarBytes, xs[..k]), VarBytes(xs[k]));
      q := PutVarBytes(buffer, q, xs[k]);
    }
    assert xs[..|xs|] == xs;
  }

  /** The marker, when there are witnesses, and the counted inputs. */
  method PutInputSection(tx: Tx, buffer: array<byte>, p: nat) returns (q: nat)
    requires Serializable(tx) && p + |InputSection(tx)| <= buffer.Length
    modifies buffer
    ensures q == p + |InputSection(tx)| && buffer[..q] == old(buffer[..p]) + InputSection(tx)
    ensures forall k :: q <= k < buffer.Length ==> buffer[k] == old(buffer[k])
  {
    ghost var before := buffer[..p];
    Assoc3(before, MarkerBytes(tx), Counted(|tx.inputs|), ListBytes(TxInBytes, tx.inputs));
    q := p;
    if tx.HasWitness() {
      q := Put(buffer, q, [tx.marker, tx.flag]);
    }
    assert buffer[..q] == before + MarkerBytes(tx);
    q := PutVarint(buffer, q, |tx.inputs|);
    q := PutInputs(buffer, q, tx.inputs);
  }

  /** The counted outputs, and the witnesses of a transaction that has them. */
  method PutOutputSection(tx: Tx, buffer: array<byte>, p: nat) returns (q: nat)
    requires Serializable(tx) && p + |OutputSection(tx)| <= buffer.Length
    modifies buffer
    ensures q == p + |OutputSection(tx)| && buffer[..q] == old(buffer[..p]) + OutputSection(tx)
    ensures forall k :: q <= k < buffer.Length ==> buffer[k] == old(buffer[k])
  {
    ghost var before, count, outs := buffer[..p], Counted(|tx.outputs|), ListBytes(TxOutBytes, tx.outputs);
    Assoc3(before, count, outs, WitnessBytes(tx));
    q := PutVarint(buffer, p, |tx.outputs|);
    q := PutOutputs(buffer, q, tx.outputs);
    if tx.HasWitness() {
      q := PutWitnesses(buffer, q, tx.witnesses[..|tx.inputs|]);
    }
    assert buffer[..q] == before + count + outs + WitnessBytes(tx);
  }

  ghost function InputSection(tx: Tx): seq<byte> {
    MarkerBytes(tx) + Counted(|tx.inputs|) + ListBytes(TxInBytes, tx.inputs)
  }

  ghost function OutputSection(tx: Tx): seq<byte>
    requires tx.HasWitness() ==> |tx.inputs| <= |tx.witnesses|
  {
    Counted(|tx.outputs|) + ListBytes(TxOutBytes, tx.outputs) + WitnessBytes(tx)
  }

  /** serialize_tx_payload: the buffer holds the transaction's bytes from the cursor on, and nothing later moves. */
  method SerializeTx(tx: Tx, buffer: array<byte>, p: nat) returns (q: nat)
    requires Serializable(tx) && p + |TxBytes(tx)| <= buffer.Length
    modifies buffer
    ensures q == p + |TxBytes(tx)| && buffer[..q] == old(buffer[..p]) + TxBytes(tx)
    ensures forall k :: q <= k < buffer.Length ==> buffer[k] == old(buffer[k])
  {
    ghost var before := buffer[..p];
    InSections(tx);
    q := Put(buffer, p, LE(tx.version, 4));
    q := PutInputSection(tx, buffer, q);
    q := PutOutputSection(tx, buffer, q);
    q := Put(buffer, q, LE(tx.lockTime, 4));
    Assoc4(before, LE(tx.version, 4), InputSection(tx), OutputSection(tx), LE(tx.lockTime, 4));
  }

  lemma InSections(tx: Tx)
    requires Serializable(tx)
    ensures TxBytes(tx) == LE(tx.version, 4) + InputSection(tx) + OutputSection(tx) + LE(tx.lockTime, 4)
  {
    var v, m, c, i := LE(tx.version, 4), MarkerBytes(tx), Counted(|tx.inputs|), ListBytes(TxInBytes, tx.inputs);
    Assoc3(v, m, c, i);
    Assoc3(v + m + c + i, Counted(|tx.outputs|), ListBytes(TxOutBytes, tx.outputs), WitnessBytes(tx));
  }

  // ----- reading -----

  /** A cursor reading `r` from `buffer` leaves it at the suffix from `q` on. */
  ghost predicate Read<T>(r: Parse<T>, buffer: seq<byte>, ok: bool, x: T, q: nat)
  {
    if ok then q <= |buffer| && r == Done(Parsed(x, buffer[q..])) else r == Overrun
  }

  method GetUint32(buffer: seq<byte>, p: nat) returns (ok: bool, n: uint32, q: nat)
    requires p <= |buffer|
    ensures Read(TakeUint32(buffer[p..]), buffer, ok, n, q)
  {
    ok, n, q := p + 4 <= |buffer|, 0, p;
    if ok {
      n, q := CombineUint32(buffer[p..p + 4]), p + 4;
      assert buffer[p..][..4] == buffer[p..q] && buffer[p..][4..] == buffer[q..];
    }
  }

  /** parse_varint. */
  method GetVarint(buffer: seq<byte>, p: nat) returns (ok: bool, n: uint64, q: nat)
    requires p <= |buffer|
    ensures Read(ParseVarint(buffer[p..]), buffer, ok, n, q)
  {
    ok, n, q := false, 0, p;
    if p == |buffer| { return; }
    var width := match buffer[p] case 0xFD => 3 case 0xFE => 5 case 0xFF => 9 case _ => 1;
    if p + width > |buffer| { return; }
    q := p + width;
    ok := true;
    var body := buffer[p + 1..q];
    assert buffer[p..][..1] == [buffer[p]] && buffer[p..][1..] == buffer[p + 1..];
    assert buffer[p + 1..][..width - 1] == body && buffer[p + 1..][width - 1..] == buffer[q..];
    match buffer[p]
    case 0xFD => n := CombineUint16(body);
    case 0xFE => n := CombineUint32(body);
    case 0xFF => n := CombineUint64(body);
    case _ => n := buffer[p];
  }

  method GetVarBytes(buffer: seq<byte>, p: nat) returns (ok: bool, s: seq<byte>, q: nat)
    requires p <= |buffer|
    ensures Read(ParseVarBytes(buffer[p..]), buffer, ok, s, q)
  {
    var n;
    s := [];
    ok, n, q := GetVarint(buffer, p);
    if !ok { return; }
    ok := q + n <= |buffer|;
    if !ok { return; }
    s := buffer[q..q + n];
    assert buffer[q..][..n] == s && buffer[q..][n..] == buffer[q + n..];
    q := q + n;
  }

  method GetTxIn(buffer: seq<byte>, p: nat) returns (ok: bool, i: TxIn, q: nat)
    requires p <= |buffer|
    ensures Read(ParseTxIn(buffer[p..]), buffer, ok, i, q)
  {
    i, q := TxIn(Outpoint(ZERO_HASH, 0), [], 0), p;
    ok := p + 36 <= |buffer|;
    if !ok { return; }
    var previous := Outpoint(buffer[p..p + 32], CombineUint32(buffer[p + 32..p + 36]));
    OutpointAt(buffer, p);
    var script;
    ok, script, q := GetVarBytes(buffer, p + 36);
    if !ok { return; }
    var sequence;
    ok, sequence, q := GetUint32(buffer, q);
    i := TxIn(previous, script, sequence);
  }

  lemma SliceAt(buffer: seq<byte>, q: nat, n: nat)
    requires q + n <= |buffer|
    ensures Take(buffer[q..], n) == Done(Parsed(buffer[q..q + n], buffer[q + n..]))
  {
    assert buffer[q..][..n] == buffer[q..q + n] && buffer[q..][n..] == buffer[q + n..];
  }

  lemma OutpointAt(buffer: seq<byte>, p: nat)
    requires p + 36 <= |buffer|
    ensures ParseOutpoint(buffer[p..])
         == Done(Parsed(Outpoint(buffer[p..p + 32], CombineUint32(buffer[p + 32..p + 36])), buffer[p + 36..]))
  {
    SliceAt(buffer, p, 32);
    SliceAt(buffer, p + 32, 4);
  }

  method GetTxOut(buffer: seq<byte>, p: nat) returns (ok: bool, o: TxOut, q: nat)
    requires p <= |buffer|
    ensures Read(ParseTxOut(buffer[p..]), buffer, ok, o, q)
  {
    o, q := TxOut(0, []), p;
    ok := p + 8 <= |buffer|;
    if !ok { return; }
    SliceAt(buffer, p, 8);
    FromLEBound8(buffer[p..p + 8]);
    var value := Signed(FromLE(buffer[p..p + 8]));
    var script;
    ok, script, q := GetVarBytes(buffer, p + 8);
    o := TxOut(value, script);
  }

  /** `item` parses as `model` does; a loop that knows no more of its items does not look into them. */
  ghost predicate Same<T>(item: seq<byte> -> Parse<T>, model: seq<byte> -> Parse<T>)
  {
    forall s {:trigger Seen(s)} :: Seen(s) ==> item(s) == model(s)
  }

  ghost predicate Seen(s: seq<byte>)
  {
    true
  }

  lemma SameAt<T>(item: seq<byte> -> Parse<T>, model: seq<byte> -> Parse<T>, s: seq<byte>)
    requires Same(item, model)
    ensures item(s) == model(s)
  {
    assert Seen(s);
  }

  /** A loop has read `xs`, stands at `q` and has `n` items left of the list `whole`. */
  ghost predicate Reading<T>(item: seq<byte> -> Parse<T>, n: nat, buffer: seq<byte>, q: nat, xs: seq<T>, whole: Parse<seq<T>>)
  {
    q <= |buffer| && ParseOnto(item, n, buffer[q..], xs) == whole
  }

  /** One turn of a parsing loop. */
  lemma ReadOn<T>(item: seq<byte> -> Parse<T>, n: nat, buffer: seq<byte>, p: nat, xs: seq<T>, whole: Parse<seq<T>>,
                  ok: bool, x: T, q: nat)
    requires n > 0 && Reading(item, n, buffer, p, xs, whole) && Read(item(buffer[p..]), buffer, ok, x, q)
    ensures if ok then Reading(item, n - 1, buffer, q, xs + [x], whole) else whole == Overrun
  {
  }

  /** The parsing loops of parse_into_tx_payload, each for a known number of items. */
  method GetInputsLoop(buffer: seq<byte>, p: nat, n: nat, ghost item: seq<byte> -> Parse<TxIn>)
    returns (ok: bool, xs: seq<TxIn>, q: nat)
    requires p <= |buffer| && Same(item, ParseTxIn)
    ensures Read(ParseList(item, n, buffer[p..]), buffer, ok, xs, q)
  {
    ok, xs, q := true, [], p;
    ghost var whole := ParseList(item, n, buffer[p..]);
    for k := 0 to n
      invariant ok && Reading(item, n - k, buffer, q, xs, whole)
    {
      var x;
      ghost var from := q;
      ok, x, q := GetNextInput(buffer, q, item);
      ReadOn(item, n - k, buffer, from, xs, whole, ok, x, q);
      if !ok { return; }
      xs := xs + [x];
    }
  }

  method GetNextInput(buffer: seq<byte>, p: nat, ghost item: seq<byte> -> Parse<TxIn>) returns (ok: bool, x: TxIn, q: nat)
    requires p <= |buffer| && Same(item, ParseTxIn)
    ensures Read(item(buffer[p..]), buffer, ok, x, q)
  {
    ok, x, q := GetTxIn(buffer, p);
    SameAt(item, ParseTxIn, buffer[p..]);
  }

  method GetOutputsLoop(buffer: seq<byte>, p: nat, n: nat, ghost item: seq<byte> -> Parse<TxOut>)
    returns (ok: bool, xs: seq<TxOut>, q: nat)
    requires p <= |buffer| && Same(item, ParseTxOut)
    ensures Read(ParseList(item, n, buffer[p..]), buffer, ok, xs, q)
  {
    ok, xs, q := true, [], p;
    ghost var whole := ParseList(item, n, buffer[p..]);
    for k := 0 to n
      invariant ok && Reading(item, n - k, buffer, q, xs, whole)
    {
      var x;
      ghost var from := q;
      ok, x, q := GetNextOutput(buffer, q, item);
      ReadOn(item, n - k, buffer, from, xs, whole, ok, x, q);
      if !ok { return; }
      xs := xs + [x];
    }
  }

  method GetNextOutput(buffer: seq<byte>, p: nat, ghost item: seq<byte> -> Parse<TxOut>) returns (ok: bool, x: TxOut, q: nat)
    requires p <= |buffer| && Same(item, ParseTxOut)
    ensures Read(item(buffer[p..]), buffer, ok, x, q)
  {
    ok, x, q := GetTxOut(buffer, p);
    SameAt(item, ParseTxOut, buffer[p..]);
  }

  method GetWitnessesLoop(buffer: seq<byte>, p: nat, n: nat, ghost item: seq<byte> -> Parse<seq<byte>>)
    returns (ok: bool, xs: seq<seq<byte>>, q: nat)
    requires p <= |buffer| && Same(item, ParseVarBytes)
    ensures Read(ParseList(item, n, buffer[p..]), buffer, ok, xs, q)
  {
    ok, xs, q := true, [], p;
    ghost var whole := ParseList(item, n, buffer[p..]);
    for k := 0 to n
      invariant ok && Reading(item, n - k, buffer, q, xs, whole)
    {
      var x;
      ghost var from := q;
      ok, x, q := GetNextWitness(buffer, q, item);
      ReadOn(item, n - k, buffer, from, xs, whole, ok, x, q);
      if !ok { return; }
      xs := xs + [x];
    }
  }

  method GetNextWitness(buffer: seq<byte>, p: nat, ghost item: seq<byte> -> Parse<seq<byte>>) returns (ok: bool, x: seq<byte>, q: nat)
    requires p <= |buffer| && Same(item, ParseVarBytes)
    ensures Read(item(buffer[p..]), buffer, ok, x, q)
  {
    ok, x, q := GetVarBytes(buffer, p);
    SameAt(item, ParseVarBytes, buffer[p..]);
  }

  method GetInputs(buffer: seq<byte>, p: nat) returns (ok: bool, xs: seq<TxIn>, q: nat)
    requires p <= |buffer|
    ensures Read(ParseCounted(ParseTxIn, buffer[p..]), buffer, ok, xs, q)
  {
    var n;
    xs := [];
    ok, n, q := GetVarint(buffer, p);
    if ok {
      ok, xs, q := GetInputsLoop(buffer, q, n, ParseTxIn);
    }
  }

  method GetOutputs(buffer: seq<byte>, p: nat) returns (ok: bool, xs: seq<TxOut>, q: nat)
    requires p <= |buffer|
    ensures Read(ParseCounted(ParseTxOut, buffer[p..]), buffer, ok, xs, q)
  {
    var n;
    xs := [];
    ok, n, q := GetVarint(buffer, p);
    if ok {
      ok, xs, q := GetOutputsLoop(buffer, q, n, ParseTxOut);
    }
  }

  /** parse_into_tx_payload after the version and the marker. */
  method ParseIntoTxBody(buffer: seq<byte>, p: nat, version: uint32, hasWitness: bool) returns (ok: bool, tx: Tx, q: nat)
    requires p <= |buffer|
    ensures Read(ParseTxBody(version, hasWitness, buffer[p..]), buffer, ok, tx, q)
  {
    tx := Tx(0, 0, 0, [], [], [], 0);
    var inputs, outputs, witnesses;
    ok, inputs, q := GetInputs(buffer, p);
    if !ok { return; }
    ok, outputs, q := GetOutputs(buffer, q);
    if !ok { return; }
    ok, witnesses, q := GetWitnessesLoop(buffer, q, if hasWitness then |inputs| else 0, ParseVarBytes);
    if !ok { return; }
    var lockTime;
    ok, lockTime, q := GetUint32(buffer, q);
    tx := Tx(version, 0, if hasWitness then 1 else 0, inputs, outputs, witnesses, lockTime);
  }

  /** parse_into_tx_payload. */
  method ParseIntoTx(buffer: seq<byte>, p: nat) returns (ok: bool, tx: Tx, q: nat)
    requires p <= |buffer|
    ensures Read(ParseTx(buffer[p..]), buffer, ok, tx, q)
  {
    if p + 6 > |buffer| {
      if p + 4 <= |buffer| { SliceAt(buffer, p, 4); }
      return false, Tx(0, 0, 0, [], [], [], 0), p;
    }
    SliceAt(buffer, p, 4);
    SliceAt(buffer, p + 4, 2);
    var hasWitness := buffer[p + 4] == 0 && buffer[p + 5] == 1;
    assert buffer[p + 4..p + 6] == [buffer[p + 4], buffer[p + 5]];
    ok, tx, q := ParseIntoTxBody(buffer, if hasWitness then p + 6 else p + 4, CombineUint32(buffer[p..p + 4]), hasWitness);
  }

  /** The loop of serialize_block_payload over the transactions. */
  method PutTxs(buffer: array<byte>, p: nat, xs: seq<Tx>) returns (q: nat)
    requires forall tx :: tx in xs ==> Serializable(tx)
    requires p + |ListBytes(TxItemBytes, xs)| <= buffer.Length
    modifies buffer
    ensures q == p + |ListBytes(TxItemBytes, xs)| && buffer[..q] == old(buffer[..p]) + ListBytes(TxItemBytes, xs)
    ensures forall k :: q <= k < buffer.Length ==> buffer[k] == old(buffer[k])
  {
    ghost var before := buffer[..p];
    q := p;
    for k := 0 to |xs|
      invariant q == p + |ListBytes(TxItemBytes, xs[..k])| <= p + |ListBytes(TxItemBytes, xs)|
      invariant buffer[..q] == before + ListBytes(TxItemBytes, xs[..k])
      invariant forall j :: q <= j < buffer.Length ==> buffer[j] == old(buffer[j])
    {
      ListBytesSnoc(TxItemBytes, xs, k);
      Assoc(before, ListBytes(TxItemBytes, xs[..k]), TxItemBytes(xs[k]));
      q := SerializeTx(xs[k], buffer, q);
    }
    assert xs[..|xs|] == xs;
  }

  /** serialize_block_payload_header: six fields, one after the other. */
  method PutHeader(buffer: array<byte>, p: nat, h: Header) returns (q: nat)
    requires p + 80 <= buffer.Length
    modifies buffer
    ensures q == p + 80 && buffer[..q] == old(buffer[..p]) + HeaderBytes(h)
    ensures forall k :: q <= k < buffer.Length ==> buffer[k] == old(buffer[k])
  {
    ghost var before := buffer[..p];
    q := Put(buffer, p, LE(h.version, 4));
    q := Put(buffer, q, h.prevBlock);
    q := Put(buffer, q, h.merkleRoot);
    q := Put(buffer, q, LE(h.timestamp, 4));
    q := Put(buffer, q, LE(h.target, 4));
    q := Put(buffer, q, LE(h.nonce, 4));
    Assoc6(before, LE(h.version, 4), h.prevBlock, h.merkleRoot, LE(h.timestamp, 4), LE(h.target, 4), LE(h.nonce, 4));
  }

  lemma Assoc6(s: seq<byte>, a: seq<byte>, b: seq<byte>, c: seq<byte>, d: seq<byte>, e: seq<byte>, f: seq<byte>)
    ensures s + a + b + c + d + e + f == s + (a + b + c + d + e + f)
  {
    Assoc3(s, a, b, c);
    Assoc3(s, a + b + c, d, e);
    Assoc(s, a + b + c + d + e, f);
  }

  /** serialize_block_payload. */
  method SerializeBlock(block: Block, buffer: array<byte>, p: nat) returns (q: nat)
    requires |block.txs| < 0x1_0000_0000_0000_0000 && forall tx :: tx in block.txs ==> Serializable(tx)
    requires p + |BlockBytes(block)| <= buffer.Length
    modifies buffer
    ensures q == p + |BlockBytes(block)| && buffer[..q] == old(buffer[..p]) + BlockBytes(block)
    ensures forall k :: q <= k < buffer.Length ==> buffer[k] == old(buffer[k])
  {
    ghost var before, header, count := buffer[..p], HeaderBytes(block.header), Counted(|block.txs|);
    q := PutHeader(buffer, p, block.header);
    q := PutVarint(buffer, q, |block.txs|);
    q := PutTxs(buffer, q, block.txs);
    Assoc(before, header, count);
    Assoc(before, header + count, ListBytes(TxItemBytes, block.txs));
  }

  /** The loop of parse_into_block_payload over the transactions. */
  method GetTxs(buffer: seq<byte>, p: nat, n: nat, ghost item: seq<byte> -> Parse<Tx>)
    returns (ok: bool, xs: seq<Tx>, q: nat)
    requires p <= |buffer| && Same(item, ParseTx)
    ensures Read(ParseList(item, n, buffer[p..]), buffer, ok, xs, q)
  {
    ok, xs, q := true, [], p;
    ghost var whole := ParseList(item, n, buffer[p..]);
    for k := 0 to n
      invariant ok && Reading(item, n - k, buffer, q, xs, whole)
    {
      var x;
      ghost var from := q;
      ok, x, q := GetNextTx(buffer, q, item);
      ReadOn(item, n - k, buffer, from, xs, whole, ok, x, q);
      if !ok { return; }
      xs := xs + [x];
    }
  }

  method GetNextTx(buffer: seq<byte>, p: nat, ghost item: seq<byte> -> Parse<Tx>) returns (ok: bool, x: Tx, q: nat)
    requires p <= |buffer| && Same(item, ParseTx)
    ensures Read(item(buffer[p..]), buffer, ok, x, q)
  {
    ok, x, q := ParseIntoTx(buffer, p);
    SameAt(item, ParseTx, buffer[p..]);
  }

  method GetHash(buffer: seq<byte>, p: nat) returns (ok: bool, h: Hash, q: nat)
    requires p <= |buffer|
    ensures Read(ParseHash(buffer[p..]), buffer, ok, h, q)
  {
    ok, h, q := p + 32 <= |buffer|, ZERO_HASH, p;
    if ok {
      SliceAt(buffer, p, 32);
      h, q := buffer[p..p + 32], p + 32;
    }
  }

  /** parse_block_payload_header: six fields, one after the other. */
  method GetHeader(buffer: seq<byte>, p: nat) returns (ok: bool, h: Header, q: nat)
    requires p <= |buffer|
    ensures Read(ParseHeader(buffer[p..]), buffer, ok, h, q)
  {
    h := Header(0, ZERO_HASH, ZERO_HASH, 0, 0, 0);
    var version, prevBlock, merkleRoot, timestamp, target, nonce;
    ok, version, q := GetUint32(buffer, p);
    if !ok { return; }
    ok, prevBlock, q := GetHash(buffer, q);
    if !ok { return; }
    ok, merkleRoot, q := GetHash(buffer, q);
    if !ok { return; }
    ok, timestamp, q := GetUint32(buffer, q);
    if !ok { return; }
    ok, target, q := GetUint32(buffer, q);
    if !ok { return; }
    ok, nonce, q := GetUint32(buffer, q);
    h := Header(version, prevBlock, merkleRoot, timestamp, target, nonce);
  }

  /** parse_into_block_payload. */
  method ParseIntoBlock(buffer: seq<byte>, p: nat) returns (ok: bool, block: Block, q: nat)
    requires p <= |buffer|
    ensures Read(ParseBlock(buffer[p..]), buffer, ok, block, q)
  {
    block := Block(Header(0, ZERO_HASH, ZERO_HASH, 0, 0, 0), []);
    var header, n, txs;
    ok, header, q := GetHeader(buffer, p);
    if !ok { return; }
    ok, n, q := GetVarint(buffer, q);
    if !ok { return; }
    ok, txs, q := GetTxs(buffer, q, n, ParseTx);
    block := Block(header, txs);
  }
}
