/** Signature normalisation: parse_der, fix_signature and serialize_der of src/script.c. */
module Der {
  import opened Bytes
  import opened Numerals
  import opened Script
  import opened CodecBuffer

  /** A SignatureComponent; its length is a signed byte. */
  datatype Component = Component(kind: byte, data: seq<byte>)

  datatype DerSignature = DerSignature(sequence: byte, length: byte, r: Component, s: Component)

  // ----- one component -----

  function StripZeros(s: seq<byte>): (r: seq<byte>) {
    if s != [] && s[0] == 0 then StripZeros(s[1..]) else s
  }

  /** fix_signature_component_preceding_zeros: no leading zeros, then one if the top bit is set. */
  function Normal(s: seq<byte>): (r: seq<byte>) {
    var t := StripZeros(s);
    if t != [] && t[0] >= 128 then [0] + t else t
  }

  lemma {:induction false} StripZerosKeepsValue(s: seq<byte>)
    ensures FromBE(StripZeros(s)) == FromBE(s)
    ensures StripZeros(s) != [] ==> StripZeros(s)[0] != 0
    ensures |StripZeros(s)| <= |s|
  {
    if s != [] && s[0] == 0 {
      StripZerosKeepsValue(s[1..]);
    }
  }

  /** The unsigned value stays, and the numeral is minimal with a clear top bit. */
  lemma NormalKeepsValue(s: seq<byte>)
    ensures FromBE(Normal(s)) == FromBE(s) && Minimal(Normal(s))
    ensures Normal(s) == [] <==> FromBE(s) == 0
  {
    StripZerosKeepsValue(s);
    var t := StripZeros(s);
    assert ([0] + t)[1..] == t;
    if t != [] {
      NonZeroLead(t);
    }
  }

  lemma NonZeroLead(t: seq<byte>)
    requires t != [] && t[0] != 0
    ensures FromBE(t) >= Pow256(|t| - 1)
  {
    MulMonotone(1, t[0], Pow256(|t| - 1));
  }

  /** Two components get the same bytes exactly when they have the same unsigned value. */
  lemma NormalCanonical(a: seq<byte>, b: seq<byte>)
    ensures Normal(a) == Normal(b) <==> FromBE(a) == FromBE(b)
  {
    NormalKeepsValue(a);
    NormalKeepsValue(b);
    if FromBE(a) == FromBE(b) {
      MinimalUnique(Normal(a), Normal(b));
    }
  }

  lemma NormalIdempotent(s: seq<byte>)
    ensures Normal(Normal(s)) == Normal(s)
  {
    NormalKeepsValue(s);
    NormalCanonical(Normal(s), s);
  }

  /** The width stays within a signed byte unless 127 bytes start with the top bit set. */
  predicate StaysShort(s: seq<byte>) {
    |s| <= 126 || (|s| == 127 && s[0] < 128)
  }

  /** For a component a signed length byte can hold, the fixed one fits too exactly when it stays short. */
  lemma NormalStaysShort(s: seq<byte>)
    requires |s| <= 127
    ensures |Normal(s)| <= 127 <==> StaysShort(s)
    ensures StaysShort(s) ==> StaysShort(Normal(s))
  {
    StripZerosKeepsValue(s);
    NormalKeepsValue(s);
    if |s| == 127 && s[0] == 0 {
      StripZerosKeepsValue(s[1..]);
    }
  }

  /** The component's buffer, shifted in place; overlapping copies behave as memmove. */
  method FixComponent(data: array<byte>, length: nat) returns (width: nat, offset: int)
    requires length < data.Length && StaysShort(data[..length])
    requires length == 0 ==> data[0] == 0
    modifies data
    ensures width <= data.Length && data[..width] == Normal(old(data[..length])) && offset == width - length
  {
    width := length;
    while data[0] == 0 && width > 0
      invariant width <= length && StripZeros(data[..width]) == StripZeros(old(data[..length]))
      invariant width == 0 ==> data[0] == 0
    {
      ghost var was := data[..width];
      forall k | 0 <= k < width - 1 {
        data[k] := data[k + 1];
      }
      width := width - 1;
      assert data[..width] == was[1..];
    }
    ghost var stripped := data[..width];
    if data[0] >= 128 {
      forall k | 0 <= k < width {
        data[k + 1] := data[k];
      }
      data[0] := 0;
      width := width + 1;
      assert data[..width] == [0] + stripped;
    }
    offset := width - length;
  }

  // ----- the whole signature -----

  function ParseDer(frame: seq<byte>): (sig: DerSignature) {
    var rLen := Peek(frame, 3);
    var sLen := Peek(frame, 5 + rLen);
    DerSignature(Peek(frame, 0), Peek(frame, 1),
                 Component(Peek(frame, 2), PeekSlice(frame, 4, rLen)),
                 Component(Peek(frame, 4 + rLen), PeekSlice(frame, 6 + rLen, sLen)))
  }

  function ComponentBytes(c: Component): (b: seq<byte>) {
    [c.kind, |c.data| % 256] + c.data
  }

  function SerializeDer(sig: DerSignature): (b: seq<byte>) {
    [sig.sequence, sig.length] + ComponentBytes(sig.r) + ComponentBytes(sig.s)
  }

  /** fix_signature: the length field follows the two components, in eight bits. */
  function FixSignature(sig: DerSignature): (fixed: DerSignature) {
    sig.(length := (sig.length + Offsets(sig)) % 256,
         r := sig.r.(data := Normal(sig.r.data)), s := sig.s.(data := Normal(sig.s.data)))
  }

  /** The sum of the two offsets fix_signature_component_preceding_zeros returns. */
  function Offsets(sig: DerSignature): (d: int) {
    (|Normal(sig.r.data)| - |sig.r.data|) + (|Normal(sig.s.data)| - |sig.s.data|)
  }

  /** What fix_signature_frame writes to the front of the frame. */
  function FixFrame(frame: seq<byte>): (b: seq<byte>) {
    SerializeDer(FixSignature(ParseDer(frame)))
  }

  predicate ShortSignature(sig: DerSignature) {
    StaysShort(sig.r.data) && StaysShort(sig.s.data)
  }

  /** A serialized signature is read back, whatever follows it. */
  lemma ParseOfSerialize(sig: DerSignature, rest: seq<byte>)
    requires |sig.r.data| < 256 && |sig.s.data| < 256
    ensures ParseDer(SerializeDer(sig) + rest) == sig
  {
    var b := SerializeDer(sig) + rest;
    var n := |sig.r.data|;
    assert b[2] == sig.r.kind && b[3] == n;
    assert b[4..4 + n] == sig.r.data;
    assert b[4 + n] == sig.s.kind && b[5 + n] == |sig.s.data|;
    assert b[6 + n..6 + n + |sig.s.data|] == sig.s.data;
  }

  predicate LengthRight(sig: DerSignature) {
    sig.length == (4 + |sig.r.data| + |sig.s.data|) % 256
  }

  /** Same values and kinds, minimal numerals, and a length field as right as it was. */
  ghost predicate Normalises(before: DerSignature, after: DerSignature) {
    && FromBE(after.r.data) == FromBE(before.r.data) && FromBE(after.s.data) == FromBE(before.s.data)
    && Minimal(after.r.data) && Minimal(after.s.data)
    && after.sequence == before.sequence && after.r.kind == before.r.kind && after.s.kind == before.s.kind
    && (LengthRight(after) <==> LengthRight(before))
  }

  lemma FixNormalises(before: DerSignature)
    ensures Normalises(before, FixSignature(before))
  {
    NormalKeepsValue(before.r.data);
    NormalKeepsValue(before.s.data);
    FixKeepsLength(before);
  }

  lemma FixKeepsLength(before: DerSignature)
    ensures LengthRight(FixSignature(before)) <==> LengthRight(before)
  {
    LengthFollows(before.length, Offsets(before), 4 + |before.r.data| + |before.s.data|);
  }

  lemma FixIdempotent(before: DerSignature)
    ensures FixSignature(FixSignature(before)) == FixSignature(before)
  {
    NormalIdempotent(before.r.data);
    NormalIdempotent(before.s.data);
    assert Offsets(FixSignature(before)) == 0;
  }

  /**
   * Parse, fix, serialize: the values of r and s stay, each is minimal with a clear top bit, the length field is
   * right afterwards exactly when it was right before, and fixing again changes nothing, whatever follows.
   */
  lemma FixFrameNormalises(frame: seq<byte>, rest: seq<byte>)
    requires ShortSignature(ParseDer(frame))
    ensures Normalises(ParseDer(frame), ParseDer(FixFrame(frame) + rest))
    ensures FixFrame(FixFrame(frame) + rest) == FixFrame(frame)
  {
    var before := ParseDer(frame);
    NormalStaysShort(before.r.data);
    NormalStaysShort(before.s.data);
    ParseOfSerialize(FixSignature(before), rest);
    FixNormalises(before);
    FixIdempotent(before);
  }

  lemma LengthFollows(length: byte, delta: int, content: nat)
    requires content + delta >= 0
    ensures (length + delta) % 256 == (content + delta) % 256 <==> length == content % 256
  {
    var k := content / 256;
    assert content + delta == (content % 256 + delta) + 256 * k;
    assert (content + delta) % 256 == (content % 256 + delta) % 256;
  }

  const MAX_SIGNATURE_DATA := 128

  /** A component in its zeroed 128-byte buffer, fixed there. */
  method FixInBuffer(s: seq<byte>) returns (fixed: seq<byte>, offset: int)
    requires StaysShort(s)
    ensures fixed == Normal(s) && offset == |fixed| - |s|
  {
    var data := new byte[MAX_SIGNATURE_DATA](i requires 0 <= i => if i < |s| then s[i] else 0);
    assert data[..|s|] == s;
    var width;
    width, offset := FixComponent(data, |s|);
    fixed := data[..width];
  }

  /** fix_signature. */
  method FixComponents(sig: DerSignature) returns (fixed: DerSignature)
    requires ShortSignature(sig)
    ensures fixed == FixSignature(sig)
  {
    var r, rOffset := FixInBuffer(sig.r.data);
    var s, sOffset := FixInBuffer(sig.s.data);
    fixed := DerSignature(sig.sequence, (sig.length + (rOffset + sOffset)) % 256, Component(sig.r.kind, r), Component(sig.s.kind, s));
  }

  /** serialize_elliptic_point, at a cursor. */
  method PutComponent(buffer: array<byte>, p: nat, c: Component) returns (q: nat)
    requires p + |ComponentBytes(c)| <= buffer.Length
    modifies buffer
    ensures q == p + |ComponentBytes(c)| && buffer[..q] == old(buffer[..p]) + ComponentBytes(c)
    ensures forall k :: q <= k < buffer.Length ==> buffer[k] == old(buffer[k])
  {
    ghost var before := buffer[..p];
    q := Put(buffer, p, [c.kind, |c.data| % 256]);
    q := Put(buffer, q, c.data);
    Assoc(before, [c.kind, |c.data| % 256], c.data);
  }

  /** serialize_der, to the front of a buffer. */
  method PutDer(sig: DerSignature, buffer: array<byte>) returns (width: nat)
    requires |SerializeDer(sig)| <= buffer.Length
    modifies buffer
    ensures width == |SerializeDer(sig)| && buffer[..width] == SerializeDer(sig)
    ensures buffer[width..] == old(buffer[..])[width..]
  {
    width := Put(buffer, 0, [sig.sequence, sig.length]);
    width := PutComponent(buffer, width, sig.r);
    width := PutComponent(buffer, width, sig.s);
  }

  /** fix_signature_frame: the serialized signature overwrites the front of the frame; its width, less the hashtype byte, is returned. */
  method FixSignatureFrame(frame: array<byte>) returns (width: nat)
    requires ShortSignature(ParseDer(frame[..])) && |FixFrame(frame[..])| <= frame.Length
    modifies frame
    ensures width == |FixFrame(old(frame[..]))| && frame[..width] == FixFrame(old(frame[..]))
    ensures frame[width..] == old(frame[..])[width..]
  {
    var fixed := FixComponents(ParseDer(frame[..]));
    width := PutDer(fixed, frame);
  }
}
