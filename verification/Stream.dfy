/** Message framing over a byte stream (find_first_magic to on_incoming_segment in src/communication.c). */
module Stream {
  import opened Bytes

  const MAGIC: uint32 := 0xD9B4BEF9
  const HEADER_SIZE := 24

  predicate StartsWithMagic(s: seq<byte>)
    requires |s| >= 4
  {
    CombineUint32(s[..4]) == MAGIC
  }

  /** find_first_magic from position `i`: a magic in the last four bytes is not looked for. */
  function FindMagic(s: seq<byte>, i: nat): (at: int)
    ensures at == -1 || (i <= at && at + 4 < |s| && StartsWithMagic(s[at..]))
    decreases |s| - i
  {
    if i + 4 >= |s| then -1 else if StartsWithMagic(s[i..]) then i else FindMagic(s, i + 1)
  }

  /** The length field, at bytes 16 to 19 of a header. */
  function PayloadLength(s: seq<byte>): (n: uint32)
    requires |s| >= HEADER_SIZE
  {
    CombineUint32(s[16..20])
  }

  /** A whole message stands at the front of the buffer. */
  predicate Complete(s: seq<byte>) {
    |s| >= HEADER_SIZE && |s| >= HEADER_SIZE + PayloadLength(s)
  }

  /** One turn of the extraction loop: a message and the bytes after it, or nothing more for now. */
  datatype Turn = Wait(left: seq<byte>) | Take(message: seq<byte>, rest: seq<byte>)

  function NextTurn(s: seq<byte>): (t: Turn)
    ensures t.Take? ==> |t.message| >= HEADER_SIZE && |t.message| + |t.rest| <= |s|
  {
    var at := FindMagic(s, 0);
    if at < 0 then Wait(s)
    else if Complete(s[at..]) then
      var size := HEADER_SIZE + PayloadLength(s[at..]);
      Take(s[at..][..size], s[at..][size..])
    else Wait(s[at..])
  }

  /** The messages taken from a buffer, and what stays in it. */
  datatype Extracted = Extracted(messages: seq<seq<byte>>, left: seq<byte>)

  /** extract_message_from_stream_buffer; every message removes at least a header from the buffer. */
  function Extract(s: seq<byte>): (r: Extracted)
    decreases |s|
  {
    match NextTurn(s)
    case Wait(left) => Extracted([], left)
    case Take(m, rest) => Before([m], Extract(rest))
  }

  function Before(messages: seq<seq<byte>>, r: Extracted): (q: Extracted) {
    Extracted(messages + r.messages, r.left)
  }

  /** Later bytes do not move the first magic already found. */
  lemma {:induction false} FindMagicStable(a: seq<byte>, b: seq<byte>, i: nat)
    requires FindMagic(a, i) >= 0
    ensures FindMagic(a + b, i) == FindMagic(a, i)
    decreases |a| - i
  {
    assert (a + b)[i..][..4] == a[i..][..4];
    if !StartsWithMagic(a[i..]) {
      FindMagicStable(a, b, i + 1);
    }
  }

  /** A buffer that starts with a magic, and holds more than it, is trimmed no further. */
  lemma FindMagicAtFront(t: seq<byte>, b: seq<byte>)
    requires |t| > 4 && StartsWithMagic(t)
    ensures FindMagic(t + b, 0) == 0
  {
    assert (t + b)[0..][..4] == t[..4];
  }

  lemma CompleteStable(t: seq<byte>, b: seq<byte>)
    requires |t| >= HEADER_SIZE
    ensures PayloadLength(t + b) == PayloadLength(t)
    ensures Complete(t) ==> Complete(t + b)
  {
    assert (t + b)[16..20] == t[16..20];
  }

  /** More bytes behind the buffer: a message taken stays the same, and waiting loses nothing. */
  lemma TurnStable(a: seq<byte>, b: seq<byte>)
    ensures match NextTurn(a)
            case Wait(left) => NextTurn(left + b) == NextTurn(a + b)
            case Take(m, rest) => NextTurn(a + b) == Take(m, rest + b)
  {
    var at := FindMagic(a, 0);
    if at >= 0 {
      var t := a[at..];
      FindMagicStable(a, b, 0);
      assert (a + b)[at..] == t + b;
      if Complete(t) {
        CompleteStable(t, b);
        var size := HEADER_SIZE + PayloadLength(t);
        assert (t + b)[..size] == t[..size] && (t + b)[size..] == t[size..] + b;
      } else {
        FindMagicAtFront(t, b);
        assert (t + b)[0..] == t + b;
      }
    }
  }

  /** Feeding the leftover of `a` and then `b` is feeding `a + b` at once. */
  lemma {:induction false} ExtractResumes(a: seq<byte>, b: seq<byte>)
    ensures Extract(a + b) == Before(Extract(a).messages, Extract(Extract(a).left + b))
    decreases |a|
  {
    TurnStable(a, b);
    match NextTurn(a)
    case Wait(left) =>
      SameTurn(left + b, a + b);
      BeforeNothing(Extract(a + b));
    case Take(m, rest) =>
      ExtractResumes(rest, b);
      BeforeTwice([m], Extract(rest).messages, Extract(Extract(rest).left + b));
  }

  lemma BeforeNothing(r: Extracted)
    ensures Before([], r) == r
  {
    assert [] + r.messages == r.messages;
  }

  lemma BeforeTwice(a: seq<seq<byte>>, b: seq<seq<byte>>, r: Extracted)
    ensures Before(a, Before(b, r)) == Before(a + b, r)
  {
    assert a + (b + r.messages) == a + b + r.messages;
  }

  lemma SameTurn(a: seq<byte>, b: seq<byte>)
    requires NextTurn(a) == NextTurn(b)
    ensures Extract(a) == Extract(b)
  {
  }

  // ----- any segmentation -----

  function Concat(segments: seq<seq<byte>>): (s: seq<byte>) {
    if segments == [] then [] else segments[0] + Concat(segments[1..])
  }

  /** Segments arriving one after the other, starting from the buffer `left`. */
  function Feed(left: seq<byte>, segments: seq<seq<byte>>): (r: Extracted)
    decreases |segments|
  {
    if segments == [] then Extracted([], left)
    else
      var first := Extract(left + segments[0]);
      Before(first.messages, Feed(first.left, segments[1..]))
  }

  /** What is left holds no message. */
  lemma {:induction false} ExtractLeftover(a: seq<byte>)
    ensures Extract(Extract(a).left) == Extracted([], Extract(a).left)
    decreases |a|
  {
    match NextTurn(a)
    case Wait(left) =>
      TurnStable(a, []);
      assert a + [] == a && left + [] == left;
    case Take(_, rest) =>
      ExtractLeftover(rest);
  }

  lemma {:induction false} FeedFrom(left: seq<byte>, segments: seq<seq<byte>>)
    requires Extract(left) == Extracted([], left)
    ensures Feed(left, segments) == Extract(left + Concat(segments))
    decreases |segments|
  {
    if segments == [] {
      assert left + [] == left;
    } else {
      var head := left + segments[0];
      assert Feed(Extract(head).left, segments[1..]) == Extract(Extract(head).left + Concat(segments[1..])) by {
        ExtractLeftover(head);
        FeedFrom(Extract(head).left, segments[1..]);
      }
      ExtractResumes(head, Concat(segments[1..]));
      ConcatFirst(left, segments);
    }
  }

  lemma ConcatFirst(left: seq<byte>, segments: seq<seq<byte>>)
    requires segments != []
    ensures left + Concat(segments) == left + segments[0] + Concat(segments[1..])
  {
  }

  /** However a stream is cut, the same messages come out in the same order and the same bytes stay behind. */
  lemma SegmentationIndependent(segments: seq<seq<byte>>)
    ensures Feed([], segments) == Extract(Concat(segments))
  {
    FeedFrom([], segments);
    assert [] + Concat(segments) == Concat(segments);
  }

  // ----- well-formed streams -----

  predicate WellFormedMessage(m: seq<byte>) {
    |m| >= HEADER_SIZE && StartsWithMagic(m) && PayloadLength(m) == |m| - HEADER_SIZE
  }

  lemma TurnTakes(m: seq<byte>, rest: seq<byte>)
    requires WellFormedMessage(m)
    ensures NextTurn(m + rest) == Take(m, rest)
  {
    var s := m + rest;
    FindMagicAtFront(m, rest);
    CompleteStable(m, rest);
    assert s[0..] == s && s[..|m|] == m && s[|m|..] == rest;
  }

  /** A stream of well-formed messages yields exactly those messages, and nothing is left. */
  lemma {:induction false} WellFormedStream(messages: seq<seq<byte>>)
    requires forall m :: m in messages ==> WellFormedMessage(m)
    ensures Extract(Concat(messages)) == Extracted(messages, [])
  {
    if messages != [] {
      TurnTakes(messages[0], Concat(messages[1..]));
      WellFormedStream(messages[1..]);
      assert [messages[0]] + messages[1..] == messages;
    }
  }

  /** No magic starts within the first `n` bytes. */
  ghost predicate Noise(s: seq<byte>, n: nat) {
    forall k {:trigger s[k..]} :: 0 <= k < n && k + 4 <= |s| ==> !StartsWithMagic(s[k..])
  }

  lemma {:induction false} SkipNoise(s: seq<byte>, i: nat, n: nat)
    requires i <= n && n + 4 < |s| && StartsWithMagic(s[n..]) && Noise(s, n)
    ensures FindMagic(s, i) == n
    decreases n - i
  {
    if i < n {
      assert !StartsWithMagic(s[i..]);
      SkipNoise(s, i + 1, n);
    }
  }

  /** Bytes in front of a message in which no magic starts are dropped: the extractor finds its place again. */
  lemma Resynchronises(noise: seq<byte>, m: seq<byte>, rest: seq<byte>)
    requires WellFormedMessage(m) && Noise(noise + m + rest, |noise|)
    ensures NextTurn(noise + m + rest) == NextTurn(m + rest) == Take(m, rest)
  {
    var s := noise + m + rest;
    assert s[|noise|..] == m + rest;
    assert (m + rest)[..4] == m[..4];
    SkipNoise(s, 0, |noise|);
    TurnTakes(m, rest);
    FindMagicAtFront(m, rest);
    assert (m + rest)[0..] == m + rest;
  }

  lemma TurnWellFormed(s: seq<byte>)
    requires NextTurn(s).Take?
    ensures WellFormedMessage(NextTurn(s).message)
  {
    var t, m := s[FindMagic(s, 0)..], NextTurn(s).message;
    assert m[16..20] == t[16..20] && m[..4] == t[..4];
  }

  /** Every message extracted is a whole one. */
  lemma {:induction false} ExtractWellFormed(s: seq<byte>, k: nat)
    requires k < |Extract(s).messages|
    ensures WellFormedMessage(Extract(s).messages[k])
    decreases |s|
  {
    TurnWellFormed(s);
    if k > 0 {
      ExtractWellFormed(NextTurn(s).rest, k - 1);
    }
  }

  /** Messages and leftover together are no longer than the stream. */
  lemma {:induction false} ExtractAccounts(s: seq<byte>)
    ensures |Concat(Extract(s).messages)| + |Extract(s).left| <= |s|
    decreases |s|
  {
    match NextTurn(s)
    case Wait(_) =>
    case Take(m, rest) =>
      ExtractAccounts(rest);
      assert ([m] + Extract(rest).messages)[1..] == Extract(rest).messages;
  }

  // ----- the cache -----

  /** Which extracted messages are handed on: checksum right, and the payload parses. */
  function Delivered(dsha: seq<byte> -> Hash, parses: seq<byte> -> bool, messages: seq<seq<byte>>): (r: seq<seq<byte>>) {
    if messages == [] then []
    else if ChecksumMatch(dsha, messages[0]) && parses(messages[0])
    then [messages[0]] + Delivered(dsha, parses, messages[1..])
    else Delivered(dsha, parses, messages[1..])
  }

  predicate ChecksumMatch(dsha: seq<byte> -> Hash, m: seq<byte>) {
    |m| >= HEADER_SIZE && dsha(m[HEADER_SIZE..])[..4] == m[20..24]
  }

  class MessageCache {
    const buffer: array<byte>
    var bufferIndex: nat

    ghost predicate Valid()
      reads this
    {
      bufferIndex <= buffer.Length
    }

    ghost function View(): (s: seq<byte>)
      requires Valid()
      reads this, buffer
    {
      buffer[..bufferIndex]
    }

    constructor (capacity: nat)
      ensures Valid() && View() == [] && buffer.Length == capacity && fresh(buffer)
    {
      buffer := new byte[capacity](_ => 0);
      bufferIndex := 0;
    }

    /** find_first_magic over the filled part of the buffer. */
    method FindFirstMagic() returns (at: int)
      requires Valid()
      ensures at == FindMagic(View(), 0)
    {
      at := 0;
      while at + 4 < bufferIndex
        invariant 0 <= at
        invariant FindMagic(View(), at) == FindMagic(View(), 0)
        decreases bufferIndex - at
      {
        assert View()[at..][..4] == buffer[at..at + 4];
        if CombineUint32(buffer[at..at + 4]) == MAGIC {
          return;
        }
        at := at + 1;
      }
      at := -1;
    }

    /** The overlapping memcpy, as memmove, and the shortened fill. */
    method DropFront(n: nat)
      requires Valid() && n <= bufferIndex
      modifies buffer, this`bufferIndex
      ensures Valid() && View() == old(View())[n..]
    {
      ghost var was := View();
      forall k | 0 <= k < bufferIndex - n {
        buffer[k] := buffer[k + n];
      }
      bufferIndex := bufferIndex - n;
      assert forall k :: 0 <= k < bufferIndex ==> buffer[k] == was[k + n];
    }

    /** extract_message_from_stream_buffer. */
    method ExtractMessages(dsha: seq<byte> -> Hash, parses: seq<byte> -> bool) returns (delivered: seq<seq<byte>>)
      requires Valid() && buffer.Length >= HEADER_SIZE
      modifies buffer, this`bufferIndex
      ensures Valid() && View() == Extract(old(View())).left
      ensures delivered == Delivered(dsha, parses, Extract(old(View())).messages)
    {
      delivered := [];
      ghost var all := Extract(View());
      var magicOffset := FindFirstMagic();
      while magicOffset >= 0
        invariant Valid() && magicOffset == FindMagic(View(), 0)
        invariant Extract(View()).left == all.left
        invariant delivered + Delivered(dsha, parses, Extract(View()).messages) == Delivered(dsha, parses, all.messages)
        decreases bufferIndex
      {
        var found, message := TakeMessage(magicOffset);
        if !found {
          return;
        }
        ghost var later := Extract(View()).messages;
        DeliveredCons(dsha, parses, delivered, message, later);
        if ChecksumMatch(dsha, message) && parses(message) {
          delivered := delivered + [message];
        }
        magicOffset := FindFirstMagic();
      }
    }

    /** One turn of the loop: trim to the magic, and take the message there if it is complete. */
    method TakeMessage(magicOffset: int) returns (found: bool, message: seq<byte>)
      requires Valid() && buffer.Length >= HEADER_SIZE && 0 <= magicOffset == FindMagic(View(), 0)
      modifies buffer, this`bufferIndex
      ensures Valid() && NextTurn(old(View())) == if found then Take(message, View()) else Wait(View())
      ensures !found ==> Extract(View()) == Extracted([], View())
    {
      found, message := false, [];
      ghost var start := View();
      if magicOffset != 0 {
        DropFront(magicOffset);
      }
      ghost var t := View();
      assert t == start[magicOffset..];
      var size := MessageSize();
      if bufferIndex < size {
        ExtractLeftover(start);
        return;
      }
      found, message := true, buffer[..size];
      assert message == t[..size];
      DropFront(size);
    }

    /** Header size plus the length field; a header not yet complete reads stale bytes, but is incomplete anyway. */
    method MessageSize() returns (size: nat)
      requires Valid() && buffer.Length >= 20
      ensures size >= HEADER_SIZE
      ensures bufferIndex >= size <==> Complete(View())
      ensures Complete(View()) ==> size == HEADER_SIZE + PayloadLength(View())
    {
      size := HEADER_SIZE + CombineUint32(buffer[16..20]);
      if bufferIndex >= HEADER_SIZE {
        assert View()[16..20] == buffer[16..20];
      }
    }

    /** on_incoming_segment: `len` bytes are copied, of which `nread` count; a negative count changes nothing. */
    method OnIncomingSegment(base: seq<byte>, nread: int, dsha: seq<byte> -> Hash, parses: seq<byte> -> bool)
      returns (delivered: seq<seq<byte>>)
      requires Valid() && nread <= |base| && HEADER_SIZE <= buffer.Length && bufferIndex + |base| <= buffer.Length
      modifies buffer, this`bufferIndex
      ensures Valid()
      ensures nread < 0 ==> View() == old(View()) && delivered == []
      ensures nread >= 0 ==> View() == Extract(old(View()) + base[..nread]).left
      ensures nread >= 0 ==> delivered == Delivered(dsha, parses, Extract(old(View()) + base[..nread]).messages)
    {
      if nread < 0 {
        return [];
      }
      forall k | 0 <= k < |base| {
        buffer[bufferIndex + k] := base[k];
      }
      bufferIndex := bufferIndex + nread;
      assert View() == old(View()) + base[..nread];
      delivered := ExtractMessages(dsha, parses);
    }
  }

  lemma DeliveredCons(dsha: seq<byte> -> Hash, parses: seq<byte> -> bool, before: seq<seq<byte>>, m: seq<byte>, later: seq<seq<byte>>)
    ensures before + Delivered(dsha, parses, [m] + later)
         == (if ChecksumMatch(dsha, m) && parses(m) then before + [m] else before) + Delivered(dsha, parses, later)
  {
    assert ([m] + later)[1..] == later;
  }

  lemma {:induction false} DeliveredConcat(dsha: seq<byte> -> Hash, parses: seq<byte> -> bool, a: seq<seq<byte>>, b: seq<seq<byte>>)
    ensures Delivered(dsha, parses, a + b) == Delivered(dsha, parses, a) + Delivered(dsha, parses, b)
  {
    if a == [] {
      assert a + b == b;
    } else {
      assert (a + b)[1..] == a[1..] + b;
      DeliveredConcat(dsha, parses, a[1..], b);
    }
  }

  /** What OnIncomingSegment delivers, call after call. */
  function Deliveries(dsha: seq<byte> -> Hash, parses: seq<byte> -> bool, left: seq<byte>, segments: seq<seq<byte>>): (r: seq<seq<byte>>)
    decreases |segments|
  {
    if segments == [] then []
    else
      var first := Extract(left + segments[0]);
      Delivered(dsha, parses, first.messages) + Deliveries(dsha, parses, first.left, segments[1..])
  }

  lemma {:induction false} DeliveriesOfFeed(dsha: seq<byte> -> Hash, parses: seq<byte> -> bool, left: seq<byte>, segments: seq<seq<byte>>)
    ensures Deliveries(dsha, parses, left, segments) == Delivered(dsha, parses, Feed(left, segments).messages)
    decreases |segments|
  {
    if segments != [] {
      var first := Extract(left + segments[0]);
      DeliveriesOfFeed(dsha, parses, first.left, segments[1..]);
      DeliveredConcat(dsha, parses, first.messages, Feed(first.left, segments[1..]).messages);
    }
  }

  /** The handled messages do not depend on the cutting either. */
  lemma DeliveryIndependent(dsha: seq<byte> -> Hash, parses: seq<byte> -> bool, segments: seq<seq<byte>>)
    ensures Deliveries(dsha, parses, [], segments) == Delivered(dsha, parses, Extract(Concat(segments)).messages)
  {
    DeliveriesOfFeed(dsha, parses, [], segments);
    SegmentationIndependent(segments);
  }
}
