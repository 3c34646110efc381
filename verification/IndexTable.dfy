/** The header index kept in the chained hash table (src/blockchain.c over src/hashmap.c). */
module IndexTable {
  import opened Bytes
  import opened Codec
  import opened Buckets
  import HeaderIndex

  type Entries = Table<HeaderIndex.Entry>

  /** The child list of the parent, changed through the pointer hashmap_get returned; nothing when there is no parent. */
  function LinkParent(sha256: Key -> Hash, t: Entries, prev: Hash, child: Hash): (r: Entries)
    requires t != []
  {
    var parent := Get(sha256, t, prev);
    if parent.None? then t
    else Stored(sha256, t, prev, parent.value.(children := parent.value.children + [child]))
  }

  /** The new entry, made from the parent the table holds. */
  function EntryFor(sha256: Key -> Hash, t: Entries, hash: Hash, header: Header): (e: HeaderIndex.Entry)
    requires t != []
  {
    var parent := Get(sha256, t, header.prevBlock);
    HeaderIndex.NewEntry(hash, if parent.Some? then map[header.prevBlock := parent.value] else map[], header)
  }

  /** What process_incoming_block_header does to the table. */
  function AfterHeader(sha256: Key -> Hash, hashOf: Header -> Hash, t: Entries, header: Header): (r: Entries)
    requires t != []
  {
    var hash := hashOf(header);
    Set(sha256, LinkParent(sha256, t, header.prevBlock, hash), hash, EntryFor(sha256, t, hash, header))
  }

  lemma GetIs(sha256: Key -> Hash, t: Entries, index: HeaderIndex.Index, k: Hash)
    requires t != [] && Represents(sha256, t, index)
    ensures Get(sha256, t, k) == if k in index then Some(index[k]) else None
  {
  }

  lemma LinkKeepsTable(sha256: Key -> Hash, t: Entries, index: HeaderIndex.Index, prev: Hash, child: Hash)
    requires WellFormed(sha256, t) && Represents(sha256, t, index)
    ensures WellFormed(sha256, LinkParent(sha256, t, prev, child))
    ensures Represents(sha256, LinkParent(sha256, t, prev, child), HeaderIndex.AddChild(index, prev, child))
  {
    GetIs(sha256, t, index, prev);
    if prev in index {
      StoredRepresents(sha256, t, index, prev, index[prev].(children := index[prev].children + [child]));
    }
  }

  lemma SetAbsentKeepsTable(sha256: Key -> Hash, t: Entries, index: HeaderIndex.Index, hash: Hash, e: HeaderIndex.Entry)
    requires WellFormed(sha256, t) && Represents(sha256, t, index) && hash !in index
    ensures WellFormed(sha256, Set(sha256, t, hash, e)) && Represents(sha256, Set(sha256, t, hash, e), index[hash := e])
  {
    GetIs(sha256, t, index, hash);
    LookupMisses(t[BucketOf(sha256, hash, |t|)], hash);
    SetRepresents(sha256, t, index, hash, e);
  }

  /** The only set is of an absent key, so the table goes on representing the index. */
  lemma HeaderKeepsTable(sha256: Key -> Hash, hashOf: Header -> Hash, t: Entries, s: HeaderIndex.Headers, header: Header, now: int)
    requires WellFormed(sha256, t) && Represents(sha256, t, s.index)
    requires HeaderIndex.TimestampLegal(header, now) && hashOf(header) !in s.index
    ensures WellFormed(sha256, AfterHeader(sha256, hashOf, t, header))
    ensures Represents(sha256, AfterHeader(sha256, hashOf, t, header), HeaderIndex.Arrive(hashOf, s, header, now).index)
  {
    var hash, prev := hashOf(header), header.prevBlock;
    EntryForIs(sha256, t, s.index, hash, header);
    LinkKeepsTable(sha256, t, s.index, prev, hash);
    SetAbsentKeepsTable(sha256, LinkParent(sha256, t, prev, hash), HeaderIndex.AddChild(s.index, prev, hash), hash,
                        HeaderIndex.NewEntry(hash, s.index, header));
  }

  lemma EntryForIs(sha256: Key -> Hash, t: Entries, index: HeaderIndex.Index, hash: Hash, header: Header)
    requires t != [] && Represents(sha256, t, index)
    ensures EntryFor(sha256, t, hash, header) == HeaderIndex.NewEntry(hash, index, header)
  {
    GetIs(sha256, t, index, header.prevBlock);
  }

  /** A run of arriving headers on the table: an illegal header, and one whose key is found, changes nothing. */
  function TableAfter(sha256: Key -> Hash, hashOf: Header -> Hash, t: Entries, arrivals: seq<HeaderIndex.Arrival>): (r: Entries)
    requires t != []
    ensures r != []
    decreases |arrivals|
  {
    if arrivals == [] then t
    else
      var a := arrivals[0];
      var accepted := HeaderIndex.TimestampLegal(a.header, a.now) && Get(sha256, t, hashOf(a.header)) == None;
      TableAfter(sha256, hashOf, if accepted then AfterHeader(sha256, hashOf, t, a.header) else t, arrivals[1..])
  }

  lemma {:induction false} HeadersKeepTable(sha256: Key -> Hash, hashOf: Header -> Hash, t: Entries, s: HeaderIndex.Headers,
                                            arrivals: seq<HeaderIndex.Arrival>)
    requires WellFormed(sha256, t) && Represents(sha256, t, s.index)
    ensures WellFormed(sha256, TableAfter(sha256, hashOf, t, arrivals))
    ensures Represents(sha256, TableAfter(sha256, hashOf, t, arrivals), HeaderIndex.After(hashOf, s, arrivals).index)
    decreases |arrivals|
  {
    if arrivals != [] {
      var a := arrivals[0];
      var r := HeaderIndex.Arrive(hashOf, s, a.header, a.now);
      GetIs(sha256, t, s.index, hashOf(a.header));
      if HeaderIndex.TimestampLegal(a.header, a.now) && hashOf(a.header) !in s.index {
        HeaderKeepsTable(sha256, hashOf, t, s, a.header, a.now);
        HeadersKeepTable(sha256, hashOf, AfterHeader(sha256, hashOf, t, a.header), r, arrivals[1..]);
      } else {
        HeadersKeepTable(sha256, hashOf, t, r, arrivals[1..]);
      }
    }
  }

  /** Over every run from the table hashmap_init leaves, the table represents the index the run specifies. */
  lemma TableOverRuns(sha256: Key -> Hash, hashOf: Header -> Hash, bucketCount: nat, arrivals: seq<HeaderIndex.Arrival>)
    requires bucketCount > 0
    ensures var t := TableAfter(sha256, hashOf, EmptyTable(bucketCount), arrivals);
            WellFormed(sha256, t) && Represents(sha256, t, HeaderIndex.After(hashOf, HeaderIndex.INITIAL, arrivals).index)
  {
    EmptyRepresents<HeaderIndex.Entry>(sha256, bucketCount);
    HeadersKeepTable(sha256, hashOf, EmptyTable(bucketCount), HeaderIndex.INITIAL, arrivals);
  }
}
