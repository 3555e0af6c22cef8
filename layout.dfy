// The page layout of a node (src/btree.h:30-40):
//   | type | nkeys | pointers (nkeys+1) x 8B | offsets nkeys x 2B | entries |
// with every integer big-endian and entry i stored as | klen | vlen | key | value |
// at keysStart + offsets[i].

module Layout {
  import opened Bytes
  import opened Keys
  import opened Seqs

  // enum nodeType (src/btree.h:7)
  const INTERNAL: u16 := 0
  const LEAF: u16 := 1
  const DELETED: u16 := 2

  // src/btree.c:10-13
  const HEADER: nat := 4
  const PTR_SIZE: nat := 8
  const OFFSET: nat := 2
  const KEYVALUE: nat := 4
  const PAGE_SIZE: nat := 4096

  /** struct NodeHeader (src/btree.h:9-12). */
  datatype NodeHeader = NodeHeader(ntype: u16, nkeys: u16)

  /**
   * The contents of a struct Node (src/btree.h:34-40). Each sequence is as long as
   * the memory allocated for that array, which may be more or fewer slots than
   * nkeys needs.
   */
  datatype NodeData = NodeData(header: NodeHeader, selfPointer: u64, pointers: seq<u64>,
                               offsets: seq<u16>, keyValues: seq<KeyValue>)

  function NKeys(d: NodeData): nat
  {
    d.header.nkeys
  }

  /** The arrays hold the nkeys+1 pointers and nkeys entries that nodeToBytes reads. */
  predicate WellSized(d: NodeData)
  {
    |d.pointers| > NKeys(d) && |d.keyValues| >= NKeys(d)
  }

  /** offsets[k], or zero when the offsets array is shorter than nkeys (a read past it). */
  function OffsetAt(d: NodeData, k: nat): u16
  {
    if k < |d.offsets| then d.offsets[k] else 0
  }

  function EntrySize(kv: KeyValue): nat
  {
    KEYVALUE + |kv.key| + |kv.value|
  }

  /** Bytes taken by a run of stored entries. */
  function EntriesSize(kvs: seq<KeyValue>): (r: nat)
    ensures r <= |kvs| * (KEYVALUE + 2 * 0xFFFF)
  {
    if kvs == [] then 0 else EntriesSize(kvs[..|kvs| - 1]) + EntrySize(kvs[|kvs| - 1])
  }

  /** The pointers, offsets and entries a node image stores. */
  function Pointers(d: NodeData): seq<u64>
    requires WellSized(d)
  {
    d.pointers[..NKeys(d) + 1]
  }

  function Offsets(d: NodeData): (r: seq<u16>)
    ensures |r| == NKeys(d)
    ensures forall k :: 0 <= k < NKeys(d) ==> r[k] == OffsetAt(d, k)
  {
    seq(NKeys(d), k requires 0 <= k < NKeys(d) => OffsetAt(d, k))
  }

  function Entries(d: NodeData): seq<KeyValue>
    requires WellSized(d)
  {
    d.keyValues[..NKeys(d)]
  }

  /** What survives writing a node out and reading it back at self pointer sp. */
  function Stored(d: NodeData, sp: u64): NodeData
    requires WellSized(d)
  {
    NodeData(d.header, sp, Pointers(d), Offsets(d), Entries(d))
  }

  function OffsetsStart(n: nat): nat
  {
    HEADER + (n + 1) * PTR_SIZE
  }

  function KeysStart(n: nat): nat
  {
    OffsetsStart(n) + n * OFFSET
  }

  /** The largest image any node can have: 65535 keys, each with 65535-byte key and value. */
  const MAX_NODE_BYTES: nat := KeysStart(0xFFFF) + 0xFFFF * (KEYVALUE + 2 * 0xFFFF)

  /**
   * nodeByteSize (src/btree.c:166-179): header, nkeys+1 pointers, nkeys offsets and
   * the entries; it always fits the uint64_t the source computes it in.
   */
  function NodeByteSize(d: NodeData): (r: nat)
    requires WellSized(d)
    ensures r == KeysStart(NKeys(d)) + EntriesSize(Entries(d))
    ensures r <= MAX_NODE_BYTES < TWO64
  {
    var n := NKeys(d);
    MulMonotone(KEYVALUE + 2 * 0xFFFF, n, 0xFFFF);
    KeysStart(n) + EntriesSize(Entries(d))
  }

  function PointerBytes(ps: seq<u64>): (r: seq<byte>)
    ensures |r| == PTR_SIZE * |ps|
  {
    if ps == [] then [] else PointerBytes(ps[..|ps| - 1]) + BeBytes(ps[|ps| - 1], 8)
  }

  function OffsetBytes(os: seq<u16>): (r: seq<byte>)
    ensures |r| == OFFSET * |os|
  {
    if os == [] then [] else OffsetBytes(os[..|os| - 1]) + BeBytes(os[|os| - 1], 2)
  }

  function EntryBytes(kv: KeyValue): (r: seq<byte>)
    ensures |r| == EntrySize(kv)
  {
    BeBytes(|kv.key|, 2) + BeBytes(|kv.value|, 2) + kv.key + kv.value
  }

  function EntriesBytes(kvs: seq<KeyValue>): (r: seq<byte>)
    ensures |r| == EntriesSize(kvs)
  {
    if kvs == [] then [] else EntriesBytes(kvs[..|kvs| - 1]) + EntryBytes(kvs[|kvs| - 1])
  }

  function HeaderBytes(h: NodeHeader): (r: seq<byte>)
    ensures |r| == HEADER
  {
    BeBytes(h.ntype, 2) + BeBytes(h.nkeys, 2)
  }

  /**
   * The image nodeToBytes (src/btree.c:278-322) writes: exactly nodeByteSize bytes.
   * The offsets are copied from the node, not recomputed.
   */
  function Encode(d: NodeData): (r: seq<byte>)
    requires WellSized(d)
    ensures |r| == NodeByteSize(d)
  {
    HeaderBytes(d.header) + PointerBytes(Pointers(d)) + OffsetBytes(Offsets(d)) + EntriesBytes(Entries(d))
  }

  // ---------------------------------------------------------------------------
  // Reading an image

  /** The entry header at pos and the klen + vlen bytes after it lie inside b. */
  predicate EntryInside(b: seq<byte>, pos: nat)
  {
    pos + KEYVALUE <= |b| && pos + KEYVALUE + BytesToUInt16(b, pos) + BytesToUInt16(b, pos + 2) <= |b|
  }

  function EntryEnd(b: seq<byte>, pos: nat): nat
    requires pos + KEYVALUE <= |b|
  {
    pos + KEYVALUE + BytesToUInt16(b, pos) + BytesToUInt16(b, pos + 2)
  }

  /** keyValueFromIndex (src/btree.c:59-87): klen, vlen, then the key and value bytes. */
  function EntryIn(b: seq<byte>, pos: nat): (kv: KeyValue)
    requires EntryInside(b, pos)
    ensures pos + EntrySize(kv) == EntryEnd(b, pos)
    ensures |kv.key| == BytesToUInt16(b, pos) && |kv.value| == BytesToUInt16(b, pos + 2)
  {
    var klen := BytesToUInt16(b, pos);
    var vlen := BytesToUInt16(b, pos + 2);
    KeyValue(b[pos + 4..pos + 4 + klen], b[pos + 4 + klen..pos + 4 + klen + vlen])
  }

  function NKeysOf(b: seq<byte>): u16
    requires |b| >= HEADER
  {
    BytesToUInt16(b, 2)
  }

  /** The header, pointer table and offset table lie inside b. */
  predicate HasTables(b: seq<byte>)
  {
    |b| >= HEADER && KeysStart(NKeysOf(b)) <= |b|
  }

  function StoredOffset(b: seq<byte>, k: nat): u16
    requires HasTables(b) && k < NKeysOf(b)
  {
    BytesToUInt16(b, OffsetsStart(NKeysOf(b)) + OFFSET * k)
  }

  function EntryPos(b: seq<byte>, k: nat): nat
    requires HasTables(b) && k < NKeysOf(b)
  {
    KeysStart(NKeysOf(b)) + StoredOffset(b, k)
  }

  /**
   * Entry k can be read by nodeFromBytes: it lies inside the buffer and ends at or
   * below 0xFFFF. Past that the 16-bit kvPos, keyStart and valStart of
   * keyValueFromIndex wrap and its value loop never ends.
   */
  predicate EntryFits(b: seq<byte>, k: nat)
    requires HasTables(b) && k < NKeysOf(b)
  {
    EntryInside(b, EntryPos(b, k)) && EntryEnd(b, EntryPos(b, k)) <= 0xFFFF
  }

  predicate Decodable(b: seq<byte>)
  {
    HasTables(b) && forall k :: 0 <= k < NKeysOf(b) ==> EntryFits(b, k)
  }

  function EntryAt(b: seq<byte>, k: nat): KeyValue
    requires Decodable(b) && k < NKeysOf(b)
  {
    assert EntryFits(b, k);
    EntryIn(b, EntryPos(b, k))
  }

  /**
   * nodeFromBytes (src/btree.c:89-124): type and nkeys from the header, nkeys+1
   * pointers, nkeys offsets, and entry k read at keysStart + offsets[k]. The arrays
   * are allocated with exactly those lengths; self_pointer is never set (zero here).
   */
  function DecodeBytes(b: seq<byte>): (d: NodeData)
    requires Decodable(b)
    ensures d.header.nkeys == NKeysOf(b) && WellSized(d)
    ensures |d.pointers| == NKeys(d) + 1 && |d.offsets| == NKeys(d) && |d.keyValues| == NKeys(d)
  {
    var n := NKeysOf(b);
    NodeData(NodeHeader(BytesToUInt16(b, 0), n), 0,
             seq(n + 1, k requires 0 <= k < n + 1 => U64At(b, HEADER + PTR_SIZE * k)),
             seq(n, k requires 0 <= k < n => StoredOffset(b, k)),
             seq(n, k requires 0 <= k < n => EntryAt(b, k)))
  }

  // ---------------------------------------------------------------------------
  // Where each field sits in an encoded image

  lemma U16Read(b: seq<byte>, x: nat, v: u16)
    requires x + 2 <= |b| && b[x..x + 2] == BeBytes(v, 2)
    ensures BytesToUInt16(b, x) == v
  {
    Pow256Values();
    BeBytesRoundTrip(v, 2);
  }

  lemma U64Read(b: seq<byte>, x: nat, v: u64)
    requires x + 8 <= |b| && b[x..x + 8] == BeBytes(v, 8)
    ensures U64At(b, x) == v
  {
    Pow256Values();
    BeBytesRoundTrip(v, 8);
  }

  lemma {:induction false} PointerBytesAt(ps: seq<u64>, k: nat)
    requires k < |ps|
    ensures PointerBytes(ps)[PTR_SIZE * k..PTR_SIZE * k + PTR_SIZE] == BeBytes(ps[k], 8)
  {
    var pre := ps[..|ps| - 1];
    if k < |ps| - 1 {
      PointerBytesAt(pre, k);
      SliceLeft(PointerBytes(pre), BeBytes(ps[|ps| - 1], 8), PTR_SIZE * k, PTR_SIZE * k + PTR_SIZE);
    } else {
      SliceRight(PointerBytes(pre), BeBytes(ps[|ps| - 1], 8), PTR_SIZE * k, PTR_SIZE * k + PTR_SIZE);
    }
  }

  lemma {:induction false} OffsetBytesAt(os: seq<u16>, k: nat)
    requires k < |os|
    ensures OffsetBytes(os)[OFFSET * k..OFFSET * k + OFFSET] == BeBytes(os[k], 2)
  {
    var pre := os[..|os| - 1];
    if k < |os| - 1 {
      OffsetBytesAt(pre, k);
      SliceLeft(OffsetBytes(pre), BeBytes(os[|os| - 1], 2), OFFSET * k, OFFSET * k + OFFSET);
    } else {
      SliceRight(OffsetBytes(pre), BeBytes(os[|os| - 1], 2), OFFSET * k, OFFSET * k + OFFSET);
    }
  }

  lemma EntriesSizeStep(kvs: seq<KeyValue>, k: nat)
    requires k < |kvs|
    ensures EntriesSize(kvs[..k + 1]) == EntriesSize(kvs[..k]) + EntrySize(kvs[k])
  {
    assert kvs[..k + 1][..k] == kvs[..k];
  }

  /** Entries read front to back: the first entry's size, then the rest. */
  lemma {:induction false} EntriesSizeCons(e: KeyValue, rest: seq<KeyValue>)
    ensures EntriesSize([e] + rest) == EntrySize(e) + EntriesSize(rest)
    decreases |rest|
  {
    if rest == [] {
      assert ([e] + rest)[..0] == [];
    } else {
      var m := |rest| - 1;
      assert ([e] + rest)[..|rest|] == [e] + rest[..m];
      EntriesSizeCons(e, rest[..m]);
    }
  }

  lemma EntriesBytesStep(kvs: seq<KeyValue>, k: nat)
    requires k < |kvs|
    ensures EntriesBytes(kvs[..k + 1]) == EntriesBytes(kvs[..k]) + EntryBytes(kvs[k])
  {
    assert kvs[..k + 1][..k] == kvs[..k];
  }

  lemma {:induction false} EntriesSizePrefix(kvs: seq<KeyValue>, k: nat)
    requires k <= |kvs|
    ensures EntriesSize(kvs[..k]) <= EntriesSize(kvs)
  {
    if k < |kvs| {
      var pre := kvs[..|kvs| - 1];
      assert pre[..k] == kvs[..k];
      EntriesSizePrefix(pre, k);
    } else {
      assert kvs[..k] == kvs;
    }
  }

  lemma {:induction false} EntriesBytesAt(kvs: seq<KeyValue>, k: nat)
    requires k < |kvs|
    ensures EntriesSize(kvs[..k + 1]) == EntriesSize(kvs[..k]) + EntrySize(kvs[k])
    ensures EntriesSize(kvs[..k + 1]) <= EntriesSize(kvs)
    ensures EntriesBytes(kvs)[EntriesSize(kvs[..k])..EntriesSize(kvs[..k + 1])] == EntryBytes(kvs[k])
  {
    EntriesSizePrefix(kvs, k + 1);
    EntriesSizeStep(kvs, k);
    var pre := kvs[..|kvs| - 1];
    var last := EntryBytes(kvs[|kvs| - 1]);
    if k < |kvs| - 1 {
      assert pre[..k] == kvs[..k] && pre[..k + 1] == kvs[..k + 1];
      EntriesBytesAt(pre, k);
      SliceLeft(EntriesBytes(pre), last, EntriesSize(kvs[..k]), EntriesSize(kvs[..k + 1]));
    } else {
      assert kvs[..k] == pre && kvs[..k + 1] == kvs;
      SliceRight(EntriesBytes(pre), last, EntriesSize(kvs[..k]), EntriesSize(kvs[..k + 1]));
    }
  }

  lemma EntryBytesParts(kv: KeyValue)
    ensures var w, klen := EntryBytes(kv), |kv.key|;
      && w[0..2] == BeBytes(klen, 2) && w[2..4] == BeBytes(|kv.value|, 2)
      && w[4..4 + klen] == kv.key && w[4 + klen..] == kv.value
  {
    var klen := |kv.key|;
    var l, a, c := BeBytes(klen, 2), BeBytes(|kv.value|, 2), kv.key;
    var m := EntrySize(kv);
    SliceLeft(l + a + c, kv.value, 0, 2);
    SliceLeft(l + a, c, 0, 2);
    SliceLeft(l, a, 0, 2);
    SliceLeft(l + a + c, kv.value, 2, 4);
    SliceLeft(l + a, c, 2, 4);
    SliceRight(l, a, 2, 4);
    SliceLeft(l + a + c, kv.value, 4, 4 + klen);
    SliceRight(l + a, c, 4, 4 + klen);
    SliceRight(l + a + c, kv.value, 4 + klen, m);
  }

  lemma EntryHeaderRead(b: seq<byte>, pos: nat, kv: KeyValue)
    requires pos + EntrySize(kv) <= |b| && b[pos..pos + EntrySize(kv)] == EntryBytes(kv)
    ensures pos + KEYVALUE <= |b|
    ensures BytesToUInt16(b, pos) == |kv.key| && BytesToUInt16(b, pos + 2) == |kv.value|
  {
    EntryBytesParts(kv);
    SliceOfSliceRange(b, pos, pos + EntrySize(kv), 0, 2);
    SliceOfSliceRange(b, pos, pos + EntrySize(kv), 2, 4);
    U16Read(b, pos, |kv.key|);
    U16Read(b, pos + 2, |kv.value|);
  }

  /** The fields of an encoded entry read back. */
  lemma EntryRead(b: seq<byte>, pos: nat, kv: KeyValue)
    requires pos + EntrySize(kv) <= |b| && b[pos..pos + EntrySize(kv)] == EntryBytes(kv)
    ensures EntryInside(b, pos) && EntryIn(b, pos) == kv && EntryEnd(b, pos) == pos + EntrySize(kv)
  {
    var klen, m := |kv.key|, EntrySize(kv);
    EntryHeaderRead(b, pos, kv);
    EntryBytesParts(kv);
    SliceOfSliceRange(b, pos, pos + m, 4, 4 + klen);
    SliceOfSliceRange(b, pos, pos + m, 4 + klen, m);
  }

  /** Where entry k starts in the image: after keysStart and the k entries before it. */
  function EntryStart(d: NodeData, k: nat): nat
    requires k <= |d.keyValues|
  {
    KeysStart(NKeys(d)) + EntriesSize(d.keyValues[..k])
  }

  /** Offsets as addKVtoNode leaves them: entry k starts after the k entries before it. */
  predicate Cumulative(d: NodeData)
    requires WellSized(d)
  {
    forall k :: 0 <= k < NKeys(d) ==> OffsetAt(d, k) as int == EntriesSize(d.keyValues[..k])
  }

  /** An image is its four regions in order. */
  lemma EncodeParts(d: NodeData)
    requires WellSized(d)
    ensures var e, n := Encode(d), NKeys(d);
      && e[..HEADER] == HeaderBytes(d.header)
      && e[HEADER..OffsetsStart(n)] == PointerBytes(Pointers(d))
      && e[OffsetsStart(n)..KeysStart(n)] == OffsetBytes(Offsets(d))
      && e[KeysStart(n)..] == EntriesBytes(Entries(d))
  {
    var n := NKeys(d);
    var h, pb, ob, eb := HeaderBytes(d.header), PointerBytes(Pointers(d)), OffsetBytes(Offsets(d)), EntriesBytes(Entries(d));
    var e := Encode(d);
    assert e == h + pb + ob + eb;
    SliceLeft(h + pb + ob, eb, 0, HEADER);
    SliceLeft(h + pb, ob, 0, HEADER);
    SliceLeft(h + pb + ob, eb, HEADER, OffsetsStart(n));
    SliceRight(h, pb, HEADER, OffsetsStart(n));
    SliceRight(h + pb, ob, OffsetsStart(n), KeysStart(n));
    SliceLeft(h + pb + ob, eb, OffsetsStart(n), KeysStart(n));
    SliceRight(h + pb + ob, eb, KeysStart(n), |e|);
  }

  lemma EncodeEntriesRegion(d: NodeData)
    requires WellSized(d)
    ensures |Encode(d)| == KeysStart(NKeys(d)) + EntriesSize(Entries(d))
    ensures Encode(d)[KeysStart(NKeys(d))..KeysStart(NKeys(d)) + EntriesSize(Entries(d))] == EntriesBytes(Entries(d))
  {
    EncodeParts(d);
  }

  // Every field of an encoded node sits where the layout comment of src/btree.h:30-33 puts it.

  lemma EncodeHeaderAt(d: NodeData)
    requires WellSized(d)
    ensures Encode(d)[0..2] == BeBytes(d.header.ntype, 2)
    ensures Encode(d)[2..4] == BeBytes(d.header.nkeys, 2)
  {
    var e := Encode(d);
    EncodeParts(d);
    SliceOfSliceRange(e, 0, HEADER, 0, 2);
    SliceOfSliceRange(e, 0, HEADER, 2, 4);
    SliceLeft(BeBytes(d.header.ntype, 2), BeBytes(d.header.nkeys, 2), 0, 2);
    SliceRight(BeBytes(d.header.ntype, 2), BeBytes(d.header.nkeys, 2), 2, 4);
  }

  lemma EncodePointerAt(d: NodeData, k: nat)
    requires WellSized(d) && k <= NKeys(d)
    ensures Encode(d)[HEADER + PTR_SIZE * k..HEADER + PTR_SIZE * k + PTR_SIZE] == BeBytes(d.pointers[k], 8)
  {
    EncodeParts(d);
    PointerBytesAt(Pointers(d), k);
    SliceOfSliceRange(Encode(d), HEADER, OffsetsStart(NKeys(d)), PTR_SIZE * k, PTR_SIZE * k + PTR_SIZE);
  }

  lemma EncodeOffsetAt(d: NodeData, k: nat)
    requires WellSized(d) && k < NKeys(d)
    ensures var at := OffsetsStart(NKeys(d)) + OFFSET * k;
      Encode(d)[at..at + OFFSET] == BeBytes(OffsetAt(d, k), 2)
  {
    EncodeParts(d);
    OffsetBytesAt(Offsets(d), k);
    SliceOfSliceRange(Encode(d), OffsetsStart(NKeys(d)), KeysStart(NKeys(d)), OFFSET * k, OFFSET * k + OFFSET);
  }

  lemma EncodeEntryAt(d: NodeData, k: nat)
    requires WellSized(d) && k < NKeys(d)
    ensures EntryStart(d, k) + EntrySize(d.keyValues[k]) <= |Encode(d)|
    ensures Encode(d)[EntryStart(d, k)..EntryStart(d, k) + EntrySize(d.keyValues[k])] == EntryBytes(d.keyValues[k])
  {
    var kvs, ks := Entries(d), KeysStart(NKeys(d));
    assert kvs[..k] == d.keyValues[..k] && kvs[..k + 1] == d.keyValues[..k + 1];
    EncodeEntriesRegion(d);
    EntriesBytesAt(kvs, k);
    SliceOfSliceRange(Encode(d), ks, ks + EntriesSize(kvs), EntriesSize(kvs[..k]), EntriesSize(kvs[..k + 1]));
  }

  /**
   * Round trip: nodeFromBytes reads back what nodeToBytes wrote, provided the offsets
   * are cumulative (as addKVtoNode leaves them) and the image stays within the
   * 16-bit positions nodeFromBytes computes with.
   */
  lemma DecodeEncode(d: NodeData)
    requires WellSized(d) && Cumulative(d) && NodeByteSize(d) <= 0xFFFF
    ensures Decodable(Encode(d))
    ensures DecodeBytes(Encode(d)) == Stored(d, 0)
  {
    DecodableEncode(d);
    DecodeHeader(d);
    DecodedPointers(d);
    DecodedEntries(d);
  }

  lemma DecodableEncode(d: NodeData)
    requires WellSized(d) && Cumulative(d) && NodeByteSize(d) <= 0xFFFF
    ensures Decodable(Encode(d))
  {
    DecodeHeader(d);
    forall k | 0 <= k < NKeys(d)
      ensures EntryFits(Encode(d), k)
    {
      DecodeEntry(d, k);
    }
  }

  lemma DecodedPointers(d: NodeData)
    requires WellSized(d) && Cumulative(d) && NodeByteSize(d) <= 0xFFFF
    ensures Decodable(Encode(d)) && DecodeBytes(Encode(d)).pointers == Pointers(d)
  {
    DecodableEncode(d);
    DecodeHeader(d);
    hide Encode;
    hide U64At;
    hide EntryAt;
    hide StoredOffset;
    var r, p := DecodeBytes(Encode(d)).pointers, Pointers(d);
    forall k | 0 <= k <= NKeys(d)
      ensures r[k] == p[k]
    {
      DecodePointer(d, k);
    }
  }

  lemma DecodePointer(d: NodeData, k: nat)
    requires WellSized(d) && k <= NKeys(d)
    ensures HEADER + PTR_SIZE * k + 8 <= |Encode(d)|
    ensures U64At(Encode(d), HEADER + PTR_SIZE * k) == d.pointers[k]
  {
    EncodePointerAt(d, k);
    hide Encode;
    U64Read(Encode(d), HEADER + PTR_SIZE * k, d.pointers[k]);
  }

  lemma DecodedEntries(d: NodeData)
    requires WellSized(d) && Cumulative(d) && NodeByteSize(d) <= 0xFFFF
    ensures Decodable(Encode(d))
    ensures DecodeBytes(Encode(d)).offsets == Offsets(d)
    ensures DecodeBytes(Encode(d)).keyValues == Entries(d)
  {
    var e := Encode(d);
    DecodableEncode(d);
    DecodeHeader(d);
    var r := DecodeBytes(e);
    forall k | 0 <= k < NKeys(d)
      ensures r.offsets[k] == OffsetAt(d, k) && r.keyValues[k] == d.keyValues[k]
    {
      DecodeEntry(d, k);
    }
  }

  lemma DecodeHeader(d: NodeData)
    requires WellSized(d)
    ensures |Encode(d)| >= HEADER
    ensures BytesToUInt16(Encode(d), 0) == d.header.ntype && NKeysOf(Encode(d)) == d.header.nkeys
    ensures HasTables(Encode(d))
  {
    EncodeHeaderAt(d);
    U16Read(Encode(d), 0, d.header.ntype);
    U16Read(Encode(d), 2, d.header.nkeys);
  }

  lemma DecodeOffset(d: NodeData, k: nat)
    requires WellSized(d) && k < NKeys(d)
    ensures HasTables(Encode(d)) && NKeysOf(Encode(d)) == d.header.nkeys
    ensures StoredOffset(Encode(d), k) == OffsetAt(d, k)
  {
    DecodeHeader(d);
    EncodeOffsetAt(d, k);
    U16Read(Encode(d), OffsetsStart(NKeys(d)) + OFFSET * k, OffsetAt(d, k));
  }

  lemma DecodeEntry(d: NodeData, k: nat)
    requires WellSized(d) && Cumulative(d) && NodeByteSize(d) <= 0xFFFF && k < NKeys(d)
    ensures HasTables(Encode(d)) && NKeysOf(Encode(d)) == d.header.nkeys
    ensures StoredOffset(Encode(d), k) == OffsetAt(d, k)
    ensures EntryFits(Encode(d), k) && EntryIn(Encode(d), EntryPos(Encode(d), k)) == d.keyValues[k]
  {
    DecodeOffset(d, k);
    assert EntryPos(Encode(d), k) == EntryStart(d, k);
    EncodeEntryAt(d, k);
    EntryRead(Encode(d), EntryStart(d, k), d.keyValues[k]);
  }

  // ---------------------------------------------------------------------------
  // The sample page of src/main.c:10-30

  // The rows of SAMPLE_BYTES, as the source lays them out.
  const SAMPLE_HEADER: seq<byte> := [0x00, 0x01, 0x00, 0x02]
  const SAMPLE_PTR_1: seq<byte> := [0x00, 0x00, 0x01, 0x01, 0x09, 0x12, 0x16, 0x18]
  const SAMPLE_PTR_2: seq<byte> := [0x00, 0x00, 0x01, 0x01, 0x09, 0x15, 0x16, 0x18]
  const SAMPLE_PTR_3: seq<byte> := [0x00, 0x00, 0x01, 0x01, 0x09, 0x19, 0x16, 0x18]
  const SAMPLE_OFFSETS: seq<byte> := [0x00, 0x00, 0x00, 0x0e]
  const SAMPLE_ENTRY_1: seq<byte> := [0x00, 0x04, 0x00, 0x06] + SAMPLE_KEY_1 + SAMPLE_VALUE_1
  const SAMPLE_ENTRY_2: seq<byte> := [0x00, 0x05, 0x00, 0x08] + SAMPLE_KEY_2 + SAMPLE_VALUE_2
  const SAMPLE_KEY_1: Field := [0x6b, 0x65, 0x79, 0x31]                          // "key1"
  const SAMPLE_VALUE_1: Field := [0x76, 0x61, 0x6c, 0x75, 0x65, 0x31]            // "value1"
  const SAMPLE_KEY_2: Field := [0x6b, 0x65, 0x79, 0x32, 0x32]                    // "key22"
  const SAMPLE_VALUE_2: Field := [0x76, 0x61, 0x6c, 0x75, 0x65, 0x32, 0x32, 0x32] // "value222"

  /** SAMPLE_BYTES of src/main.c:10-30: 63 bytes. */
  const SAMPLE_BYTES: seq<byte> :=
    SAMPLE_HEADER + (SAMPLE_PTR_1 + SAMPLE_PTR_2 + SAMPLE_PTR_3) + SAMPLE_OFFSETS
    + (SAMPLE_ENTRY_1 + SAMPLE_ENTRY_2)

  /** The node the sample page describes: a leaf holding "key1" -> "value1" and "key22" -> "value222". */
  const SAMPLE_NODE: NodeData := NodeData(
    NodeHeader(LEAF, 2), 0,
    [0x0000_0101_0912_1618, 0x0000_0101_0915_1618, 0x0000_0101_0919_1618],
    [0x0000, 0x000e],
    [KeyValue(SAMPLE_KEY_1, SAMPLE_VALUE_1), KeyValue(SAMPLE_KEY_2, SAMPLE_VALUE_2)])

  /** nodeFromBytes reads the sample page as that node. */
  lemma SampleDecodes()
    ensures Decodable(SAMPLE_BYTES) && DecodeBytes(SAMPLE_BYTES) == SAMPLE_NODE
  {
    SampleWellFormed();
    SampleEncodes();
    DecodeEncode(SAMPLE_NODE);
  }

  lemma SampleWellFormed()
    ensures WellSized(SAMPLE_NODE) && Cumulative(SAMPLE_NODE) && NodeByteSize(SAMPLE_NODE) == 63
    ensures Stored(SAMPLE_NODE, 0) == SAMPLE_NODE
  {
    var d := SAMPLE_NODE;
    var kv := d.keyValues;
    assert kv[..0] == [] && kv[..1] == [kv[0]] && kv[..2] == kv;
    assert EntriesSize([kv[0]]) == 14;
    assert Pointers(d) == d.pointers && Offsets(d) == d.offsets && Entries(d) == d.keyValues;
  }

  lemma SamplePointerRow1()
    ensures BeBytes(0x0000_0101_0912_1618, 8) == SAMPLE_PTR_1
  {
  }

  lemma SamplePointerRow2()
    ensures BeBytes(0x0000_0101_0915_1618, 8) == SAMPLE_PTR_2
  {
  }

  lemma SamplePointerRow3()
    ensures BeBytes(0x0000_0101_0919_1618, 8) == SAMPLE_PTR_3
  {
  }

  lemma SamplePointers()
    ensures PointerBytes(SAMPLE_NODE.pointers) == SAMPLE_PTR_1 + SAMPLE_PTR_2 + SAMPLE_PTR_3
  {
    var p := SAMPLE_NODE.pointers;
    SamplePointerRow1();
    SamplePointerRow2();
    SamplePointerRow3();
    assert p == [0x0000_0101_0912_1618, 0x0000_0101_0915_1618, 0x0000_0101_0919_1618];
    assert p[..2] == [p[0], p[1]] && p[..1] == [p[0]] && p[..0] == [];
  }

  lemma SampleEntryRow1()
    ensures EntryBytes(KeyValue(SAMPLE_KEY_1, SAMPLE_VALUE_1)) == SAMPLE_ENTRY_1
  {
    assert BeBytes(4, 2) == [0x00, 0x04] && BeBytes(6, 2) == [0x00, 0x06];
  }

  lemma SampleEntryRow2()
    ensures EntryBytes(KeyValue(SAMPLE_KEY_2, SAMPLE_VALUE_2)) == SAMPLE_ENTRY_2
  {
    assert BeBytes(5, 2) == [0x00, 0x05] && BeBytes(8, 2) == [0x00, 0x08];
  }

  lemma SampleEntries()
    ensures EntriesBytes(SAMPLE_NODE.keyValues) == SAMPLE_ENTRY_1 + SAMPLE_ENTRY_2
  {
    var e1, e2 := KeyValue(SAMPLE_KEY_1, SAMPLE_VALUE_1), KeyValue(SAMPLE_KEY_2, SAMPLE_VALUE_2);
    SampleEntryRow1();
    SampleEntryRow2();
    assert [e1, e2][..1] == [e1] && [e1][..0] == [];
    assert EntriesBytes([e1]) == SAMPLE_ENTRY_1;
  }

  lemma SampleHeaderAndOffsets()
    ensures HeaderBytes(SAMPLE_NODE.header) == SAMPLE_HEADER
    ensures OffsetBytes(SAMPLE_NODE.offsets) == SAMPLE_OFFSETS
  {
    var os := SAMPLE_NODE.offsets;
    assert os[..1] == [os[0]] && os[..0] == [];
  }

  lemma SampleEncodes()
    ensures WellSized(SAMPLE_NODE) && Encode(SAMPLE_NODE) == SAMPLE_BYTES
  {
    var d := SAMPLE_NODE;
    SampleWellFormed();
    assert Encode(d) == HeaderBytes(d.header) + PointerBytes(d.pointers) + OffsetBytes(d.offsets)
                          + EntriesBytes(d.keyValues);
    SamplePointers();
    SampleEntries();
    SampleHeaderAndOffsets();
  }
}
