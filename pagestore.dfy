// The database file and the tree that owns it (struct BTree, src/btree.h:43-48), and
// the operations of src/btree.c that move nodes between memory and the file:
// nodeFromFile, addNodeToFile, updateNodeOnFile and createMockupTree.
//
// The file is its bytes. A node is read by seeking to its page and reading the
// header, the pointer table, the offset table and then the entries one after the
// other; it is written by seeking and writing its image.

module PageStore {
  import opened Bytes
  import opened Seqs
  import opened Keys
  import opened Layout
  import opened Nodes

  datatype Option<T> = None | Some(value: T)

  /** What nodeFromFile comes back with: a node, NULL, or nothing at all because its pointer loop never ends. */
  datatype Load = Loaded(node: NodeData) | NoNode | Diverges

  /** BTREE_PAGE_SIZE (src/btree.c:15-16). */
  const PAGE: u64 := 4096

  /** A uint64_t passed where a long is expected: the same bits read in two's complement. */
  function AsLong(p: u64): (l: int)
    ensures -0x8000_0000_0000_0000 <= l < 0x8000_0000_0000_0000
    ensures l % TWO64 == p as int
  {
    if p < 0x8000_0000_0000_0000 then p as int else p as int - TWO64
  }

  /** fseek(f, p, SEEK_SET) takes p as a long, and a negative offset makes it fail. */
  function SeekOk(p: u64): (ok: bool)
    ensures ok <==> AsLong(p) >= 0
  {
    p < 0x8000_0000_0000_0000
  }

  /** tree->last += BTREE_PAGE_SIZE on a uint64_t. */
  function NextPage(last: u64): (r: u64)
    ensures last < TWO64 - PAGE ==> r == last + PAGE
  {
    (last + PAGE) % TWO64
  }

  /**
   * fwrite of w after fseek(f, p): w replaces the bytes from p on, and a file shorter
   * than p first grows with zero bytes.
   */
  function WriteAt(f: seq<byte>, p: nat, w: seq<byte>): (r: seq<byte>)
    ensures |r| == if p + |w| <= |f| then |f| else p + |w|
    ensures r[p..p + |w|] == w
    ensures forall k :: 0 <= k < p && k < |f| ==> r[k] == f[k]
    ensures forall k :: |f| <= k < p ==> r[k] == 0
    ensures forall k :: p + |w| <= k < |f| ==> r[k] == f[k]
  {
    var g := if |f| < p then f + Zeros(p - |f|) else f;
    g[..p] + w + Drop(g, p + |w|)
  }

  // ---------------------------------------------------------------------------
  // nodeFromFile (src/btree.c:181-276)

  /** The pointer loop of nodeFromFile: count big-endian 8-byte values. */
  function PointerTable(pb: seq<byte>, count: nat): (r: seq<u64>)
    requires PTR_SIZE * count <= |pb|
    ensures |r| == count && forall k :: 0 <= k < count ==> r[k] == U64At(pb, PTR_SIZE * k)
  {
    if count == 0 then [] else PointerTable(pb, count - 1) + [U64At(pb, PTR_SIZE * (count - 1))]
  }

  /** The offset loop of nodeFromFile: count big-endian 2-byte values. */
  function OffsetTable(ob: seq<byte>, count: nat): (r: seq<u16>)
    requires OFFSET * count <= |ob|
    ensures |r| == count && forall k :: 0 <= k < count ==> r[k] == BytesToUInt16(ob, OFFSET * k)
  {
    if count == 0 then [] else OffsetTable(ob, count - 1) + [BytesToUInt16(ob, OFFSET * (count - 1))]
  }

  /** The four bytes of an entry header at `at` are there and announce a non-empty key and value. */
  predicate EntryReadable(g: seq<byte>, at: nat)
  {
    EntryInside(g, at) && BytesToUInt16(g, at) > 0 && BytesToUInt16(g, at + 2) > 0
  }

  /**
   * The entry loop of nodeFromFile: count entries read back to back from `at`. Each
   * needs its header, its key and its value in full, and a key or value of length
   * zero fails as well, since fread of a zero-sized item returns 0 rather than 1.
   */
  function EntriesFrom(g: seq<byte>, at: nat, count: nat): (r: Option<seq<KeyValue>>)
    ensures r.Some? ==> |r.value| == count
    decreases count
  {
    if count == 0 then Some([])
    else if !EntryReadable(g, at) then None
    else match EntriesFrom(g, EntryEnd(g, at), count - 1)
      case None => None
      case Some(rest) => Some([EntryIn(g, at)] + rest)
  }

  /**
   * nodeFromFile: NULL when the seek fails or a read comes up short; a node whose
   * self pointer is the offset it was read from otherwise, with arrays of exactly
   * nkeys+1 pointers and nkeys offsets and entries. With nkeys = 65535 the uint16_t
   * pointer loop `i < nkeys + 1` never ends.
   */
  function LoadNode(f: seq<byte>, p: u64): (r: Load)
    ensures r.Loaded? ==> r.node.selfPointer == p && WellSized(r.node)
    ensures r.Loaded? ==> |r.node.pointers| == NKeys(r.node) + 1 && |r.node.offsets| == NKeys(r.node)
    ensures r.Loaded? ==> |r.node.keyValues| == NKeys(r.node) < 0xFFFF
  {
    var g := Drop(f, p);
    if !SeekOk(p) || |g| < HEADER then NoNode
    else
      var n := BytesToUInt16(g, 2);
      if |g| < OffsetsStart(n) then NoNode
      else if n == 0xFFFF then Diverges
      else if |g| < KeysStart(n) then NoNode
      else match EntriesFrom(g, KeysStart(n), n)
        case None => NoNode
        case Some(kvs) =>
          Loaded(NodeData(NodeHeader(BytesToUInt16(g, 0), n), p,
                          PointerTable(g[HEADER..OffsetsStart(n)], n + 1),
                          OffsetTable(g[OffsetsStart(n)..KeysStart(n)], n),
                          kvs))
  }

  method ReadPointerTable(pb: seq<byte>, count: nat) returns (ptrs: seq<u64>)
    requires PTR_SIZE * count <= |pb|
    ensures ptrs == PointerTable(pb, count)
  {
    ptrs := [];
    var i := 0;
    while i < count
      invariant i <= count && ptrs == PointerTable(pb, i)
    {
      var v := BytesToUInt64(pb, PTR_SIZE * i);
      ptrs := ptrs + [v];
      i := i + 1;
    }
  }

  method ReadOffsetTable(ob: seq<byte>, count: nat) returns (offs: seq<u16>)
    requires OFFSET * count <= |ob|
    ensures offs == OffsetTable(ob, count)
  {
    offs := [];
    var i := 0;
    while i < count
      invariant i <= count && offs == OffsetTable(ob, i)
    {
      offs := offs + [BytesToUInt16(ob, OFFSET * i)];
      i := i + 1;
    }
  }

  /** The entries read so far followed by the outcome of reading the rest. */
  function Then(done: seq<KeyValue>, rest: Option<seq<KeyValue>>): Option<seq<KeyValue>>
  {
    match rest
    case None => None
    case Some(more) => Some(done + more)
  }

  lemma EntriesFromStep(g: seq<byte>, at: nat, count: nat, done: seq<KeyValue>)
    requires count > 0 && EntryReadable(g, at)
    ensures Then(done, EntriesFrom(g, at, count))
         == Then(done + [EntryIn(g, at)], EntriesFrom(g, EntryEnd(g, at), count - 1))
  {
    match EntriesFrom(g, EntryEnd(g, at), count - 1)
    case None =>
    case Some(rest) =>
      AppendAssoc(done, [EntryIn(g, at)], rest);
  }

  /** One turn of the entry loop of nodeFromFile: klen and vlen, then the key and the value. */
  method ReadEntry(g: seq<byte>, pos: nat) returns (kv: KeyValue, next: nat, ok: bool)
    ensures ok <==> EntryReadable(g, pos)
    ensures ok ==> kv == EntryIn(g, pos) && next == EntryEnd(g, pos)
  {
    kv, next, ok := Blank, pos, false;
    if pos + KEYVALUE > |g| {
      return;
    }
    var klen := BytesToUInt16(g, pos);
    var vlen := BytesToUInt16(g, pos + 2);
    if klen == 0 || vlen == 0 || pos + KEYVALUE + klen + vlen > |g| {
      return;
    }
    var key := g[pos + KEYVALUE..pos + KEYVALUE + klen];
    var value := g[pos + KEYVALUE + klen..pos + KEYVALUE + klen + vlen];
    kv, next, ok := KeyValue(key, value), pos + KEYVALUE + klen + vlen, true;
  }

  /** The entry loop of nodeFromFile; ok is false when a read fails. */
  method ReadEntryRun(g: seq<byte>, at: nat, count: nat) returns (kvs: seq<KeyValue>, ok: bool)
    ensures ok <==> EntriesFrom(g, at, count).Some?
    ensures ok ==> kvs == EntriesFrom(g, at, count).value
  {
    kvs := [];
    var pos: nat, i: nat := at, 0;
    while i < count
      invariant i <= count
      invariant Then([], EntriesFrom(g, at, count)) == Then(kvs, EntriesFrom(g, pos, count - i))
      decreases count - i
    {
      var kv, next, readable := ReadEntry(g, pos);
      if !readable {
        return kvs, false;
      }
      EntriesFromStep(g, pos, count - i, kvs);
      kvs, pos, i := kvs + [kv], next, i + 1;
    }
    assert kvs + [] == kvs;
    ok := true;
  }

  /** nodeFromFile: node is null for NULL; hangs when the C loop would never return. */
  method NodeFromFile(db: seq<byte>, offset: u64) returns (node: Node?, hangs: bool)
    ensures node != null <==> LoadNode(db, offset).Loaded?
    ensures node != null ==> fresh(node) && node.Data() == LoadNode(db, offset).node
    ensures hangs <==> LoadNode(db, offset).Diverges?
  {
    node, hangs := null, false;
    if !SeekOk(offset) {
      return;
    }
    var g := Drop(db, offset);
    if |g| < HEADER {
      return;
    }
    var ntype := BytesToUInt16(g, 0);
    var n := BytesToUInt16(g, 2);
    if |g| < OffsetsStart(n) {
      return;
    }
    if n == 0xFFFF {
      // fread of the 65536 pointers succeeded, and `uint16_t i < nkeys + 1` holds forever
      hangs := true;
      return;
    }
    var ptrs := ReadPointerTable(g[HEADER..OffsetsStart(n)], n + 1);
    if |g| < KeysStart(n) {
      return;
    }
    var offs := ReadOffsetTable(g[OffsetsStart(n)..KeysStart(n)], n);
    var kvs, ok := ReadEntryRun(g, KeysStart(n), n);
    if !ok {
      return;
    }
    node := new Node(NodeData(NodeHeader(ntype, n), offset, ptrs, offs, kvs));
  }

  // ---------------------------------------------------------------------------
  // Reading back what was written

  /** Every stored key and value is non-empty, so each of their freads reads one item. */
  predicate NonEmptyEntries(d: NodeData)
    requires WellSized(d)
  {
    forall k :: 0 <= k < NKeys(d) ==> |d.keyValues[k].key| > 0 && |d.keyValues[k].value| > 0
  }

  /** Every entry the entry loop reads back has a non-empty key and value. */
  lemma {:induction false} EntriesFromNonEmpty(g: seq<byte>, at: nat, count: nat)
    requires EntriesFrom(g, at, count).Some?
    ensures var kvs := EntriesFrom(g, at, count).value;
      forall k :: 0 <= k < |kvs| ==> |kvs[k].key| > 0 && |kvs[k].value| > 0
    decreases count
  {
    if count > 0 {
      EntriesFromNonEmpty(g, EntryEnd(g, at), count - 1);
    }
  }

  /** ...so a node nodeFromFile returns holds no empty key or value. */
  lemma LoadedNonEmpty(f: seq<byte>, p: u64)
    requires LoadNode(f, p).Loaded?
    ensures NonEmptyEntries(LoadNode(f, p).node)
  {
    var g := Drop(f, p);
    var n := BytesToUInt16(g, 2);
    EntriesFromNonEmpty(g, KeysStart(n), n);
  }

  /** The entries the loop reads back lie inside g, from `at` on. */
  lemma {:induction false} EntriesFromInside(g: seq<byte>, at: nat, count: nat)
    requires at <= |g| && EntriesFrom(g, at, count).Some?
    ensures at + EntriesSize(EntriesFrom(g, at, count).value) <= |g|
    decreases count
  {
    if count > 0 {
      var e, next := EntryIn(g, at), EntryEnd(g, at);
      var rest := EntriesFrom(g, next, count - 1).value;
      EntriesFromInside(g, next, count - 1);
      EntriesSizeCons(e, rest);
    }
  }

  /**
   * nodeFromFile returns a node only after its seek succeeded, and only when the
   * file holds the node's whole image from p on: every fread before it came back full.
   */
  lemma LoadedInside(f: seq<byte>, p: u64)
    requires LoadNode(f, p).Loaded?
    ensures SeekOk(p)
    ensures p as nat + NodeByteSize(LoadNode(f, p).node) <= |f|
  {
    var g := Drop(f, p);
    var n := BytesToUInt16(g, 2);
    var d := LoadNode(f, p).node;
    EntriesFromInside(g, KeysStart(n), n);
    assert Entries(d) == d.keyValues;
  }

  /**
   * A file that ends inside the node header, inside the pointer table, or (with
   * fewer than 65535 keys) inside the offset table makes nodeFromFile return NULL.
   */
  lemma LoadTruncated(f: seq<byte>, p: u64)
    ensures |f| < p as nat + HEADER ==> LoadNode(f, p) == NoNode
    ensures p as nat + HEADER <= |f| ==>
      var n := BytesToUInt16(f, p as nat + 2);
      && (|f| < p as nat + OffsetsStart(n) ==> LoadNode(f, p) == NoNode)
      && (n < 0xFFFF && p as nat + OffsetsStart(n) <= |f| < p as nat + KeysStart(n) ==> LoadNode(f, p) == NoNode)
  {
    if p as nat + HEADER <= |f| {
      var g := Drop(f, p);
      assert g[2..4] == f[p as nat + 2..p as nat + 4];
    }
  }

  /** addKVtoNode with a non-empty key and value keeps every key and value non-empty. */
  lemma AddKVNonEmpty(d: NodeData, kv: KeyValue)
    requires WellSized(d) && d.header.nkeys < 0xFFFF && NonEmptyEntries(d)
    requires |kv.key| > 0 && |kv.value| > 0
    ensures NonEmptyEntries(AddKV(d, kv))
  {
    var r, pos := AddKV(d, kv), InsertPos(d, kv);
    AddKVEntries(d, kv);
    forall k | 0 <= k < NKeys(r)
      ensures |r.keyValues[k].key| > 0 && |r.keyValues[k].value| > 0
    {
      assert r.keyValues[k] == Entries(r)[k];
      if k < pos {
        assert Entries(r)[k] == d.keyValues[k];
      } else if k > pos {
        assert Entries(r)[k] == d.keyValues[k - 1];
      }
    }
  }

  /** g starts with the image of d. */
  ghost predicate Holds(g: seq<byte>, d: NodeData)
    requires WellSized(d)
  {
    |Encode(d)| <= |g| && g[..|Encode(d)|] == Encode(d)
  }

  /** A slice inside the image reads the image. */
  lemma HoldsSlice(g: seq<byte>, e: seq<byte>, i: nat, j: nat)
    requires |e| <= |g| && g[..|e|] == e && i <= j <= |e|
    ensures g[i..j] == e[i..j]
  {
    SliceOfSliceRange(g, 0, |e|, i, j);
  }

  lemma HeaderFromImage(g: seq<byte>, d: NodeData)
    requires WellSized(d) && Holds(g, d)
    ensures HEADER <= |g|
    ensures BytesToUInt16(g, 0) == d.header.ntype && BytesToUInt16(g, 2) == d.header.nkeys
  {
    var e := Encode(d);
    EncodeHeaderAt(d);
    HoldsSlice(g, e, 0, 2);
    HoldsSlice(g, e, 2, 4);
    U16Read(g, 0, d.header.ntype);
    U16Read(g, 2, d.header.nkeys);
  }

  lemma PointerFromImage(g: seq<byte>, d: NodeData, k: nat)
    requires WellSized(d) && Holds(g, d) && k <= NKeys(d)
    ensures OffsetsStart(NKeys(d)) <= |g|
    ensures U64At(g[HEADER..OffsetsStart(NKeys(d))], PTR_SIZE * k) == d.pointers[k]
  {
    hide Encode;
    hide BeBytes;
    hide BigEndian;
    var e, os := Encode(d), OffsetsStart(NKeys(d));
    var at := HEADER + PTR_SIZE * k;
    EncodePointerAt(d, k);
    HoldsSlice(g, e, at, at + PTR_SIZE);
    SliceOfSliceRange(g, HEADER, os, PTR_SIZE * k, PTR_SIZE * k + PTR_SIZE);
    U64Read(g[HEADER..os], PTR_SIZE * k, d.pointers[k]);
  }

  lemma PointersFromImage(g: seq<byte>, d: NodeData)
    requires WellSized(d) && Holds(g, d)
    ensures OffsetsStart(NKeys(d)) <= |g|
    ensures PointerTable(g[HEADER..OffsetsStart(NKeys(d))], NKeys(d) + 1) == Pointers(d)
  {
    var n := NKeys(d);
    var r := PointerTable(g[HEADER..OffsetsStart(n)], n + 1);
    forall k | 0 <= k <= n
      ensures r[k] == Pointers(d)[k]
    {
      PointerFromImage(g, d, k);
    }
  }

  lemma OffsetFromImage(g: seq<byte>, d: NodeData, k: nat)
    requires WellSized(d) && Holds(g, d) && k < NKeys(d)
    ensures KeysStart(NKeys(d)) <= |g|
    ensures BytesToUInt16(g[OffsetsStart(NKeys(d))..KeysStart(NKeys(d))], OFFSET * k) == OffsetAt(d, k)
  {
    hide Encode;
    hide BeBytes;
    hide BigEndian;
    hide OffsetAt;
    var e, os, ks := Encode(d), OffsetsStart(NKeys(d)), KeysStart(NKeys(d));
    var at := os + OFFSET * k;
    EncodeOffsetAt(d, k);
    HoldsSlice(g, e, at, at + OFFSET);
    SliceOfSliceRange(g, os, ks, OFFSET * k, OFFSET * k + OFFSET);
    U16Read(g[os..ks], OFFSET * k, OffsetAt(d, k));
  }

  lemma OffsetsFromImage(g: seq<byte>, d: NodeData)
    requires WellSized(d) && Holds(g, d)
    ensures KeysStart(NKeys(d)) <= |g|
    ensures OffsetTable(g[OffsetsStart(NKeys(d))..KeysStart(NKeys(d))], NKeys(d)) == Offsets(d)
  {
    var n := NKeys(d);
    var r := OffsetTable(g[OffsetsStart(n)..KeysStart(n)], n);
    forall k | 0 <= k < n
      ensures r[k] == Offsets(d)[k]
    {
      OffsetFromImage(g, d, k);
    }
  }

  lemma EntryFromImage(g: seq<byte>, d: NodeData, k: nat)
    requires WellSized(d) && Holds(g, d) && NonEmptyEntries(d) && k < NKeys(d)
    ensures EntryReadable(g, EntryStart(d, k))
    ensures EntryIn(g, EntryStart(d, k)) == d.keyValues[k]
    ensures EntryEnd(g, EntryStart(d, k)) == EntryStart(d, k + 1)
  {
    var kv, at := d.keyValues[k], EntryStart(d, k);
    EncodeEntryAt(d, k);
    HoldsSlice(g, Encode(d), at, at + EntrySize(kv));
    EntryRead(g, at, kv);
    EntriesSizeStep(d.keyValues, k);
  }

  /** Entries k.. of d read back from where nodeToBytes put entry k. */
  lemma {:induction false} EntriesFromImage(g: seq<byte>, d: NodeData, k: nat)
    requires WellSized(d) && Holds(g, d) && NonEmptyEntries(d) && k <= NKeys(d)
    ensures EntriesFrom(g, EntryStart(d, k), NKeys(d) - k) == Some(d.keyValues[k..NKeys(d)])
    decreases NKeys(d) - k
  {
    if k < NKeys(d) {
      EntriesFromImage(g, d, k + 1);
      EntriesFromImageStep(g, d, k);
    } else {
      assert d.keyValues[k..NKeys(d)] == [];
    }
  }

  /** Entry k read in front of entries k+1.. gives entries k.. */
  lemma EntriesFromImageStep(g: seq<byte>, d: NodeData, k: nat)
    requires WellSized(d) && Holds(g, d) && NonEmptyEntries(d) && k < NKeys(d)
    requires EntriesFrom(g, EntryStart(d, k + 1), NKeys(d) - (k + 1)) == Some(d.keyValues[k + 1..NKeys(d)])
    ensures EntriesFrom(g, EntryStart(d, k), NKeys(d) - k) == Some(d.keyValues[k..NKeys(d)])
  {
    var n := NKeys(d);
    EntryFromImage(g, d, k);
    hide Encode;
    hide EntryIn;
    hide EntryEnd;
    hide EntryStart;
    hide Holds;
    var kvs := d.keyValues[k..n];
    assert kvs[0] == d.keyValues[k] && kvs[1..] == d.keyValues[k + 1..n];
    EntriesFromCons(g, EntryStart(d, k), n - k, kvs);
  }

  lemma EntriesFromCons(g: seq<byte>, at: nat, count: nat, kvs: seq<KeyValue>)
    requires count > 0 && |kvs| == count && EntryReadable(g, at) && EntryIn(g, at) == kvs[0]
    requires EntriesFrom(g, EntryEnd(g, at), count - 1) == Some(kvs[1..])
    ensures EntriesFrom(g, at, count) == Some(kvs)
  {
    assert kvs == [kvs[0]] + kvs[1..];
  }

  /** nodeFromFile reads back, at p, a node that addNodeToFile or updateNodeOnFile wrote at p. */
  lemma LoadWritten(f: seq<byte>, p: u64, d: NodeData)
    requires WellSized(d) && SeekOk(p) && NKeys(d) < 0xFFFF && NonEmptyEntries(d)
    ensures LoadNode(WriteAt(f, p, Encode(d)), p) == Loaded(Stored(d, p))
  {
    WrittenImage(f, p, d);
    LoadImage(WriteAt(f, p, Encode(d)), p, d);
  }

  // ---------------------------------------------------------------------------
  // Pages that survive later writes

  /** The image of d sits in f at p. */
  ghost predicate ImageAt(f: seq<byte>, p: nat, d: NodeData)
    requires WellSized(d)
  {
    p + NodeByteSize(d) <= |f| && f[p..p + NodeByteSize(d)] == Encode(d)
  }

  /** A node whose image sits at p loads as that node. */
  lemma LoadImage(f: seq<byte>, p: u64, d: NodeData)
    requires WellSized(d) && ImageAt(f, p, d)
    requires SeekOk(p) && NKeys(d) < 0xFFFF && NonEmptyEntries(d)
    ensures LoadNode(f, p) == Loaded(Stored(d, p))
  {
    hide EntriesFrom;
    hide PointerTable;
    hide OffsetTable;
    var w := Encode(d);
    var g := Drop(f, p);
    SliceOfSlice(f, p, 0, |w|);
    assert Holds(g, d);
    HeaderFromImage(g, d);
    PointersFromImage(g, d);
    OffsetsFromImage(g, d);
    EntriesFromImage(g, d, 0);
    assert EntryStart(d, 0) == KeysStart(NKeys(d)) by {
      assert d.keyValues[..0] == [];
    }
    assert d.keyValues[0..NKeys(d)] == Entries(d);
  }

  /** A write that ends before p or starts after the image leaves the image in place. */
  lemma ImageSurvives(f: seq<byte>, p: nat, d: NodeData, q: nat, w: seq<byte>)
    requires WellSized(d) && ImageAt(f, p, d)
    requires q + |w| <= p || p + NodeByteSize(d) <= q
    ensures ImageAt(WriteAt(f, q, w), p, d)
  {
    var r := WriteAt(f, q, w);
    var m := NodeByteSize(d);
    forall k | p <= k < p + m
      ensures r[k] == f[k]
    {
    }
    assert r[p..p + m] == f[p..p + m];
  }

  lemma WrittenImage(f: seq<byte>, p: nat, d: NodeData)
    requires WellSized(d)
    ensures ImageAt(WriteAt(f, p, Encode(d)), p, d)
  {
  }

  // ---------------------------------------------------------------------------
  // The tree (struct BTree, src/btree.h:43-48)

  /** root, last and t, and the bytes of the file f. */
  datatype Tree = Tree(root: u64, last: u64, t: u16, file: seq<byte>)

  /** The n bytes of v, least significant first, as fwrite stores an integer on a little-endian machine. */
  function LeBytes(v: nat, n: nat): (r: seq<byte>)
    ensures |r| == n && forall k :: 0 <= k < n ==> r[k] == (v / Pow256(k)) % 256
  {
    BeBytesAll(v, n);
    Reverse(BeBytes(v, n))
  }

  lemma BeBytesAll(v: nat, n: nat)
    ensures forall k :: 0 <= k < n ==> BeBytes(v, n)[n - 1 - k] == (v / Pow256(k)) % 256
  {
    forall k | 0 <= k < n
      ensures BeBytes(v, n)[n - 1 - k] == (v / Pow256(k)) % 256
    {
      BeBytesAt(v, n, n - 1 - k);
    }
  }

  /** Bytes of the tree header at the start of the file: root, last and t, 8 + 8 + 2 bytes. */
  const TREE_HEADER: nat := 18

  function TreeHeaderBytes(s: Tree): (r: seq<byte>)
    ensures |r| == TREE_HEADER
    ensures r[..8] == LeBytes(s.root, 8) && r[8..16] == LeBytes(s.last, 8) && r[16..] == LeBytes(s.t, 2)
  {
    LeBytes(s.root, 8) + LeBytes(s.last, 8) + LeBytes(s.t, 2)
  }

  /**
   * updateTreeInFile (src/btree.c:324-339): the header fields written at offset 0. The
   * seek to 0 cannot fail; a failing fwrite is not modelled.
   */
  function WithHeader(s: Tree): (r: Tree)
    ensures r.root == s.root && r.last == s.last && r.t == s.t
    ensures |r.file| >= TREE_HEADER && r.file[..TREE_HEADER] == TreeHeaderBytes(s)
    ensures Drop(r.file, TREE_HEADER) == Drop(s.file, TREE_HEADER)
  {
    var r := s.(file := WriteAt(s.file, 0, TreeHeaderBytes(s)));
    assert Drop(r.file, TREE_HEADER) == Drop(s.file, TREE_HEADER);
    r
  }

  /** A page at or past the header is not touched by updateTreeInFile. */
  lemma ImageSurvivesHeader(s: Tree, p: nat, d: NodeData)
    requires WellSized(d) && ImageAt(s.file, p, d) && p >= TREE_HEADER
    ensures ImageAt(WithHeader(s).file, p, d)
  {
    ImageSurvives(s.file, p, d, 0, TreeHeaderBytes(s));
  }

  /** The outcome of addNodeToFile: the new state, the return value and *destinationPointer. */
  datatype Added = Added(tree: Tree, ok: bool, dest: u64)

  /**
   * addNodeToFile (src/btree.c:341-372) on a node with fewer than 65535 keys (with
   * 65535 the pointer loop of nodeToBytes never ends): the image goes to the page at
   * last, last moves on by a page and the header is rewritten. Only the seek can
   * fail here, and then nothing changes.
   */
  function AddNode(s: Tree, d: NodeData): (a: Added)
    requires WellSized(d) && NKeys(d) < 0xFFFF
    ensures a.ok == SeekOk(s.last)
    ensures !a.ok ==> a.tree == s
    ensures a.ok ==> a.dest == s.last && a.tree.last == NextPage(s.last)
    ensures a.tree.root == s.root && a.tree.t == s.t
  {
    if !SeekOk(s.last) then Added(s, false, 0)
    else
      var written := s.(file := WriteAt(s.file, s.last, Encode(d)), last := NextPage(s.last));
      Added(WithHeader(written), true, s.last)
  }

  /** The page addNodeToFile writes holds the node's image, at any address past the header. */
  lemma AddNodeImage(s: Tree, d: NodeData)
    requires WellSized(d) && NKeys(d) < 0xFFFF && SeekOk(s.last) && s.last >= TREE_HEADER
    ensures ImageAt(AddNode(s, d).tree.file, s.last, d)
  {
    var written := s.(file := WriteAt(s.file, s.last, Encode(d)), last := NextPage(s.last));
    WrittenImage(s.file, s.last, d);
    ImageSurvivesHeader(written, s.last, d);
  }

  /**
   * addNodeToFile changes only the tree header and the page it appends: the file
   * does not shrink, and every byte past the header outside the new image keeps
   * its value.
   */
  lemma AddNodeKeeps(s: Tree, d: NodeData)
    requires WellSized(d) && NKeys(d) < 0xFFFF
    ensures |AddNode(s, d).tree.file| >= |s.file|
    ensures forall k :: TREE_HEADER <= k < |s.file| && !(s.last as nat <= k < s.last as nat + NodeByteSize(d)) ==>
      AddNode(s, d).tree.file[k] == s.file[k]
  {
    if SeekOk(s.last) {
      hide WriteAt;
      var written := s.(file := WriteAt(s.file, s.last as nat, Encode(d)), last := NextPage(s.last));
      var r := WithHeader(written);
      assert AddNode(s, d).tree == r;
      hide AddNode;
      hide WithHeader;
      forall k | TREE_HEADER <= k < |s.file| && !(s.last as nat <= k < s.last as nat + NodeByteSize(d))
        ensures r.file[k] == s.file[k]
      {
        assert Drop(r.file, TREE_HEADER)[k - TREE_HEADER] == Drop(written.file, TREE_HEADER)[k - TREE_HEADER];
      }
    }
  }

  /** ...so nodeFromFile reads the node back from the address addNodeToFile returned. */
  lemma AddNodeLoads(s: Tree, d: NodeData)
    requires WellSized(d) && SeekOk(s.last) && s.last >= TREE_HEADER
    requires NKeys(d) < 0xFFFF && NonEmptyEntries(d)
    ensures AddNode(s, d).ok
    ensures var a := AddNode(s, d); LoadNode(a.tree.file, a.dest) == Loaded(Stored(d, a.dest))
  {
    AddNodeImage(s, d);
    LoadImage(AddNode(s, d).tree.file, s.last, d);
  }

  /** The outcome of updateNodeOnFile: the new state and the return value. */
  datatype Updated = Updated(tree: Tree, ok: bool)

  /**
   * updateNodeOnFile (src/btree.c:374-397) on a node with fewer than 65535 keys (with
   * 65535 the pointer loop of nodeToBytes never ends): the image goes to the node's
   * self pointer; a failing seek returns 0 and writes nothing. The header is not
   * rewritten.
   */
  function UpdateNode(s: Tree, d: NodeData): (u: Updated)
    requires WellSized(d) && NKeys(d) < 0xFFFF
    ensures u.ok == SeekOk(d.selfPointer)
    ensures u.tree.root == s.root && u.tree.last == s.last && u.tree.t == s.t
    ensures !u.ok ==> u.tree == s
    ensures u.ok ==> ImageAt(u.tree.file, d.selfPointer, d)
  {
    if !SeekOk(d.selfPointer) then Updated(s, false)
    else
      WrittenImage(s.file, d.selfPointer, d);
      Updated(s.(file := WriteAt(s.file, d.selfPointer, Encode(d))), true)
  }

  /** Rewriting a node that was read from p makes nodeFromFile at p read the rewritten node. */
  lemma UpdateNodeLoads(s: Tree, d: NodeData)
    requires WellSized(d) && SeekOk(d.selfPointer) && NKeys(d) < 0xFFFF && NonEmptyEntries(d)
    ensures LoadNode(UpdateNode(s, d).tree.file, d.selfPointer) == Loaded(Stored(d, d.selfPointer))
  {
    LoadImage(UpdateNode(s, d).tree.file, d.selfPointer, d);
  }

  /** The byte ranges [p, p+m) and [q, q+k) do not overlap. */
  predicate Apart(p: nat, m: nat, q: nat, k: nat)
  {
    p + m <= q || q + k <= p
  }

  /** updateNodeOnFile leaves the image of any other node alone when the two do not overlap. */
  lemma UpdateNodeKeeps(s: Tree, d: NodeData, p: nat, e: NodeData)
    requires WellSized(d) && NKeys(d) < 0xFFFF && WellSized(e) && ImageAt(s.file, p, e)
    requires Apart(d.selfPointer as nat, NodeByteSize(d), p, NodeByteSize(e))
    ensures ImageAt(UpdateNode(s, d).tree.file, p, e)
  {
    if SeekOk(d.selfPointer) {
      ImageSurvives(s.file, p, e, d.selfPointer as nat, Encode(d));
    }
  }

  /** The key-value pair createMockupTree stores: key "k", value "v". */
  const MOCK_KV: KeyValue := KeyValue([0x6b], [0x76])

  /** The root createMockupTree builds: createEmptyNode(4) made a leaf, with MOCK_KV added. */
  function MockRoot(): (d: NodeData)
    ensures WellSized(d) && d.header == NodeHeader(LEAF, 1) && d.selfPointer == 0
  {
    AddKV(EmptyNode(4).(header := NodeHeader(LEAF, 0)), MOCK_KV)
  }

  /**
   * The state createMockupTree (src/btree.c:472-524) leaves: an emptied file, root and
   * last at the first page, t = 4, the root written by addNodeToFile, then the header
   * written once more.
   */
  function MockTree(): (s: Tree)
    ensures s.root == PAGE && s.last == 2 * PAGE && s.t == 4
  {
    WithHeader(AddNode(Tree(PAGE, PAGE, 4, []), MockRoot()).tree)
  }

  /** The mock root reads back from the root page as a leaf holding just "k" -> "v". */
  lemma MockRootLoads()
    ensures LoadNode(MockTree().file, PAGE) == Loaded(NodeData(NodeHeader(LEAF, 1), PAGE, [0, 0], [0], [MOCK_KV]))
  {
    var s0 := Tree(PAGE, PAGE, 4, []);
    var d := MockRoot();
    AddNodeImage(s0, d);
    ImageSurvivesHeader(AddNode(s0, d).tree, PAGE as nat, d);
    LoadImage(MockTree().file, PAGE, d);
    MockRootStored();
  }

  lemma MockRootStored()
    ensures Stored(MockRoot(), PAGE) == NodeData(NodeHeader(LEAF, 1), PAGE, [0, 0], [0], [MOCK_KV])
  {
    var e := EmptyNode(4).(header := NodeHeader(LEAF, 0));
    assert InsertPos(e, MOCK_KV) == 0;
    assert InsertedEntries(e, MOCK_KV) == [MOCK_KV];
    assert EntriesSize(InsertedEntries(e, MOCK_KV)[..0]) == 0;
  }

  // ---------------------------------------------------------------------------
  // struct BTree and the operations that write to its file

  class BTree {
    var root: u64
    var last: u64
    var t: u16
    var file: seq<byte>

    function Data(): Tree
      reads this
    {
      Tree(root, last, t, file)
    }

    /** updateTreeInFile (src/btree.c:324-339). */
    method UpdateTreeInFile()
      modifies this
      ensures Data() == WithHeader(old(Data()))
    {
      file := WriteAt(file, 0, LeBytes(root, 8) + LeBytes(last, 8) + LeBytes(t, 2));
    }

    /**
     * addNodeToFile (src/btree.c:341-372); dest is *destinationPointer, set only on
     * success. hangs: the call never returns, because nodeToBytes never ends on a
     * node with 65535 keys; the file is not touched before that.
     */
    method AddNodeToFile(node: Node) returns (ok: bool, dest: u64, hangs: bool)
      requires WellSized(node.Data())
      modifies this
      ensures hangs <==> node.header.nkeys == 0xFFFF
      ensures hangs ==> Data() == old(Data())
      ensures !hangs ==> var a := AddNode(old(Data()), node.Data());
        ok == a.ok && Data() == a.tree && (ok ==> dest == a.dest)
    {
      hide WriteAt;
      hide WithHeader;
      hide Encode;
      if node.header.nkeys == 0xFFFF {
        return false, 0, true;
      }
      hangs := false;
      var bytes, size := node.ToBytes();
      if !SeekOk(last) {
        return false, 0, false;
      }
      file := WriteAt(file, last, bytes[..]);
      dest := last;
      last := NextPage(last);
      UpdateTreeInFile();
      ok := true;
    }

    /**
     * updateNodeOnFile (src/btree.c:374-397). hangs: the call never returns, because
     * nodeToBytes never ends on a node with 65535 keys; nothing is written before that.
     */
    method UpdateNodeOnFile(node: Node) returns (ok: bool, hangs: bool)
      requires WellSized(node.Data())
      modifies this
      ensures hangs <==> node.header.nkeys == 0xFFFF
      ensures hangs ==> Data() == old(Data())
      ensures !hangs ==> var u := UpdateNode(old(Data()), node.Data());
        ok == u.ok && Data() == u.tree
    {
      if node.header.nkeys == 0xFFFF {
        return false, true;
      }
      hangs := false;
      var bytes, size := node.ToBytes();
      if !SeekOk(node.selfPointer) {
        return false, false;
      }
      file := WriteAt(file, node.selfPointer, bytes[..]);
      ok := true;
    }

    /**
     * createMockupTree (src/btree.c:472-524), from the point where the file is open
     * and emptied: fopen and malloc are not modelled, and addNodeToFile cannot fail
     * on the first page.
     */
    constructor CreateMockupTree()
      ensures Data() == MockTree()
    {
      root, last, t, file := PAGE, PAGE, 4, [];
      new;
      var rootNode := new Node.CreateEmptyNode(t);
      rootNode.header := NodeHeader(LEAF, rootNode.header.nkeys);
      rootNode.AddKVtoNode(MOCK_KV);
      assert rootNode.Data() == MockRoot();
      ghost var s0 := Data();
      var ok, destination, hangs := AddNodeToFile(rootNode);
      assert Data() == AddNode(s0, MockRoot()).tree;
      UpdateTreeInFile();
    }
  }
}
