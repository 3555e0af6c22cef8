// An in-memory node (struct Node, src/btree.h:34-40) and the operations of
// src/btree.c that build, encode, decode, grow and scan one node.

module Nodes {
  import opened Bytes
  import opened Seqs
  import opened Keys
  import opened Layout

  /** A node whose first slots are given and whose remaining slots were allocated but never written. */
  function FreshNode(ntype: u16, npointers: nat, noffsets: nat, nentries: nat): (d: NodeData)
    ensures d.header == NodeHeader(ntype, 0) && d.selfPointer == 0
    ensures |d.pointers| == npointers && |d.offsets| == noffsets && |d.keyValues| == nentries
    ensures npointers >= 1 ==> WellSized(d)
  {
    NodeData(NodeHeader(ntype, 0), 0, seq(npointers, _ => 0), seq(noffsets, _ => 0),
             seq(nentries, _ => Blank))
  }

  /** A node of createEmptyNode(t) (src/btree.c:421-445): calloc'd arrays of t+1 pointers, t entries and t offsets. */
  function EmptyNode(t: u16): (d: NodeData)
    ensures WellSized(d) && d.header.nkeys == 0 && d.header.ntype == INTERNAL
    ensures |d.pointers| == t as nat + 1 && |d.offsets| == t as nat && |d.keyValues| == t as nat
    ensures forall k :: 0 <= k < |d.pointers| ==> d.pointers[k] == 0
  {
    FreshNode(INTERNAL, t + 1, t, t)
  }

  /** A node of createNode(type, t) (src/btree.c:447-470): room for 2t pointers, 2t offsets and 2t-1 entries. */
  function NewNode(ntype: u16, t: nat): (d: NodeData)
    requires t >= 1
    ensures WellSized(d) && d.header == NodeHeader(ntype, 0)
    ensures |d.pointers| == 2 * t && |d.offsets| == 2 * t && |d.keyValues| == 2 * t - 1
  {
    FreshNode(ntype, 2 * t, 2 * t, 2 * t - 1)
  }

  // ---------------------------------------------------------------------------
  // addKVtoNode (src/btree.c:132-164)

  /**
   * Where the shifting loop of addKVtoNode stops when it starts below index i: just
   * after the last entry that does not compare greater than kv.
   */
  function ScanLeft(kvs: seq<KeyValue>, kv: KeyValue, i: nat): (p: nat)
    requires i <= |kvs|
    ensures p <= i
  {
    if i == 0 then 0
    else if CompareKeyValue(kv, kvs[i - 1]) < 0 then ScanLeft(kvs, kv, i - 1)
    else i
  }

  /** The scan passes over entries greater than kv only, and stops at one that is not. */
  lemma {:induction false} ScanLeftStops(kvs: seq<KeyValue>, kv: KeyValue, i: nat)
    requires i <= |kvs|
    ensures var p := ScanLeft(kvs, kv, i);
      && (forall j :: p <= j < i ==> CompareKeyValue(kv, kvs[j]) < 0)
      && (p == 0 || CompareKeyValue(kv, kvs[p - 1]) >= 0)
  {
    if i > 0 && CompareKeyValue(kv, kvs[i - 1]) < 0 {
      ScanLeftStops(kvs, kv, i - 1);
    }
  }

  function InsertPos(d: NodeData, kv: KeyValue): nat
    requires WellSized(d)
  {
    ScanLeft(d.keyValues, kv, NKeys(d))
  }

  /** The scan only looks at the entries below i. */
  lemma {:induction false} ScanLeftAgree(a: seq<KeyValue>, b: seq<KeyValue>, kv: KeyValue, i: nat)
    requires i <= |a| && i <= |b| && forall k :: 0 <= k < i ==> a[k] == b[k]
    ensures ScanLeft(a, kv, i) == ScanLeft(b, kv, i)
  {
    if i > 0 {
      ScanLeftAgree(a, b, kv, i - 1);
    }
  }

  /** ScanLeft stops at the one slot with only greater entries above it and none below. */
  lemma {:induction false} ScanLeftIs(kvs: seq<KeyValue>, kv: KeyValue, i: nat, p: nat)
    requires p <= i <= |kvs|
    requires forall j :: p <= j < i ==> CompareKeyValue(kv, kvs[j]) < 0
    requires p == 0 || CompareKeyValue(kv, kvs[p - 1]) >= 0
    ensures ScanLeft(kvs, kv, i) == p
  {
    if i > p {
      ScanLeftIs(kvs, kv, i - 1, p);
    }
  }

  /** The first nkeys entries with kv inserted at InsertPos. */
  function InsertedEntries(d: NodeData, kv: KeyValue): (ks: seq<KeyValue>)
    requires WellSized(d)
    ensures |ks| == NKeys(d) + 1
  {
    var pos := InsertPos(d, kv);
    d.keyValues[..pos] + [kv] + d.keyValues[pos..NKeys(d)]
  }

  /** Offset j is the 16-bit total size of the entries before entry j. */
  function RunningOffsets(ks: seq<KeyValue>): (os: seq<u16>)
    ensures |os| == |ks|
    ensures forall j :: 0 <= j < |ks| ==> os[j] as int == EntriesSize(ks[..j]) % 0x1_0000
  {
    seq(|ks|, j requires 0 <= j < |ks| => EntriesSize(ks[..j]) % 0x1_0000)
  }

  /** The pointer array grown to nkeys+2 slots with the pointers right of the insertion moved up one. */
  function ShiftedPointers(d: NodeData, kv: KeyValue): (ps: seq<u64>)
    requires WellSized(d)
    ensures |ps| == NKeys(d) + 2
  {
    var n, pos := NKeys(d), InsertPos(d, kv);
    var P := Resize(d.pointers, n + 2, 0);
    P[..pos + 2] + P[pos + 1..n + 1]
  }

  /**
   * The node as addKVtoNode leaves it: kv inserted at InsertPos, the pointer array
   * grown by one with the pointers right of the insertion shifted up (pointer
   * pos+1 ends up twice), and every offset recomputed as the 16-bit running size.
   */
  function AddKV(d: NodeData, kv: KeyValue): (r: NodeData)
    requires WellSized(d) && d.header.nkeys < 0xFFFF
    ensures WellSized(r) && r.header == NodeHeader(d.header.ntype, d.header.nkeys + 1)
    ensures r.selfPointer == d.selfPointer && r.pointers[0] == d.pointers[0]
    ensures |r.pointers| == NKeys(d) + 2 && |r.offsets| == NKeys(d) + 1 && |r.keyValues| == NKeys(d) + 1
  {
    var ks := InsertedEntries(d, kv);
    NodeData(NodeHeader(d.header.ntype, d.header.nkeys + 1), d.selfPointer,
             ShiftedPointers(d, kv), RunningOffsets(ks), ks)
  }

  /** The entries after addKVtoNode: the old ones with kv inserted at InsertPos. */
  lemma AddKVEntries(d: NodeData, kv: KeyValue)
    requires WellSized(d) && d.header.nkeys < 0xFFFF
    ensures var pos, n := InsertPos(d, kv), NKeys(d);
      Entries(AddKV(d, kv)) == d.keyValues[..pos] + [kv] + d.keyValues[pos..n]
  {
    assert Entries(AddKV(d, kv)) == InsertedEntries(d, kv);
  }

  /** addKVtoNode adds exactly kv to the multiset of entries. */
  lemma AddKVMultiset(d: NodeData, kv: KeyValue)
    requires WellSized(d) && d.header.nkeys < 0xFFFF
    ensures multiset(Entries(AddKV(d, kv))) == multiset(Entries(d)) + multiset{kv}
  {
    var pos, n := InsertPos(d, kv), NKeys(d);
    var A, B := d.keyValues[..pos], d.keyValues[pos..n];
    assert Entries(d) == A + B;
    AddKVEntries(d, kv);
  }

  /** Inserting x where everything before it is not greater and everything after it is greater keeps order. */
  lemma InsertKeepsSorted(s: seq<KeyValue>, pos: nat, x: KeyValue)
    requires Sorted(s) && pos <= |s|
    requires forall j :: 0 <= j < pos ==> CompareKeyValue(s[j], x) <= 0
    requires forall j :: pos <= j < |s| ==> CompareKeyValue(x, s[j]) < 0
    ensures Sorted(s[..pos] + [x] + s[pos..])
  {
    var r := s[..pos] + [x] + s[pos..];
    forall a, b | 0 <= a < b < |r|
      ensures CompareKeyValue(r[a], r[b]) <= 0
    {
      if b < pos {
        assert r[a] == s[a] && r[b] == s[b];
      } else if b == pos {
        assert r[a] == s[a];
      } else if a == pos {
        assert r[b] == s[b - 1];
      } else if a < pos {
        assert r[a] == s[a] && r[b] == s[b - 1];
      } else {
        assert r[a] == s[a - 1] && r[b] == s[b - 1];
      }
    }
  }

  /** Before InsertPos every entry is not greater than kv when the node is sorted. */
  lemma BeforeInsertPos(d: NodeData, kv: KeyValue)
    requires WellSized(d) && Sorted(Entries(d))
    ensures forall j :: 0 <= j < InsertPos(d, kv) ==> CompareKeyValue(d.keyValues[j], kv) <= 0
  {
    var pos, s := InsertPos(d, kv), Entries(d);
    ScanLeftStops(d.keyValues, kv, NKeys(d));
    forall j | 0 <= j < pos
      ensures CompareKeyValue(d.keyValues[j], kv) <= 0
    {
      var last := d.keyValues[pos - 1];
      assert s[j] == d.keyValues[j] && s[pos - 1] == last;
      CompareAntisymmetric(kv, last);
      if j < pos - 1 {
        CompareTransitive(d.keyValues[j], last, kv);
      }
    }
  }

  /**
   * kv lands after every entry that does not compare greater than it and before
   * every entry that does, so a sorted node stays sorted.
   */
  lemma AddKVSorted(d: NodeData, kv: KeyValue)
    requires WellSized(d) && d.header.nkeys < 0xFFFF
    requires Sorted(Entries(d))
    ensures Sorted(Entries(AddKV(d, kv)))
    ensures Entries(AddKV(d, kv))[InsertPos(d, kv)] == kv
    ensures forall j :: 0 <= j < InsertPos(d, kv) ==> CompareKeyValue(d.keyValues[j], kv) <= 0
    ensures forall j :: InsertPos(d, kv) <= j < NKeys(d) ==> CompareKeyValue(kv, d.keyValues[j]) < 0
  {
    var pos, n, s := InsertPos(d, kv), NKeys(d), Entries(d);
    ScanLeftStops(d.keyValues, kv, n);
    BeforeInsertPos(d, kv);
    AddKVEntries(d, kv);
    assert s[..pos] == d.keyValues[..pos] && s[pos..] == d.keyValues[pos..n];
    InsertKeepsSorted(s, pos, kv);
  }

  /** With the entries at most 65535 bytes the recomputed offsets are the exact running sizes. */
  lemma AddKVCumulative(d: NodeData, kv: KeyValue)
    requires WellSized(d) && d.header.nkeys < 0xFFFF
    requires EntriesSize(Entries(AddKV(d, kv))) <= 0xFFFF
    ensures Cumulative(AddKV(d, kv))
  {
    var r := AddKV(d, kv);
    var ks := r.keyValues;
    assert Entries(r) == ks;
    assert r.offsets == RunningOffsets(ks);
    forall k | 0 <= k < NKeys(r)
      ensures OffsetAt(r, k) as int == EntriesSize(ks[..k])
    {
      EntriesSizePrefix(ks, k);
      assert OffsetAt(r, k) == r.offsets[k];
      assert r.offsets[k] as int == EntriesSize(ks[..k]) % 0x1_0000;
      SmallMod(EntriesSize(ks[..k]));
    }
  }

  /** Pointers left of the insertion stay; those right of it move up one; pointer pos+1 is kept in place too. */
  lemma AddKVPointers(d: NodeData, kv: KeyValue)
    requires WellSized(d) && d.header.nkeys < 0xFFFF
    ensures var r, pos, n := AddKV(d, kv), InsertPos(d, kv), NKeys(d);
      && (forall j :: 0 <= j <= pos + 1 && j <= n ==> r.pointers[j] == d.pointers[j])
      && (forall j :: pos + 2 <= j <= n + 1 ==> r.pointers[j] == d.pointers[j - 1])
  {
  }

  lemma SmallMod(x: nat)
    requires x < 0x1_0000
    ensures x % 0x1_0000 == x
  {
  }

  /** The 16-bit running sum of the offsets loop: adding 4, then klen + vlen, modulo 2^16. */
  lemma ModStep(a: nat, x: nat)
    ensures ((a % 0x1_0000 + 4) % 0x1_0000 + x) % 0x1_0000 == (a + 4 + x) % 0x1_0000
  {
  }

  // ---------------------------------------------------------------------------
  // getKeyInNode and getNextChild (src/btree.c:526-549)

  /** The first of kvs from index i on whose key memcmp-matches q, or -1. */
  function KeyIndexFrom(kvs: seq<KeyValue>, q: seq<byte>, i: nat): (r: int)
    requires i <= |kvs|
    ensures r == -1 || i <= r < |kvs|
    ensures r == -1 <==> forall k :: i <= k < |kvs| ==> !KeyMatches(q, kvs[k].key)
    ensures r >= 0 ==> KeyMatches(q, kvs[r].key) && forall k :: i <= k < r ==> !KeyMatches(q, kvs[k].key)
    decreases |kvs| - i
  {
    if i == |kvs| then -1
    else if KeyMatches(q, kvs[i].key) then i
    else KeyIndexFrom(kvs, q, i + 1)
  }

  /** The first of kvs whose key memcmp-matches q, or -1. */
  function KeyIndex(kvs: seq<KeyValue>, q: seq<byte>): (r: int)
    ensures -1 <= r < |kvs|
    ensures r == -1 <==> forall k :: 0 <= k < |kvs| ==> !KeyMatches(q, kvs[k].key)
    ensures r >= 0 ==> KeyMatches(q, kvs[r].key) && forall k :: 0 <= k < r ==> !KeyMatches(q, kvs[k].key)
  {
    KeyIndexFrom(kvs, q, 0)
  }

  /** A stored key without zero bytes is found exactly when it is a prefix of the query. */
  lemma KeyIndexIsPrefixMatch(kvs: seq<KeyValue>, q: seq<byte>)
    requires forall k :: 0 <= k < |kvs| ==> 0 !in kvs[k].key
    ensures KeyIndex(kvs, q) >= 0 ==>
      var key := kvs[KeyIndex(kvs, q)].key; |key| <= |q| && q[..|key|] == key
    ensures (exists k :: 0 <= k < |kvs| && |kvs[k].key| <= |q| && q[..|kvs[k].key|] == kvs[k].key) ==> KeyIndex(kvs, q) >= 0
  {
    var r := KeyIndex(kvs, q);
    if r >= 0 {
      KeyMatchesIsPrefix(q, kvs[r].key);
    }
    if exists k :: 0 <= k < |kvs| && |kvs[k].key| <= |q| && q[..|kvs[k].key|] == kvs[k].key {
      var k :| 0 <= k < |kvs| && |kvs[k].key| <= |q| && q[..|kvs[k].key|] == kvs[k].key;
      KeyMatchesIsPrefix(q, kvs[k].key);
    }
  }

  /** The entry at index i, or an empty one when i is past the array (a read past the allocation). */
  function EntryOrBlank(kvs: seq<KeyValue>, i: nat): KeyValue
  {
    if i < |kvs| then kvs[i] else Blank
  }

  /** memcpy(a + s, w, |w|). */
  method CopyInto(a: array<byte>, s: nat, w: seq<byte>)
    requires s + |w| <= a.Length
    modifies a
    ensures a[s..s + |w|] == w
    ensures forall k :: 0 <= k < a.Length && !(s <= k < s + |w|) ==> a[k] == old(a[k])
  {
    forall k | 0 <= k < |w| {
      a[s + k] := w[k];
    }
  }

  /** Writes w at cur and moves the cursor past it. */
  method Emit(a: array<byte>, cur: nat, w: seq<byte>) returns (next: nat)
    requires cur + |w| <= a.Length
    modifies a
    ensures next == cur + |w|
    ensures a[..next] == old(a[..cur]) + w
  {
    ghost var before := a[..];
    CopyInto(a, cur, w);
    WriteExtends(before, a[..], cur, w);
    next := cur + |w|;
  }

  method Emit16(a: array<byte>, cur: nat, v: u16) returns (next: nat)
    requires cur + 2 <= a.Length
    modifies a
    ensures next == cur + 2
    ensures a[..next] == old(a[..cur]) + BeBytes(v, 2)
  {
    ghost var before := a[..];
    UInt16ToBytes(v, a, cur);
    WriteExtends(before, a[..], cur, BeBytes(v, 2));
    next := cur + 2;
  }

  method Emit64(a: array<byte>, cur: nat, v: u64) returns (next: nat)
    requires cur + 8 <= a.Length
    modifies a
    ensures next == cur + 8
    ensures a[..next] == old(a[..cur]) + BeBytes(v, 8)
  {
    ghost var before := a[..];
    UInt64ToBytes(v, a, cur);
    WriteExtends(before, a[..], cur, BeBytes(v, 8));
    next := cur + 8;
  }

  /** The pointer loop of nodeToBytes. */
  method EmitPointers(a: array<byte>, cur: nat, ps: seq<u64>) returns (next: nat)
    requires cur + PTR_SIZE * |ps| <= a.Length
    modifies a
    ensures next == cur + PTR_SIZE * |ps|
    ensures a[..next] == old(a[..cur]) + PointerBytes(ps)
  {
    next := cur;
    var i: nat := 0;
    while i < |ps|
      invariant i <= |ps| && next == cur + PTR_SIZE * i
      invariant a[..next] == old(a[..cur]) + PointerBytes(ps[..i])
    {
      assert ps[..i + 1][..i] == ps[..i];
      next := Emit64(a, next, ps[i]);
      i := i + 1;
    }
    assert ps[..i] == ps;
  }

  /** The offset loop of nodeToBytes. */
  method EmitOffsets(a: array<byte>, cur: nat, os: seq<u16>) returns (next: nat)
    requires cur + OFFSET * |os| <= a.Length
    modifies a
    ensures next == cur + OFFSET * |os|
    ensures a[..next] == old(a[..cur]) + OffsetBytes(os)
  {
    next := cur;
    var i: nat := 0;
    while i < |os|
      invariant i <= |os| && next == cur + OFFSET * i
      invariant a[..next] == old(a[..cur]) + OffsetBytes(os[..i])
    {
      assert os[..i + 1][..i] == os[..i];
      next := Emit16(a, next, os[i]);
      i := i + 1;
    }
    assert os[..i] == os;
  }

  /** One turn of the entry loop of nodeToBytes: klen, vlen, then memcpy of key and value. */
  method EmitEntry(a: array<byte>, cur: nat, kv: KeyValue) returns (next: nat)
    requires cur + EntrySize(kv) <= a.Length
    modifies a
    ensures next == cur + EntrySize(kv)
    ensures a[..next] == old(a[..cur]) + EntryBytes(kv)
  {
    next := Emit16(a, cur, |kv.key|);
    next := Emit16(a, next, |kv.value|);
    next := Emit(a, next, kv.key);
    next := Emit(a, next, kv.value);
  }

  /** The entry loop of nodeToBytes. */
  method EmitEntries(a: array<byte>, cur: nat, kvs: seq<KeyValue>) returns (next: nat)
    requires cur + EntriesSize(kvs) <= a.Length
    modifies a
    ensures next == cur + EntriesSize(kvs)
    ensures a[..next] == old(a[..cur]) + EntriesBytes(kvs)
  {
    next := cur;
    var i: nat := 0;
    while i < |kvs|
      invariant i <= |kvs| && next == cur + EntriesSize(kvs[..i]) && next <= a.Length
      invariant a[..next] == old(a[..cur]) + EntriesBytes(kvs[..i])
    {
      EntriesSizeStep(kvs, i);
      EntriesSizePrefix(kvs, i + 1);
      EntriesBytesStep(kvs, i);
      AppendAssoc(old(a[..cur]), EntriesBytes(kvs[..i]), EntryBytes(kvs[i]));
      next := EmitEntry(a, next, kvs[i]);
      i := i + 1;
    }
    assert kvs[..i] == kvs;
  }

  class Node {
    var header: NodeHeader
    var selfPointer: u64
    var pointers: seq<u64>
    var offsets: seq<u16>
    var keyValues: seq<KeyValue>

    function Data(): NodeData
      reads this
    {
      NodeData(header, selfPointer, pointers, offsets, keyValues)
    }

    /** A node holding d (what nodeFromBytes and nodeFromFile fill in). */
    constructor (d: NodeData)
      ensures Data() == d
    {
      header := d.header;
      selfPointer := d.selfPointer;
      pointers := d.pointers;
      offsets := d.offsets;
      keyValues := d.keyValues;
    }

    /** createEmptyNode (src/btree.c:421-445); self_pointer is never set (zero here). */
    constructor CreateEmptyNode(t: u16)
      ensures Data() == EmptyNode(t)
    {
      var d := EmptyNode(t);
      header := d.header;
      selfPointer := 0;
      pointers := d.pointers;
      offsets := d.offsets;
      keyValues := d.keyValues;
    }

    /**
     * createNode (src/btree.c:447-470). The malloc'd arrays and self_pointer are
     * never initialised (zero and empty entries here). With t < 1 the entry array
     * size is negative and the source exits.
     */
    constructor CreateNode(ntype: u16, t: nat)
      requires t >= 1
      ensures Data() == NewNode(ntype, t)
    {
      var d := NewNode(ntype, t);
      header := d.header;
      selfPointer := 0;
      pointers := d.pointers;
      offsets := d.offsets;
      keyValues := d.keyValues;
    }

    /** nodeByteSize (src/btree.c:166-179); the uint64_t sums never wrap. */
    method ByteSize() returns (r: u64)
      requires WellSized(Data())
      ensures r as int == NodeByteSize(Data())
    {
      var keyValueSize: nat := 0;
      var i: nat := 0;
      while i < header.nkeys
        invariant i <= header.nkeys
        invariant keyValueSize == EntriesSize(keyValues[..i])
      {
        keyValueSize := keyValueSize + 4;
        keyValueSize := keyValueSize + |keyValues[i].key|;
        keyValueSize := keyValueSize + |keyValues[i].value|;
        assert keyValues[..i + 1][..i] == keyValues[..i];
        i := i + 1;
      }
      assert keyValues[..i] == Entries(Data());
      r := HEADER + (header.nkeys + 1) * PTR_SIZE + header.nkeys * OFFSET + keyValueSize;
    }

    /**
     * nodeToBytes (src/btree.c:278-322): a fresh buffer of nodeByteSize bytes holding
     * the node's image. Offsets past the end of the offsets array read as zero. With
     * nkeys = 65535 the uint16_t pointer loop `i < nkeys + 1` never ends, so the
     * callers (addNodeToFile, updateNodeOnFile) report that case as a hang instead.
     */
    method ToBytes() returns (bytes: array<byte>, size: u64)
      requires WellSized(Data()) && header.nkeys < 0xFFFF
      ensures fresh(bytes)
      ensures size as int == NodeByteSize(Data()) && bytes.Length == size as int
      ensures bytes[..] == Encode(Data())
    {
      size := ByteSize();
      bytes := new byte[size];
      var cur: nat := 0;
      var d := Data();
      ghost var image: seq<byte> := [];
      cur := Emit16(bytes, cur, header.ntype);
      assert bytes[..cur] == BeBytes(d.header.ntype, 2);
      cur := Emit16(bytes, cur, header.nkeys);
      image := HeaderBytes(d.header);
      assert bytes[..cur] == image;
      cur := EmitPointers(bytes, cur, Pointers(d));
      image := image + PointerBytes(Pointers(d));
      assert bytes[..cur] == image;
      cur := EmitOffsets(bytes, cur, Offsets(d));
      image := image + OffsetBytes(Offsets(d));
      assert bytes[..cur] == image;
      cur := EmitEntries(bytes, cur, Entries(d));
      image := image + EntriesBytes(Entries(d));
      assert bytes[..cur] == image == Encode(d);
      assert bytes[..] == bytes[..cur];
    }

    /**
     * getKeyInNode (src/btree.c:539-549): the first of the nkeys entries whose key
     * memcmp-matches the query over the stored key's length, or -1.
     */
    method GetKeyInNode(q: seq<byte>) returns (r: int)
      requires WellSized(Data())
      ensures r == KeyIndex(Entries(Data()), q)
    {
      ghost var K := Entries(Data());
      var i: nat := 0;
      while i < header.nkeys
        invariant i <= header.nkeys
        invariant forall k :: 0 <= k < i ==> !KeyMatches(q, K[k].key)
      {
        var current := keyValues[i];
        var cmp := MemCmp(q, current.key);
        MemCmpZero(q, current.key);
        if cmp == 0 {
          assert K[i] == current;
          return i;
        }
        i := i + 1;
      }
      return -1;
    }

    /**
     * getNextChild (src/btree.c:526-537): the loop returns or breaks on its first turn,
     * so the result is 0 whatever the key and the node hold.
     */
    method GetNextChild(q: seq<byte>) returns (r: u16)
      ensures r == 0
    {
      var i: nat := 0;
      // the for loop's body ends in return or break, so it never reaches i = 1
      if i < header.nkeys + 1 {
        var current := EntryOrBlank(keyValues, i);
        var cmp := MemCmp(q, current.key);
        if cmp <= 0 {
          return i;
        }
      }
      return 0;
    }

    /** addKVtoNode (src/btree.c:132-164). With 65535 keys its uint16_t loop index never passes nkeys. */
    method AddKVtoNode(kv: KeyValue)
      requires WellSized(Data()) && header.nkeys < 0xFFFF
      modifies this
      ensures Data() == AddKV(old(Data()), kv)
    {
      var ks, os, ps := InsertEntry(Data(), kv);
      keyValues := ks;
      offsets := os;
      pointers := ps;
      header := NodeHeader(header.ntype, header.nkeys + 1);
    }
  }

  /**
   * The body of addKVtoNode on the node's three arrays: make room, store kv in the
   * free slot, recompute the offsets.
   */
  method InsertEntry(d: NodeData, kv: KeyValue) returns (ks: seq<KeyValue>, os: seq<u16>, ps: seq<u64>)
    requires WellSized(d) && d.header.nkeys < 0xFFFF
    ensures ks == InsertedEntries(d, kv) && ps == ShiftedPointers(d, kv) && os == RunningOffsets(ks)
  {
    var pos;
    ks, os, ps, pos := MakeRoom(d, kv);
    ks := ks[pos := kv];
    os := RecomputeOffsets(ks, os);
  }

  /**
   * The first half of addKVtoNode: realloc to nkeys+1 entries and offsets and nkeys+2
   * pointers, then shift every entry greater than kv up one slot.
   */
  method MakeRoom(d: NodeData, kv: KeyValue) returns (ks: seq<KeyValue>, os: seq<u16>, ps: seq<u64>, pos: nat)
    requires WellSized(d)
    ensures pos == InsertPos(d, kv) && pos < |ks| && |os| == |ks|
    ensures ks[pos := kv] == InsertedEntries(d, kv) && ps == ShiftedPointers(d, kv)
  {
    hide ScanLeft; hide CompareKeyValue;
    var n: nat := d.header.nkeys;
    ks := Resize(d.keyValues, n + 1, Blank);
    os := Resize(d.offsets, n + 1, 0);
    ps := Resize(d.pointers, n + 2, 0);
    ghost var K, P := ks, ps;
    ks, os, ps, pos := ShiftGreater(ks, os, ps, n, kv);
    assert n == NKeys(d) && pos == InsertPos(d, kv) by {
      ScanLeftAgree(K, d.keyValues, kv, n);
    }
    assert ps == ShiftedPointers(d, kv) by {
      ShiftedUpIs(ps, P, pos + 1, n + 1);
    }
    assert ks[pos := kv] == InsertedEntries(d, kv) by {
      FillGap(K, ks, pos, n, kv);
      assert K[..pos] == d.keyValues[..pos] && K[pos..n] == d.keyValues[pos..n];
      assert Drop(K, n + 1) == [];
    }
  }

  /**
   * The shifting loop of addKVtoNode: from the last key down, each entry (with its
   * offset and right pointer) greater than kv moves up one slot. pos is the slot
   * left free for kv (i + 1 when the loop stops).
   */
  method ShiftGreater(ks0: seq<KeyValue>, os0: seq<u16>, ps0: seq<u64>, n: nat, kv: KeyValue)
    returns (ks: seq<KeyValue>, os: seq<u16>, ps: seq<u64>, pos: nat)
    requires |ks0| == n + 1 && |os0| == n + 1 && |ps0| == n + 2
    ensures pos == ScanLeft(ks0, kv, n)
    ensures |os| == n + 1
    ensures ShiftedUp(ks, ks0, pos, n)
    ensures ShiftedUp(ps, ps0, pos + 1, n + 1)
  {
    hide CompareKeyValue; hide ScanLeft;
    ks, os, ps := ks0, os0, ps0;
    var i: int := n - 1;
    while i >= 0 && CompareKeyValue(kv, ks[i]) < 0
      invariant -1 <= i < n
      invariant |os| == n + 1
      invariant ShiftedUp(ks, ks0, i + 1, n)
      invariant ShiftedUp(ps, ps0, i + 2, n + 1)
      invariant forall j :: i < j < n ==> CompareKeyValue(kv, ks0[j]) < 0
    {
      assert ks[i] == ks0[i];
      ShiftUpStep(ks, ks0, i + 1, n);
      ShiftUpStep(ps, ps0, i + 2, n + 1);
      ks := Put(ks, i + 1, ks[i]);
      os := os[i + 1 := os[i]];
      ps := Put(ps, i + 2, ps[i + 1]);
      i := i - 1;
    }
    assert i >= 0 ==> ks[i] == ks0[i];
    pos := i + 1;
    ScanLeftIs(ks0, kv, n, pos);
  }

  /** The offsets loop of addKVtoNode: a uint16_t running total of 4 + klen + vlen per entry. */
  method RecomputeOffsets(ks: seq<KeyValue>, os0: seq<u16>) returns (os: seq<u16>)
    requires |os0| == |ks|
    ensures os == RunningOffsets(ks)
  {
    os := os0;
    var currentBytes: u16 := 0;
    var j: nat := 0;
    while j < |ks|
      invariant j <= |ks| && |os| == |ks|
      invariant currentBytes as int == EntriesSize(ks[..j]) % 0x1_0000
      invariant forall m :: 0 <= m < j ==> os[m] as int == EntriesSize(ks[..m]) % 0x1_0000
    {
      os := os[j := currentBytes];
      EntriesSizeStep(ks, j);
      ModStep(EntriesSize(ks[..j]), |ks[j].key| + |ks[j].value|);
      currentBytes := (currentBytes + 4) % 0x1_0000;
      currentBytes := (currentBytes + |ks[j].key| + |ks[j].value|) % 0x1_0000;
      j := j + 1;
    }
  }

  /**
   * keyValueFromIndex (src/btree.c:59-87): klen and vlen at kvPos, then the key and
   * value bytes. Under the precondition none of the uint16_t positions wraps.
   */
  method KeyValueFromIndex(b: seq<byte>, kvPos: u16) returns (kv: KeyValue)
    requires EntryInside(b, kvPos) && EntryEnd(b, kvPos) <= 0xFFFF
    ensures kv == EntryIn(b, kvPos)
  {
    var klen := BytesToUInt16(b, kvPos);
    var vlen := BytesToUInt16(b, kvPos + 2);
    var keyStart: u16 := kvPos + 4;
    var valStart: u16 := kvPos + 4 + klen;
    var key: seq<byte> := [];
    var i: nat := keyStart;
    while i < valStart
      invariant keyStart <= i <= valStart && key == b[keyStart..i]
    {
      key := key + [b[i]];
      i := i + 1;
    }
    var value: seq<byte> := [];
    i := valStart;
    while i < valStart + vlen
      invariant valStart <= i <= valStart + vlen && value == b[valStart..i]
    {
      value := value + [b[i]];
      i := i + 1;
    }
    kv := KeyValue(key, value);
  }

  /**
   * nodeFromBytes (src/btree.c:89-124): reads the header, the nkeys+1 pointers and,
   * for each key, its offset and the entry at keysStart + offset (a uint16_t KeyOffset).
   */
  method NodeFromBytes(b: seq<byte>) returns (node: Node)
    requires Decodable(b)
    ensures fresh(node)
    ensures node.Data() == DecodeBytes(b)
  {
    var ntype := BytesToUInt16(b, 0);
    var n := BytesToUInt16(b, 2);
    var ptrs := ReadPointers(b, n);
    var offs, kvs := ReadEntries(b, n);
    node := new Node(NodeData(NodeHeader(ntype, n), 0, ptrs, offs, kvs));
  }

  /** The pointer loop of nodeFromBytes. */
  method ReadPointers(b: seq<byte>, n: u16) returns (ptrs: seq<u64>)
    requires Decodable(b) && n == NKeysOf(b)
    ensures ptrs == DecodeBytes(b).pointers
  {
    var pointersStart := HEADER;
    ptrs := [];
    var i: nat := 0;
    while i < n + 1
      invariant i <= n + 1 && |ptrs| == i
      invariant forall k :: 0 <= k < i ==> ptrs[k] == U64At(b, HEADER + PTR_SIZE * k)
    {
      var p := BytesToUInt64(b, pointersStart + PTR_SIZE * i);
      ptrs := ptrs + [p];
      i := i + 1;
    }
  }

  /** Where the entry loop of nodeFromBytes finds entry i: its offset, and its 16-bit position, which does not wrap. */
  lemma EntryPlace(b: seq<byte>, i: nat)
    requires Decodable(b) && i < NKeysOf(b)
    ensures var n := NKeysOf(b) as nat;
      && BytesToUInt16(b, OffsetsStart(n) + OFFSET * i) == StoredOffset(b, i)
      && (KeysStart(n) + StoredOffset(b, i)) % 0x1_0000 == EntryPos(b, i)
      && EntryInside(b, EntryPos(b, i)) && EntryEnd(b, EntryPos(b, i)) <= 0xFFFF
      && EntryIn(b, EntryPos(b, i)) == EntryAt(b, i)
  {
    assert EntryFits(b, i);
  }

  /** The offset and entry loop of nodeFromBytes. */
  method ReadEntries(b: seq<byte>, n: u16) returns (offs: seq<u16>, kvs: seq<KeyValue>)
    requires Decodable(b) && n == NKeysOf(b)
    ensures offs == DecodeBytes(b).offsets && kvs == DecodeBytes(b).keyValues
  {
    hide EntryAt;
    hide EntryIn;
    hide EntryEnd;
    hide EntryInside;
    hide EntryPos;
    hide StoredOffset;
    hide BigEndian;
    var offsetsStart := OffsetsStart(n);
    var keysStart := KeysStart(n);
    offs, kvs := [], [];
    var i: nat := 0;
    while i < n
      invariant i <= n && |offs| == i && |kvs| == i
      invariant forall k :: 0 <= k < i ==> offs[k] == StoredOffset(b, k) && kvs[k] == EntryAt(b, k)
    {
      var offset := BytesToUInt16(b, offsetsStart + OFFSET * i);
      EntryPlace(b, i);
      var kvPos: u16 := (keysStart + offset) % 0x1_0000;
      var kv := KeyValueFromIndex(b, kvPos);
      offs := offs + [offset];
      kvs := kvs + [kv];
      i := i + 1;
    }
  }
}
