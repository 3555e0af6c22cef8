// The tree operations of src/btree.c that walk and grow the tree through its file:
// searchKeyValue, splitChild, insertNonFull and insert.
//
// A C call that ends the program (exit, a failed assert, a NULL dereference) and a
// call that never returns are outcomes of their own. Walks down the tree follow
// pointers read from the file, which may form a cycle, so each walk takes a fuel
// bound on how many levels it descends.

module Engine {
  import opened Bytes
  import opened Seqs
  import opened Keys
  import opened Layout
  import opened Nodes
  import opened PageStore

  /** Why a call did not return: the program ended, a loop never ends, or the fuel ran out. */
  datatype Stop = Aborted | Hangs | OutOfFuel

  datatype Run<T> = Done(value: T) | Stopped(why: Stop)

  function StopOf<T>(r: Run<T>): (o: Option<Stop>)
    ensures o == None <==> r.Done?
  {
    match r
    case Done(_) => None
    case Stopped(why) => Some(why)
  }

  // ---------------------------------------------------------------------------
  // searchKeyValue (src/btree.c:551-579)

  /** What searchKeyValue ends with: 1 and the pair it copies out, or -1. */
  datatype Search = Found(kv: KeyValue) | Missing | Endless | NoFuel

  /**
   * The search from the node at p: the first entry of the node whose key matches the
   * query, or -1 at a leaf or a page that does not load; otherwise on to the child
   * getNextChild picks, which is always the first.
   */
  function SearchFrom(f: seq<byte>, p: u64, q: seq<byte>, fuel: nat): (r: Search)
    ensures r.Found? ==> KeyMatches(q, r.kv.key)
    decreases fuel
  {
    match LoadNode(f, p)
    case NoNode => Missing
    case Diverges => Endless
    case Loaded(d) =>
      var k := KeyIndex(Entries(d), q);
      if k >= 0 then Found(d.keyValues[k])
      else if d.header.ntype == LEAF then Missing
      else if fuel == 0 then NoFuel
      else SearchFrom(f, d.pointers[0], q, fuel - 1)
  }

  /** What searchKeyValue finds is an entry of some page on the path it walks, and matches the query. */
  lemma {:induction false} SearchFindsStored(f: seq<byte>, p: u64, q: seq<byte>, fuel: nat)
    requires SearchFrom(f, p, q, fuel).Found?
    ensures exists p', d :: LoadNode(f, p') == Loaded(d) && SearchFrom(f, p, q, fuel).kv in Entries(d)
    decreases fuel
  {
    hide LoadNode;
    var d := LoadNode(f, p).node;
    var k := KeyIndex(Entries(d), q);
    if k >= 0 {
      assert Entries(d)[k] == d.keyValues[k];
    } else {
      SearchFindsStored(f, d.pointers[0], q, fuel - 1);
    }
  }

  /**
   * getNextChild always answers 0, so a key that only a later child holds is never
   * reached: below an internal node without a match, the search goes to the first
   * child and nowhere else, whatever the other children hold.
   */
  lemma SearchOnlyFirstChild(f: seq<byte>, p: u64, q: seq<byte>, fuel: nat, d: NodeData)
    requires LoadNode(f, p) == Loaded(d) && d.header.ntype != LEAF && fuel > 0
    requires forall k :: 0 <= k < NKeys(d) ==> !KeyMatches(q, d.keyValues[k].key)
    ensures SearchFrom(f, p, q, fuel) == SearchFrom(f, d.pointers[0], q, fuel - 1)
  {
    assert forall k :: 0 <= k < |Entries(d)| ==> Entries(d)[k] == d.keyValues[k];
  }

  /** searchKeyValue; fuel bounds the number of levels it descends. */
  method SearchKeyValue(tree: BTree, q: seq<byte>, fuel: nat) returns (r: int, foundKv: KeyValue, res: Search)
    ensures res == SearchFrom(tree.file, tree.root, q, fuel)
    ensures r == (if res.Found? then 1 else -1)
    ensures res.Found? ==> foundKv == res.kv
  {
    hide LoadNode;
    foundKv := Blank;
    var f := tree.file;
    var currentPointer := tree.root;
    ghost var goal := SearchFrom(f, currentPointer, q, fuel);
    var currentNode, hangs := NodeFromFile(f, currentPointer);
    var left := fuel;
    while currentNode != null
      invariant goal == SearchFrom(f, currentPointer, q, left)
      invariant currentNode != null ==> LoadNode(f, currentPointer) == Loaded(currentNode.Data())
      invariant currentNode == null ==> !LoadNode(f, currentPointer).Loaded? && (hangs <==> LoadNode(f, currentPointer).Diverges?)
      decreases left
    {
      var keyIndex := currentNode.GetKeyInNode(q);
      if keyIndex != -1 {
        foundKv := currentNode.keyValues[keyIndex];
        return 1, foundKv, Found(foundKv);
      }
      if currentNode.header.ntype == LEAF {
        return -1, foundKv, Missing;
      }
      if left == 0 {
        return -1, foundKv, NoFuel;
      }
      var nextChildIndex := currentNode.GetNextChild(q);
      currentPointer := currentNode.pointers[nextChildIndex];
      left := left - 1;
      currentNode, hangs := NodeFromFile(f, currentPointer);
    }
    if hangs {
      return -1, foundKv, Endless;
    }
    return -1, foundKv, Missing;
  }

  // ---------------------------------------------------------------------------
  // splitChild (src/btree.c:581-625)

  /** Both callers of splitChild have read the child first and found it full. */
  predicate FullChild(f: seq<byte>, p: u64, t: nat)
  {
    LoadNode(f, p).Loaded? && NKeys(LoadNode(f, p).node) == 2 * t - 1
  }

  /**
   * The node z: createNode(y's type, t) with y's upper t-1 entries copied to its
   * first slots and, for an internal y, y's upper t pointers. Its nkeys is never
   * set, so it stays 0, and so does its self pointer.
   */
  function UpperHalf(y: NodeData, t: nat): (z: NodeData)
    requires 1 <= t && |y.keyValues| >= 2 * t - 1 && |y.pointers| >= 2 * t
    ensures WellSized(z) && z.header == NodeHeader(y.header.ntype, 0) && z.selfPointer == 0
    ensures |z.keyValues| == 2 * t - 1 && |z.pointers| == 2 * t
    ensures z.keyValues[..t - 1] == y.keyValues[t..2 * t - 1]
    ensures y.header.ntype == INTERNAL ==> z.pointers[..t] == y.pointers[t..2 * t]
  {
    var z0 := NewNode(y.header.ntype, t);
    var ks := y.keyValues[t..2 * t - 1] + z0.keyValues[t - 1..];
    var ps := if y.header.ntype == INTERNAL then y.pointers[t..2 * t] + z0.pointers[t..] else z0.pointers;
    assert ks[..t - 1] == y.keyValues[t..2 * t - 1];
    z0.(keyValues := ks, pointers := ps)
  }

  /**
   * x after splitChild: the median entry inserted at i, the new child's address
   * inserted after pointer i, nkeys incremented as a uint16_t; the offsets are left
   * as they were. Slots past the shifted ones keep their contents; the arrays grow
   * by one where the source writes just past an allocation of exactly nkeys+1
   * pointers or nkeys entries.
   */
  function SplitParent(x: NodeData, i: nat, median: KeyValue, dest: u64): (r: NodeData)
    requires WellSized(x) && i <= NKeys(x)
    ensures WellSized(r) && r.selfPointer == x.selfPointer && r.offsets == x.offsets
    ensures r.header == NodeHeader(x.header.ntype, Inc16(x.header.nkeys)) && r.pointers[0] == x.pointers[0]
    ensures |r.pointers| == if |x.pointers| == NKeys(x) + 1 then |x.pointers| + 1 else |x.pointers|
    ensures |r.keyValues| == if |x.keyValues| == NKeys(x) then |x.keyValues| + 1 else |x.keyValues|
  {
    var n, ps, ks := NKeys(x), x.pointers, x.keyValues;
    x.(header := NodeHeader(x.header.ntype, Inc16(x.header.nkeys)),
       pointers := ps[..i + 1] + [dest] + ps[i + 1..n + 1] + Drop(ps, n + 2),
       keyValues := ks[..i] + [median] + ks[i..n] + Drop(ks, n + 1))
  }

  lemma SplitParentIs(x: NodeData, i: nat, median: KeyValue, dest: u64)
    requires WellSized(x) && i <= NKeys(x)
    ensures var n, ps, ks := NKeys(x), x.pointers, x.keyValues;
      SplitParent(x, i, median, dest)
      == x.(header := NodeHeader(x.header.ntype, Inc16(x.header.nkeys)),
            pointers := ps[..i + 1] + [dest] + ps[i + 1..n + 1] + Drop(ps, n + 2),
            keyValues := ks[..i] + [median] + ks[i..n] + Drop(ks, n + 1))
  {
  }

  /** `nkeys++` on a uint16_t. */
  function Inc16(k: u16): (r: u16)
    ensures r as int == (k as int + 1) % 0x1_0000
  {
    if k == 0xFFFF then 0 else k + 1
  }

  /** The state splitChild leaves: the tree and the node x it was handed. */
  datatype Split = Split(tree: Tree, x: NodeData)

  /**
   * splitChild: y read from x's pointer i, z made from its upper half and appended
   * (exit(1) when that fails), y cut to t-1 keys, the median moved into x, and then
   * x, y and z written at their self pointers, whatever those writes return. z's
   * self pointer is 0, so its image lands at the start of the file. When x held
   * 65534 keys it now holds 65535, and writing it back never ends.
   */
  function SplitChildSpec(s: Tree, x: NodeData, i: nat, t: nat): (r: Run<Split>)
    requires WellSized(x) && i <= NKeys(x) && t <= 0xFFFF
    requires FullChild(s.file, x.pointers[i], t)
    ensures r.Stopped? <==> !SeekOk(s.last) || x.header.nkeys == 0xFFFE
    ensures r.Stopped? ==> r.why == if SeekOk(s.last) then Hangs else Aborted
    ensures r.Done? ==> r.value.tree.root == s.root && r.value.tree.t == s.t
    ensures r.Done? ==> r.value.tree.last == NextPage(s.last)
    ensures r.Done? ==> WellSized(r.value.x) && r.value.x.header.nkeys == Inc16(x.header.nkeys)
    ensures r.Done? ==> r.value.x.selfPointer == x.selfPointer && r.value.x.pointers[0] == x.pointers[0]
    ensures r.Done? ==> r.value.x.header.ntype == x.header.ntype
    ensures r.Done? ==> |r.value.x.pointers| >= NKeys(x) + 2 && |r.value.x.keyValues| >= NKeys(x) + 1
    ensures r.Done? ==> NKeys(r.value.x) < 0xFFFF
  {
    hide LoadNode;
    hide UpperHalf;
    hide AddNode;
    hide SplitDone;
    var y := LoadNode(s.file, x.pointers[i]).node;
    var a := AddNode(s, UpperHalf(y, t));
    if !a.ok then Stopped(Aborted)
    else if x.header.nkeys == 0xFFFE then Stopped(Hangs)
    else Done(SplitDone(s, x, i, t))
  }

  /** What splitChild leaves once appending z has succeeded and x is not about to hold 65535 keys. */
  function SplitDone(s: Tree, x: NodeData, i: nat, t: nat): (sp: Split)
    requires WellSized(x) && i <= NKeys(x) && t <= 0xFFFF
    requires FullChild(s.file, x.pointers[i], t) && SeekOk(s.last) && x.header.nkeys != 0xFFFE
    ensures sp.tree.root == s.root && sp.tree.t == s.t && sp.tree.last == NextPage(s.last)
    ensures WellSized(sp.x) && sp.x.header == NodeHeader(x.header.ntype, Inc16(x.header.nkeys))
    ensures sp.x.selfPointer == x.selfPointer && sp.x.pointers[0] == x.pointers[0]
    ensures |sp.x.pointers| >= NKeys(x) + 2 && |sp.x.keyValues| >= NKeys(x) + 1
    ensures NKeys(sp.x) < 0xFFFF
  {
    hide LoadNode;
    hide UpperHalf;
    hide SplitParent;
    hide SplitWrites;
    hide AddNode;
    var y := LoadNode(s.file, x.pointers[i]).node;
    var z := UpperHalf(y, t);
    var a := AddNode(s, z);
    var x' := SplitParent(x, i, y.keyValues[t - 1], a.dest);
    var y' := y.(header := NodeHeader(y.header.ntype, t - 1));
    Split(SplitWrites(s, z, x', y'), x')
  }

  /** The loop `for j < count: dst[j] = src[j + off]`. */
  method CopyDown<T>(dst: seq<T>, src: seq<T>, off: nat, count: nat) returns (r: seq<T>)
    requires count <= |dst| && off + count <= |src|
    ensures r == src[off..off + count] + dst[count..]
  {
    r := dst;
    var j := 0;
    while j < count
      invariant j <= count && |r| == |dst|
      invariant forall k :: 0 <= k < j ==> r[k] == src[off + k]
      invariant forall k :: j <= k < |dst| ==> r[k] == dst[k]
    {
      r := r[j := src[j + off]];
      j := j + 1;
    }
    assert r == src[off..off + count] + dst[count..];
  }

  /**
   * The loop `for j = e-1 down to c: s[j+1] = s[j]`, moving s[c..e] up one slot. The
   * first store goes to slot e, which may be one past the end.
   */
  method ShiftUp<T>(s: seq<T>, c: nat, e: nat) returns (r: seq<T>)
    requires c <= e <= |s|
    ensures ShiftedUp(r, s, c, e)
  {
    r := s;
    var j: int := e - 1;
    while j >= c
      invariant c - 1 <= j < e
      invariant ShiftedUp(r, s, j + 1, e)
    {
      ShiftUpStep(r, s, j + 1, e);
      r := Put(r, j + 1, r[j]);
      j := j - 1;
    }
  }

  /** UpperHalf spelled out over createNode's fresh node. */
  lemma UpperHalfIs(y: NodeData, t: nat)
    requires 1 <= t && |y.keyValues| >= 2 * t - 1 && |y.pointers| >= 2 * t
    ensures var z0 := NewNode(y.header.ntype, t);
      UpperHalf(y, t)
      == z0.(keyValues := y.keyValues[t..2 * t - 1] + z0.keyValues[t - 1..],
             pointers := if y.header.ntype == INTERNAL then y.pointers[t..2 * t] + z0.pointers[t..] else z0.pointers)
  {
  }

  /** The copy loops of splitChild: z = createNode(y's type, t) filled from y's upper half. */
  method Sibling(y: Node, t: u16) returns (z: Node)
    requires WellSized(y.Data()) && 1 <= t
    requires |y.keyValues| >= 2 * t as nat - 1 && |y.pointers| >= 2 * t as nat
    ensures fresh(z) && z.Data() == UpperHalf(y.Data(), t as nat)
  {
    hide UpperHalf;
    hide NewNode;
    var m: nat := t as nat;
    UpperHalfIs(y.Data(), m);
    z := new Node.CreateNode(y.header.ntype, m);
    ghost var z0 := z.Data();
    var ks := CopyDown(z.keyValues, y.keyValues, m, m - 1);
    var ps := z.pointers;
    if y.header.ntype == INTERNAL {
      ps := CopyDown(z.pointers, y.pointers, m, m);
    }
    assert ks == y.keyValues[m..2 * m - 1] + z0.keyValues[m - 1..];
    assert ps == if y.header.ntype == INTERNAL then y.pointers[m..2 * m] + z0.pointers[m..] else z0.pointers;
    z.keyValues, z.pointers := ks, ps;
    assert z.Data() == z0.(keyValues := ks, pointers := ps);
  }

  /**
   * The shifting loops of splitChild and the stores after them: x's pointers above i
   * and entries from i moved up one slot, the median stored at i, nkeys incremented,
   * and dest stored at pointer i+1.
   */
  method LinkChild(x: Node, i: nat, median: KeyValue, dest: u64)
    requires WellSized(x.Data()) && i <= x.header.nkeys
    modifies x
    ensures x.Data() == SplitParent(old(x.Data()), i, median, dest)
  {
    var n: nat := x.header.nkeys as nat;
    var ps := ShiftUp(x.pointers, i + 1, n + 1);
    var ks := ShiftUp(x.keyValues, i, n);
    Linked(x.Data(), i, median, dest, ps, ks);
    x.header := NodeHeader(x.header.ntype, Inc16(x.header.nkeys));
    x.keyValues, x.pointers := Put(ks, i, median), Put(ps, i + 1, dest);
  }

  /** The two shifted arrays with the median and dest stored in their free slots make SplitParent. */
  lemma Linked(x: NodeData, i: nat, median: KeyValue, dest: u64, ps: seq<u64>, ks: seq<KeyValue>)
    requires WellSized(x) && i <= NKeys(x)
    requires ShiftedUp(ps, x.pointers, i + 1, NKeys(x) + 1) && ShiftedUp(ks, x.keyValues, i, NKeys(x))
    ensures SplitParent(x, i, median, dest)
      == x.(header := NodeHeader(x.header.ntype, Inc16(x.header.nkeys)),
            pointers := Put(ps, i + 1, dest), keyValues := Put(ks, i, median))
  {
    hide SplitParent;
    SplitParentIs(x, i, median, dest);
    FillGap(x.keyValues, ks, i, NKeys(x), median);
    FillGap(x.pointers, ps, i + 1, NKeys(x) + 1, dest);
  }

  /**
   * splitChild on the tree and the node x it is handed. The source shifts x before
   * it appends z; x plays no part in that append and is lost when it fails, so here
   * x is changed after it.
   */
  method SplitChild(tree: BTree, x: Node, i: nat, t: u16) returns (stop: Option<Stop>)
    requires WellSized(x.Data()) && i <= x.header.nkeys
    requires FullChild(tree.file, x.pointers[i], t as nat)
    modifies tree, x
    ensures var r := SplitChildSpec(old(tree.Data()), old(x.Data()), i, t as nat);
      stop == StopOf(r) && (r.Done? ==> tree.Data() == r.value.tree && x.Data() == r.value.x)
  {
    hide LoadNode;
    hide AddNode;
    hide UpdateNode;
    hide UpperHalf;
    hide SplitParent;
    var y, hangs := NodeFromFile(tree.file, x.pointers[i]);
    assert y != null;
    var z := Sibling(y, t);
    y.header := NodeHeader(y.header.ntype, t - 1);
    var median := y.keyValues[t - 1];
    var ok, destinationZ, hangsZ := tree.AddNodeToFile(z);
    if !ok {
      return Some(Aborted);
    }
    LinkChild(x, i, median, destinationZ);
    var wroteX, hangsX := tree.UpdateNodeOnFile(x);
    if hangsX {
      return Some(Hangs);
    }
    var wroteY, hangsY := tree.UpdateNodeOnFile(y);
    var wroteZ, hangsZ' := tree.UpdateNodeOnFile(z);
    stop := None;
  }

  /**
   * The entries x stores after splitChild are its old ones with the median inserted
   * at i, and its pointers the old ones with the new child's address inserted after
   * pointer i.
   */
  lemma SplitParentShape(x: NodeData, i: nat, median: KeyValue, dest: u64)
    requires WellSized(x) && i <= NKeys(x) && x.header.nkeys < 0xFFFF
    ensures var r := SplitParent(x, i, median, dest);
      && NKeys(r) == NKeys(x) + 1
      && Entries(r) == Entries(x)[..i] + [median] + Entries(x)[i..]
      && Pointers(r) == Pointers(x)[..i + 1] + [dest] + Pointers(x)[i + 1..]
  {
    var r, n := SplitParent(x, i, median, dest), NKeys(x);
    SplitParentIs(x, i, median, dest);
    var ks, ps := x.keyValues, x.pointers;
    assert Entries(r) == (ks[..i] + [median] + ks[i..n] + Drop(ks, n + 1))[..n + 1];
    assert Entries(r) == Entries(x)[..i] + [median] + Entries(x)[i..];
    assert Pointers(r) == (ps[..i + 1] + [dest] + ps[i + 1..n + 1] + Drop(ps, n + 2))[..n + 2];
    assert Pointers(r) == Pointers(x)[..i + 1] + [dest] + Pointers(x)[i + 1..];
  }

  /**
   * splitChild never recomputes x's offsets. A node read from the file has exactly
   * nkeys offsets, so once the split adds a key the last entry has no offset of its
   * own (it reads as 0) and the offsets no longer say where the entries start.
   */
  lemma SplitParentStaleOffsets(x: NodeData, i: nat, median: KeyValue, dest: u64)
    requires WellSized(x) && i <= NKeys(x) && 1 <= NKeys(x) && x.header.nkeys < 0xFFFF
    requires |x.offsets| == NKeys(x)
    ensures !Cumulative(SplitParent(x, i, median, dest))
  {
    var r, n := SplitParent(x, i, median, dest), NKeys(x);
    SplitParentShape(x, i, median, dest);
    var pre := r.keyValues[..n];
    assert pre != [] && EntriesSize(pre) >= EntrySize(pre[n - 1]) > 0;
    assert OffsetAt(r, n) == 0;
  }

  /**
   * A median that is not below the entries left of slot i and below those from slot
   * i on keeps x sorted.
   */
  lemma SplitParentSorted(x: NodeData, i: nat, median: KeyValue, dest: u64)
    requires WellSized(x) && i <= NKeys(x) && x.header.nkeys < 0xFFFF
    requires Sorted(Entries(x))
    requires forall j :: 0 <= j < i ==> CompareKeyValue(x.keyValues[j], median) <= 0
    requires forall j :: i <= j < NKeys(x) ==> CompareKeyValue(median, x.keyValues[j]) < 0
    ensures Sorted(Entries(SplitParent(x, i, median, dest)))
  {
    SplitParentShape(x, i, median, dest);
    var e := Entries(x);
    assert forall j :: 0 <= j < |e| ==> e[j] == x.keyValues[j];
    InsertKeepsSorted(e, i, median);
  }

  /**
   * What splitChild leaves in the file when its writes do not overlap: the child
   * holds only its lower t-1 entries, and the new sibling at the address
   * addNodeToFile returned holds none at all, since its nkeys is never set. The
   * child's upper t-1 entries end up in neither.
   */
  lemma SplitChildOnDisk(s: Tree, x: NodeData, i: nat, t: nat)
    requires WellSized(x) && i <= NKeys(x) && t <= 0xFFFF && x.header.nkeys != 0xFFFE
    requires FullChild(s.file, x.pointers[i], t)
    requires SeekOk(s.last) && s.last as nat >= TREE_HEADER
    requires var p, y := x.pointers[i], LoadNode(s.file, x.pointers[i]).node;
      var z := UpperHalf(y, t);
      && Apart(x.selfPointer as nat, NodeByteSize(SplitParent(x, i, y.keyValues[t - 1], s.last)), s.last as nat, NodeByteSize(z))
      && Apart(p as nat, NodeByteSize(y.(header := NodeHeader(y.header.ntype, t - 1))), s.last as nat, NodeByteSize(z))
      && NodeByteSize(z) <= p as nat
    ensures var r, p, y := SplitChildSpec(s, x, i, t), x.pointers[i], LoadNode(s.file, x.pointers[i]).node;
      var y', z := y.(header := NodeHeader(y.header.ntype, t - 1)), UpperHalf(y, t);
      && r.Done?
      && LoadNode(r.value.tree.file, s.last) == Loaded(Stored(z, s.last)) && Entries(z) == []
      && LoadNode(r.value.tree.file, p) == Loaded(Stored(y', p)) && Entries(y') == y.keyValues[..t - 1]
      && ImageAt(r.value.tree.file, 0, z)
  {
    hide SplitChildSpec;
    hide LoadNode;
    hide SplitParent;
    hide SplitWrites;
    hide ImageAt;
    hide Stored;
    hide NodeByteSize;
    hide EntriesSize;
    hide UpperHalf;
    hide Apart;
    SplitChildSpecIs(s, x, i, t);
    LoadedNonEmpty(s.file, x.pointers[i]);
    LoadedInside(s.file, x.pointers[i]);
    var p, y := x.pointers[i], LoadNode(s.file, x.pointers[i]).node;
    var z := UpperHalf(y, t);
    var x' := SplitParent(x, i, y.keyValues[t - 1], s.last);
    var y' := y.(header := NodeHeader(y.header.ntype, t - 1));
    assert NKeys(y') == t - 1 && Entries(y') == y.keyValues[..t - 1];
    assert NonEmptyEntries(y');
    assert Entries(z) == [];
    SplitWritesLoad(s, z, x', y');
  }

  /** When the append succeeds, splitChild's result is the four writes on the split nodes. */
  lemma SplitChildSpecIs(s: Tree, x: NodeData, i: nat, t: nat)
    requires WellSized(x) && i <= NKeys(x) && t <= 0xFFFF && x.header.nkeys != 0xFFFE
    requires FullChild(s.file, x.pointers[i], t) && SeekOk(s.last)
    ensures var y := LoadNode(s.file, x.pointers[i]).node;
      var x', y' := SplitParent(x, i, y.keyValues[t - 1], s.last), y.(header := NodeHeader(y.header.ntype, t - 1));
      SplitChildSpec(s, x, i, t) == Done(Split(SplitWrites(s, UpperHalf(y, t), x', y'), x'))
  {
  }

  /**
   * The median splitChild moves into x comes from a node read from the file, so it has
   * a non-empty key and value, and x keeps only such entries.
   */
  lemma SplitKeepsNonEmpty(s: Tree, x: NodeData, i: nat, t: nat)
    requires WellSized(x) && i <= NKeys(x) && t <= 0xFFFF
    requires FullChild(s.file, x.pointers[i], t) && NonEmptyEntries(x)
    requires SplitChildSpec(s, x, i, t).Done?
    ensures NonEmptyEntries(SplitChildSpec(s, x, i, t).value.x)
  {
    hide SplitChildSpec;
    hide LoadNode;
    hide SplitParent;
    hide SplitWrites;
    if x.header.nkeys < 0xFFFF {
      SplitChildSpecIs(s, x, i, t);
      LoadedNonEmpty(s.file, x.pointers[i]);
      var y := LoadNode(s.file, x.pointers[i]).node;
      SplitParentNonEmpty(x, i, y.keyValues[t - 1], s.last);
    }
  }

  /** x after the split holds only non-empty keys and values when x and the median do. */
  lemma SplitParentNonEmpty(x: NodeData, i: nat, median: KeyValue, dest: u64)
    requires WellSized(x) && i <= NKeys(x) && x.header.nkeys < 0xFFFF && NonEmptyEntries(x)
    requires |median.key| > 0 && |median.value| > 0
    ensures NonEmptyEntries(SplitParent(x, i, median, dest))
  {
    var r := SplitParent(x, i, median, dest);
    SplitParentShape(x, i, median, dest);
    forall k | 0 <= k < NKeys(r)
      ensures |r.keyValues[k].key| > 0 && |r.keyValues[k].value| > 0
    {
      assert r.keyValues[k] == Entries(r)[k];
      if k > i {
        assert Entries(r)[k] == Entries(x)[k - 1];
      }
    }
  }

  /** The four writes of splitChild: z appended, then x, y and z written at their self pointers. */
  function SplitWrites(s: Tree, z: NodeData, x': NodeData, y': NodeData): (r: Tree)
    requires WellSized(z) && WellSized(x') && WellSized(y')
    requires NKeys(z) < 0xFFFF && NKeys(x') < 0xFFFF && NKeys(y') < 0xFFFF
    ensures r.root == s.root && r.t == s.t
    ensures SeekOk(s.last) ==> r.last == NextPage(s.last)
  {
    var a := AddNode(s, z);
    var u1 := UpdateNode(a.tree, x');
    var u2 := UpdateNode(u1.tree, y');
    UpdateNode(u2.tree, z).tree
  }

  /** After those writes, when they do not overlap, z reads back at the appended page and y' at its own. */
  lemma SplitWritesLoad(s: Tree, z: NodeData, x': NodeData, y': NodeData)
    requires WellSized(z) && WellSized(x') && WellSized(y')
    requires SeekOk(s.last) && s.last as nat >= TREE_HEADER
    requires z.selfPointer == 0 && NKeys(z) == 0 && SeekOk(y'.selfPointer)
    requires NKeys(x') < 0xFFFF && NKeys(y') < 0xFFFF && NonEmptyEntries(y')
    requires Apart(x'.selfPointer as nat, NodeByteSize(x'), s.last as nat, NodeByteSize(z))
    requires Apart(y'.selfPointer as nat, NodeByteSize(y'), s.last as nat, NodeByteSize(z))
    requires NodeByteSize(z) <= y'.selfPointer as nat
    ensures LoadNode(SplitWrites(s, z, x', y').file, s.last) == Loaded(Stored(z, s.last))
    ensures LoadNode(SplitWrites(s, z, x', y').file, y'.selfPointer) == Loaded(Stored(y', y'.selfPointer))
    ensures ImageAt(SplitWrites(s, z, x', y').file, 0, z)
  {
    var p := y'.selfPointer;
    var a := AddNode(s, z);
    var u1 := UpdateNode(a.tree, x');
    var u2 := UpdateNode(u1.tree, y');
    var u3 := UpdateNode(u2.tree, z);
    assert SeekOk(0) && NodeByteSize(z) <= TREE_HEADER;
    hide AddNode;
    hide UpdateNode;
    hide Encode;
    hide WriteAt;
    AddNodeImage(s, z);
    UpdateNodeKeeps(a.tree, x', s.last as nat, z);
    UpdateNodeKeeps(u1.tree, y', s.last as nat, z);
    UpdateNodeKeeps(u2.tree, z, s.last as nat, z);
    LoadImage(u3.tree.file, s.last, z);
    UpdateNodeKeeps(u2.tree, z, p as nat, y');
    LoadImage(u3.tree.file, p, y');
  }

  // ---------------------------------------------------------------------------
  // insertNonFull (src/btree.c:627-650)

  /**
   * insertNonFull on the node x as the caller holds it in memory. At a leaf kv is
   * added and x written back. Otherwise the child right of the last entry not above
   * kv is read; a full child is split first and the walk goes on into whichever half
   * kv falls into, read afresh. A child that does not load makes the next access to
   * it a NULL dereference. The result is the tree and x as the call leaves them.
   */
  function InsertNonFullSpec(s: Tree, x: NodeData, kv: KeyValue, fuel: nat): (r: Run<Split>)
    requires WellSized(x)
    ensures r.Done? ==> r.value.tree.root == s.root && r.value.tree.t == s.t
    ensures r.Done? ==> WellSized(r.value.x) && r.value.x.selfPointer == x.selfPointer
    ensures r.Done? ==> r.value.tree.last as nat >= s.last as nat
    ensures r.Done? ==> r.value.x.header.ntype == x.header.ntype && r.value.x.pointers[0] == x.pointers[0]
    ensures r.Done? && NKeys(x) < 0xFFFF ==> NKeys(r.value.x) < 0xFFFF
    ensures x.header.ntype == LEAF && NKeys(x) >= 0xFFFE ==> r == Stopped(Hangs)
    decreases fuel, 2
  {
    var n := NKeys(x);
    if x.header.ntype == LEAF then
      if n >= 0xFFFE then Stopped(Hangs)
      else
        var x' := AddKV(x, kv);
        Done(Split(UpdateNode(s, x').tree, x'))
    else
      var i := ScanLeft(x.keyValues, kv, n);
      match LoadNode(s.file, x.pointers[i])
      case NoNode => Stopped(Aborted)
      case Diverges => Stopped(Hangs)
      case Loaded(c) =>
        if NKeys(c) == 2 * s.t as nat - 1 then SplitThenDescend(s, x, i, kv, fuel)
        else Descend(s, x, x.pointers[i], kv, fuel)
  }

  /**
   * insertNonFull at a full child i: the child is split, and the walk goes on into the
   * child on whichever side of the median kv falls.
   */
  function SplitThenDescend(s: Tree, x: NodeData, i: nat, kv: KeyValue, fuel: nat): (r: Run<Split>)
    requires WellSized(x) && i <= NKeys(x) && FullChild(s.file, x.pointers[i], s.t as nat)
    ensures r.Done? ==> r.value.tree.root == s.root && r.value.tree.t == s.t
    ensures r.Done? ==> WellSized(r.value.x) && r.value.x.selfPointer == x.selfPointer
    ensures r.Done? ==> r.value.tree.last as nat >= s.last as nat
    ensures r.Done? ==> r.value.x.header.ntype == x.header.ntype && r.value.x.pointers[0] == x.pointers[0]
    ensures r.Done? ==> NKeys(r.value.x) < 0xFFFF
    decreases fuel, 1
  {
    match SplitChildSpec(s, x, i, s.t as nat)
    case Stopped(w) => Stopped(w)
    case Done(sp) =>
      var j := if CompareKeyValue(kv, sp.x.keyValues[i]) > 0 then i + 1 else i;
      Descend(sp.tree, sp.x, sp.x.pointers[j], kv, fuel)
  }

  /** The end of insertNonFull on an internal node x: read the child at p and insert into it. */
  function Descend(s: Tree, x: NodeData, p: u64, kv: KeyValue, fuel: nat): (r: Run<Split>)
    requires WellSized(x)
    ensures r.Done? ==> r.value.tree.root == s.root && r.value.tree.t == s.t && r.value.x == x
    ensures r.Done? ==> r.value.tree.last as nat >= s.last as nat
    decreases fuel, 0
  {
    match LoadNode(s.file, p)
    case NoNode => Stopped(Aborted)
    case Diverges => Stopped(Hangs)
    case Loaded(c) =>
      if fuel == 0 then Stopped(OutOfFuel)
      else match InsertNonFullSpec(s, c, kv, fuel - 1)
        case Stopped(w) => Stopped(w)
        case Done(below) => Done(Split(below.tree, x))
  }

  /**
   * insertNonFull on an internal node leaves it holding only non-empty keys and
   * values if it held only such before: the one entry it may gain is a median read
   * from the file.
   */
  lemma InsertNonFullKeepsNonEmpty(s: Tree, x: NodeData, kv: KeyValue, fuel: nat)
    requires WellSized(x) && x.header.ntype != LEAF && NonEmptyEntries(x)
    requires InsertNonFullSpec(s, x, kv, fuel).Done?
    ensures NonEmptyEntries(InsertNonFullSpec(s, x, kv, fuel).value.x)
  {
    var i := ScanLeft(x.keyValues, kv, NKeys(x));
    var c := LoadNode(s.file, x.pointers[i]).node;
    if NKeys(c) == 2 * s.t as nat - 1 {
      SplitKeepsNonEmpty(s, x, i, s.t as nat);
    }
  }

  /** insertNonFull; fuel bounds the number of levels it descends. */
  method InsertNonFull(tree: BTree, x: Node, kv: KeyValue, fuel: nat) returns (stop: Option<Stop>)
    requires WellSized(x.Data())
    modifies tree, x
    ensures var r := InsertNonFullSpec(old(tree.Data()), old(x.Data()), kv, fuel);
      stop == StopOf(r) && (r.Done? ==> tree.Data() == r.value.tree && x.Data() == r.value.x)
    decreases fuel
  {
    hide LoadNode;
    hide SplitChildSpec;
    hide UpdateNode;
    hide AddKV;
    hide CompareKeyValue;
    ghost var goal := InsertNonFullSpec(tree.Data(), x.Data(), kv, fuel);
    ghost var n := x.header.nkeys as nat;
    var i: int := x.header.nkeys as int - 1;
    if x.header.ntype == LEAF {
      if x.header.nkeys == 0xFFFF {
        return Some(Hangs);
      }
      x.AddKVtoNode(kv);
      var wrote, hangs := tree.UpdateNodeOnFile(x);
      if hangs {
        return Some(Hangs);
      }
      return None;
    }
    while i >= 0 && CompareKeyValue(kv, x.keyValues[i]) < 0
      invariant -1 <= i < n
      invariant ScanLeft(x.keyValues, kv, n) == ScanLeft(x.keyValues, kv, i + 1)
    {
      i := i - 1;
    }
    i := i + 1;
    var child, hangs := NodeFromFile(tree.file, x.pointers[i]);
    if child == null {
      return Some(if hangs then Hangs else Aborted);
    }
    if child.header.nkeys as nat == 2 * tree.t as nat - 1 {
      assert goal == SplitThenDescend(tree.Data(), x.Data(), i, kv, fuel);
      stop := SplitChild(tree, x, i, tree.t);
      if stop != None {
        return;
      }
      if CompareKeyValue(kv, x.keyValues[i]) > 0 {
        i := i + 1;
      }
      assert goal == Descend(tree.Data(), x.Data(), x.pointers[i], kv, fuel);
      child, hangs := NodeFromFile(tree.file, x.pointers[i]);
    } else {
      assert goal == Descend(tree.Data(), x.Data(), x.pointers[i], kv, fuel);
    }
    hide InsertNonFullSpec;
    if child == null {
      return Some(if hangs then Hangs else Aborted);
    }
    if fuel == 0 {
      return Some(OutOfFuel);
    }
    stop := InsertNonFull(tree, child, kv, fuel - 1);
  }

  // ---------------------------------------------------------------------------
  // insert (src/btree.c:652-675)

  /**
   * insert: a root that does not load fails the assert. A full root gets a new
   * internal root above it (createNode, so with self pointer 0), which is split,
   * inserted into, appended to the file and recorded as the root in the header.
   * Any other root is inserted into directly.
   */
  function InsertSpec(s: Tree, kv: KeyValue, fuel: nat): (r: Run<Tree>)
    ensures r.Done? ==> r.value.t == s.t
    ensures r.Done? && LoadNode(s.file, s.root).Loaded? && NKeys(LoadNode(s.file, s.root).node) != 2 * s.t as nat - 1
      ==> r.value.root == s.root
  {
    match LoadNode(s.file, s.root)
    case NoNode => Stopped(Aborted)
    case Diverges => Stopped(Hangs)
    case Loaded(root) =>
      if NKeys(root) == 2 * s.t as nat - 1 then
        var blank := NewNode(INTERNAL, s.t as nat);
        var newRoot := blank.(pointers := blank.pointers[0 := s.root]);
        match SplitChildSpec(s, newRoot, 0, s.t as nat)
        case Stopped(w) => Stopped(w)
        case Done(sp) =>
          match InsertNonFullSpec(sp.tree, sp.x, kv, fuel)
          case Stopped(w) => Stopped(w)
          case Done(ins) =>
            var a := AddNode(ins.tree, ins.x);
            if !a.ok then Stopped(Aborted)
            else Done(WithHeader(a.tree.(root := a.dest)))
      else
        match InsertNonFullSpec(s, root, kv, fuel)
        case Stopped(w) => Stopped(w)
        case Done(ins) => Done(ins.tree)
  }

  /** insert; fuel bounds the number of levels insertNonFull descends. */
  method Insert(tree: BTree, kv: KeyValue, fuel: nat) returns (stop: Option<Stop>)
    modifies tree
    ensures var r := InsertSpec(old(tree.Data()), kv, fuel);
      stop == StopOf(r) && (r.Done? ==> tree.Data() == r.value)
  {
    hide LoadNode;
    hide SplitChildSpec;
    hide InsertNonFullSpec;
    hide AddNode;
    hide WithHeader;
    var root, hangs := NodeFromFile(tree.file, tree.root);
    if root == null {
      return Some(if hangs then Hangs else Aborted);
    }
    if root.header.nkeys as nat == 2 * tree.t as nat - 1 {
      var newRoot := new Node.CreateNode(INTERNAL, tree.t as nat);
      newRoot.pointers := newRoot.pointers[0 := tree.root];
      stop := SplitChild(tree, newRoot, 0, tree.t);
      if stop != None {
        return;
      }
      stop := InsertNonFull(tree, newRoot, kv, fuel);
      if stop != None {
        return;
      }
      var ok, newRootPointer, hangs' := tree.AddNodeToFile(newRoot);
      if !ok {
        return Some(Aborted);
      }
      tree.root := newRootPointer;
      tree.UpdateTreeInFile();
      return None;
    }
    stop := InsertNonFull(tree, root, kv, fuel);
  }

  // ---------------------------------------------------------------------------
  // Properties of whole operations

  /** Every key any query window is compared against matches itself. */
  lemma KeyMatchesItself(key: seq<byte>)
    ensures KeyMatches(key, key)
  {
    assert QueryWindow(key, |key|) == key[..|key|];
  }

  /**
   * Inserting into a root leaf that is not full: the root page then reads back as
   * the old node with kv added in order, and a search for kv's key finds an entry
   * whose key it matches.
   */
  lemma InsertLeafRoot(s: Tree, kv: KeyValue, fuel: nat, fuel': nat)
    requires LoadNode(s.file, s.root).Loaded?
    requires var d := LoadNode(s.file, s.root).node;
      d.header.ntype == LEAF && NKeys(d) != 2 * s.t as nat - 1 && NKeys(d) + 1 < 0xFFFF
    requires |kv.key| > 0 && |kv.value| > 0
    ensures var r, d := InsertSpec(s, kv, fuel), LoadNode(s.file, s.root).node;
      && r.Done? && r.value.root == s.root && r.value.t == s.t
      && LoadNode(r.value.file, s.root) == Loaded(Stored(AddKV(d, kv), s.root))
      && SearchFrom(r.value.file, r.value.root, kv.key, fuel').Found?
  {
    LoadedInside(s.file, s.root);
    LoadedNonEmpty(s.file, s.root);
    hide LoadNode;
    var d := LoadNode(s.file, s.root).node;
    var x' := AddKV(d, kv);
    assert InsertSpec(s, kv, fuel) == Done(UpdateNode(s, x').tree);
    hide InsertSpec;
    hide InsertNonFullSpec;
    AddKVNonEmpty(d, kv);
    UpdateNodeLoads(s, x');
    AddKVEntries(d, kv);
    assert kv == Entries(x')[InsertPos(d, kv)];
    SearchFindsHeld(UpdateNode(s, x').tree.file, s.root, x', kv, fuel');
  }

  /**
   * Inserting under a full root: the header then names a new root, the page the
   * final addNodeToFile appended past every page the split and the descent wrote,
   * with last one page beyond it. That page holds the image of an internal node
   * whose first pointer is the old root, and nodeFromFile reads that node back from
   * it. Its self pointer is 0, so the split's and the descent's updateNodeOnFile
   * calls wrote it at the start of the file, where the header now sits.
   */
  lemma InsertFullRoot(s: Tree, kv: KeyValue, fuel: nat)
    requires LoadNode(s.file, s.root).Loaded? && NKeys(LoadNode(s.file, s.root).node) == 2 * s.t as nat - 1
    requires s.last as nat >= TREE_HEADER
    requires InsertSpec(s, kv, fuel).Done?
    ensures var r := InsertSpec(s, kv, fuel).value;
      && r.t == s.t && r.last == NextPage(r.root) && r.root as nat >= s.last as nat + PAGE
      && |r.file| >= TREE_HEADER && r.file[..TREE_HEADER] == TreeHeaderBytes(r)
      && exists d: NodeData :: WellSized(d) && ImageAt(r.file, r.root as nat, d)
           && d.header.ntype == INTERNAL && d.pointers[0] == s.root && d.selfPointer == 0
           && LoadNode(r.file, r.root) == Loaded(Stored(d, r.root))
  {
    hide LoadNode;
    hide SplitChildSpec;
    hide InsertNonFullSpec;
    hide AddNode;
    hide WithHeader;
    var blank := NewNode(INTERNAL, s.t as nat);
    var newRoot := blank.(pointers := blank.pointers[0 := s.root]);
    var sp := SplitChildSpec(s, newRoot, 0, s.t as nat).value;
    var ins := InsertNonFullSpec(sp.tree, sp.x, kv, fuel).value;
    var a := AddNode(ins.tree, ins.x);
    assert InsertSpec(s, kv, fuel) == Done(WithHeader(a.tree.(root := a.dest)));
    hide InsertSpec;
    AddNodeImage(ins.tree, ins.x);
    ImageSurvivesHeader(a.tree.(root := a.dest), a.dest as nat, ins.x);
    SplitKeepsNonEmpty(s, newRoot, 0, s.t as nat);
    InsertNonFullKeepsNonEmpty(sp.tree, sp.x, kv, fuel);
    LoadImage(InsertSpec(s, kv, fuel).value.file, a.dest, ins.x);
  }

  /** A search from a page finds an entry for the key of every pair the page holds. */
  lemma SearchFindsHeld(f: seq<byte>, p: u64, d: NodeData, kv: KeyValue, fuel: nat)
    requires WellSized(d) && LoadNode(f, p) == Loaded(Stored(d, p)) && kv in Entries(d)
    ensures SearchFrom(f, p, kv.key, fuel).Found?
  {
    hide LoadNode;
    var e := Entries(Stored(d, p));
    assert e == Entries(d);
    var k :| 0 <= k < |e| && e[k] == kv;
    KeyMatchesItself(kv.key);
    assert KeyIndex(e, kv.key) >= 0;
  }

  /**
   * The tree createMockupTree builds holds the one pair ("k", "v") in its root leaf:
   * a search finds it for exactly the queries that start with "k".
   */
  lemma MockSearch(q: seq<byte>, fuel: nat)
    ensures SearchFrom(MockTree().file, MockTree().root, q, fuel)
      == if |q| >= 1 && q[0] == 0x6b then Found(MOCK_KV) else Missing
  {
    MockRootLoads();
    hide LoadNode;
    hide MockTree;
    KeyMatchesIsPrefix(q, MOCK_KV.key);
    var e := [MOCK_KV];
    assert KeyIndex(e, q) == if KeyMatches(q, MOCK_KV.key) then 0 else -1;
  }
}
