# KVDatabase B-tree, modelled in Dafny

KVDatabase keeps a B-tree of key-value pairs in a single file. Each node lives in a
4096-byte page. A page is laid out as

    | type 2B | nkeys 2B | pointers (nkeys+1) x 8B | offsets nkeys x 2B | entries |

Every integer is big-endian. Entry k is `| klen 2B | vlen 2B | key | value |` and sits at
keysStart + offsets[k]. The file starts with a tree header: root page, last page and
the minimum degree t.

This project models the core of `src/utils.c` and `src/btree.c` and proves properties of
that model:

- the byte codec;
- the node encoder and decoders;
- insertion into one node;
- reading and writing pages of the file;
- search, split and insert.

The modules follow the program's structure:

| module | file | models |
|---|---|---|
| `Bytes` | `bytes.dfy` | `src/utils.c`: the big-endian codec and the C-string copies |
| `Seqs` | `seqs.dfy` | sequence helpers: realloc, a store one past an allocation, slices |
| `Keys` | `keys.dfy` | `struct KeyValue`, strcmp in `compare_key_value`, memcmp in `getKeyInNode` / `getNextChild` |
| `Layout` | `layout.dfy` | `struct Node`'s contents as a value, the page layout, `nodeByteSize`, the image `nodeToBytes` writes, `nodeFromBytes` as a function, the sample page of `src/main.c` |
| `Nodes` | `node.dfy` | `class Node`: `createEmptyNode`, `createNode`, `addKVtoNode`, `nodeToBytes`, `getKeyInNode`, `getNextChild`; `nodeFromBytes` and `keyValueFromIndex` as methods |
| `PageStore` | `pagestore.dfy` | the file as a byte sequence; `nodeFromFile`, `updateTreeInFile`; `class BTree` with `addNodeToFile`, `updateNodeOnFile`, `createMockupTree` |
| `Engine` | `engine.dfy` | `searchKeyValue`, `splitChild`, `insertNonFull`, `insert` |

How state is modelled:

- The C code changes two kinds of object in place: a `Node` (class `Nodes.Node`) and a
  `BTree` (class `PageStore.BTree`). The tree's `FILE *` is its file contents, a `seq<byte>`.
- Each state-changing method is proved against a function of the old state: `AddKV`,
  `AddNode`, `UpdateNode`, `SplitChildSpec`, `InsertNonFullSpec` and `InsertSpec`.
  The lemmas state the source's promises about those functions.

Outcomes that are not a normal return:

- A C call can end the program: `exit`, a failed `assert`, or a NULL dereference. This is
  the outcome `Aborted`.
- A loop can never end. This is the outcome `Hangs`, e.g. the `uint16_t` pointer loop of
  `nodeFromFile` when nkeys is 65535.
- Walks down the tree follow pointers read from the file, and those pointers may form a
  cycle. Each walk therefore takes a fuel bound and may end in `OutOfFuel`.

## Model

| member | source | states |
|---|---|---|
| Bytes.BytesToUInt16 | src/utils.c:6-10 | the result is the number the two bytes at s denote, most significant first |
| Bytes.BytesToUInt64 | src/utils.c:12-20 | the accumulator loop returns the big-endian value of the eight bytes at s |
| Bytes.UInt16ToBytes | src/utils.c:22-25 | writes the high then the low byte of v at s, changes no other byte, and bytesToUInt16 reads v back |
| Bytes.UInt64ToBytes | src/utils.c:27-32 | writes the 8-byte big-endian encoding of v at s, changes no other byte, and the 8 bytes read back as v |
| Bytes.UIntToBytes | src/utils.c:34-40 | the size_t countdown that stops when it wraps past zero writes exactly the n-byte big-endian encoding of v, and nothing else; with n = 8 the eight bytes also read back as v, as UInt64ToBytes states |
| Bytes.BeBytesRoundTrip | src/utils.c:6-32 | a value below 256^n survives encoding to n bytes and decoding |
| Bytes.BigEndianOfBeBytes | src/utils.c:27-32 | decoding the n-byte encoding gives v modulo 256^n |
| Bytes.BeBytesOfBigEndian | src/utils.c:12-20 | encoding the value of a byte string to its own length gives the string back |
| Bytes.CharArrayToString | src/utils.c:42-47 | a fresh array of len+1 bytes: the first len bytes of arr, then a zero |
| Bytes.StrLen | src/utils.c:49-50 | the index of strlen's first zero byte: that byte is zero and none before it is |
| Bytes.StringToCharArray | src/utils.c:49-58 | a fresh array with the bytes of arr before its first zero, none of them zero |
| Bytes.CStringRoundTrip | src/utils.c:42-58 | stringToCharArray, then charArrayToString on its result with the length as a uint16_t, gives back the array's C string up to and including its terminator, for any string of at most 65535 bytes |
| Keys.CStr | src/btree.c:126-130 | what strcmp sees of a key copied by charArrayToString: the bytes before its first zero, a prefix of the key with no zero in it |
| Keys.CompareKeyValue | src/btree.c:126-130 | the sign (-1, 0 or 1) of strcmp on the two keys, each cut at its first zero byte; what the sign means is stated by the four lemmas below |
| Keys.CompareZero | src/btree.c:126-130 | compare_key_value is 0 exactly when the keys agree up to their first zero byte |
| Keys.CompareIsLexicographic | src/btree.c:126-130 | on keys without zero bytes compare_key_value is byte-wise lexicographic order with a proper prefix first |
| Keys.CompareAntisymmetric | src/btree.c:126-130 | swapping the arguments negates the comparison |
| Keys.CompareTransitive | src/btree.c:126-130 | the order is transitive, so `Sorted` is a meaningful invariant |
| Keys.QueryWindow | src/btree.c:542-543 | exactly klen bytes of the query: its own bytes, then zero bytes past its end |
| Keys.MemCmp | src/btree.c:542-543 | the sign (-1, 0 or 1) of memcmp over klen bytes; MemCmpZero states when it is 0 |
| Keys.MemCmpZero | src/btree.c:539-549 | the memcmp over the stored key's klen bytes is 0 exactly when the key matches the query |
| Keys.KeyMatchesIsPrefix | src/btree.c:539-549 | a stored key without zero bytes matches exactly when it is a prefix of the query |
| Layout.EntriesSize | src/btree.c:169-173 | the keyValueSize sum of 4 + klen + vlen per entry, bounded by the 16-bit klen and vlen |
| Layout.HeaderBytes | src/btree.c:289-290 | exactly the 4 header bytes; EncodeHeaderAt states what they read back as |
| Layout.PointerBytes | src/btree.c:294-297 | 8 bytes per pointer; EncodePointerAt and DecodedPointers state what they read back as |
| Layout.OffsetBytes | src/btree.c:299-302 | 2 bytes per offset; EncodeOffsetAt and DecodedEntries state what they read back as |
| Layout.EntryBytes | src/btree.c:304-318 | EntrySize bytes, klen, vlen, key and value; EntryRead states that they read back as the entry |
| Layout.EntriesBytes | src/btree.c:304-318 | EntriesSize bytes for the whole run of entries |
| Layout.NodeByteSize | src/btree.c:166-179 | header, nkeys+1 pointers, nkeys offsets and the entries; the uint64_t sum never wraps |
| Layout.Encode | src/btree.c:278-322 | the image is exactly nodeByteSize bytes |
| Layout.EncodeParts | src/btree.c:287-318 | the image is the header, the pointer table, the offset table and the entries, in that order |
| Layout.EncodeHeaderAt | src/btree.c:289-290 | bytes 0-1 hold the type and bytes 2-3 hold nkeys, big-endian |
| Layout.EncodePointerAt | src/btree.c:294-297 | pointer k sits in the 8 bytes at 4 + 8k |
| Layout.EncodeOffsetAt | src/btree.c:299-302 | offset k sits in the 2 bytes at offsetsStart + 2k, and a missing offset reads as 0 |
| Layout.EncodeEntryAt | src/btree.c:304-318 | entry k is klen, vlen, key and value, placed after the k entries before it |
| Layout.EntryIn | src/btree.c:59-87 | the entry read at pos has klen and vlen from its header, and ends klen+vlen+4 bytes on |
| Layout.EntryRead | src/btree.c:59-87 | an encoded entry reads back as itself, and the next entry starts right after it |
| Layout.DecodeBytes | src/btree.c:89-124 | the decoded node has the stored nkeys, with arrays of exactly nkeys+1 pointers and nkeys offsets and entries |
| Layout.DecodeEncode | src/btree.c:89-124 | nodeFromBytes on the image nodeToBytes wrote gives back the node's header, pointers, offsets and entries, provided the offsets are cumulative and the image is within 16-bit positions |
| Layout.DecodedPointers | src/btree.c:110-113 | the pointer loop reads back every pointer that was written |
| Layout.DecodedEntries | src/btree.c:115-121 | the offset and entry loop reads back every offset and entry that was written |
| Layout.DecodeEntry | src/btree.c:115-121 | the stored offset k reads back, entry k lies within the 16-bit positions, and the entry read at keysStart + offsets[k] is entry k |
| Layout.SampleDecodes | src/main.c:10-30 | the sample page decodes as a leaf holding "key1" -> "value1" and "key22" -> "value222" under the three listed pointers |
| Layout.SampleEncodes | src/main.c:10-30 | that node encodes to exactly the 63 sample bytes |
| Layout.SampleWellFormed | src/main.c:10-30 | the sample node is well sized, its offsets are cumulative, and its image is 63 bytes |
| Nodes.EmptyNode | src/btree.c:421-445 | an INTERNAL node with nkeys 0, calloc'd arrays of t+1 pointers, t offsets and t entries, and all pointers zero |
| Nodes.Node.CreateEmptyNode | src/btree.c:421-445 | the new node holds EmptyNode(t) |
| Nodes.NewNode | src/btree.c:447-470 | type as given, nkeys 0, room for 2t pointers, 2t offsets and 2t-1 entries |
| Nodes.Node.CreateNode | src/btree.c:447-470 | the new node holds NewNode(type, t) |
| Seqs.Resize | src/btree.c:135-141 | realloc to n slots: exactly n slots, the old ones kept, the new ones holding the fill value |
| Nodes.InsertedEntries | src/btree.c:143-152 | exactly nkeys+1 entries; AddKVEntries, AddKVMultiset and AddKVSorted state which |
| Nodes.ShiftedPointers | src/btree.c:140-149 | exactly nkeys+2 pointers after the realloc and the shift; AddKVPointers states which |
| Nodes.ScanLeft | src/btree.c:144-149 | where the downward compare_key_value loop stops, at or below its start; the same loop picks the child in insertNonFull (src/btree.c:633-636); ScanLeftStops and ScanLeftIs characterise the slot |
| Nodes.ScanLeftStops | src/btree.c:144-149 | the shifting loop passes only entries greater than kv, and stops at one that is not greater, or at slot 0 |
| Nodes.ScanLeftIs | src/btree.c:144-149 | the loop's stopping point is the unique slot with only greater entries above it and none below |
| Nodes.AddKV | src/btree.c:132-164 | nkeys goes up by one as a uint16_t; the arrays grow to nkeys+1 entries and offsets and nkeys+2 pointers; the self pointer is kept |
| Nodes.AddKVEntries | src/btree.c:143-152 | the new entries are the old ones with kv inserted at the loop's stopping point |
| Nodes.AddKVMultiset | src/btree.c:143-152 | addKVtoNode adds exactly kv to the multiset of entries |
| Nodes.AddKVSorted | src/btree.c:143-152 | kv lands after every entry not greater than it and before every greater one, so a sorted node stays sorted |
| Nodes.AddKVCumulative | src/btree.c:154-160 | when the entries total at most 65535 bytes, the recomputed offsets are the exact running sizes |
| Nodes.AddKVPointers | src/btree.c:147 | pointers left of the insertion stay, those right of it move up one, and pointer pos+1 is also kept in place |
| Nodes.RunningOffsets | src/btree.c:154-160 | offset j is the 16-bit total size of the entries before entry j |
| Nodes.Node.AddKVtoNode | src/btree.c:132-164 | the node becomes AddKV(old node, kv) |
| Nodes.InsertEntry | src/btree.c:132-160 | the realloc, the shift, the store of kv and the offsets loop yield AddKV's entries, pointers and offsets |
| Nodes.MakeRoom | src/btree.c:133-149 | after the realloc and the shift, storing kv in the freed slot gives the inserted entries and the shifted pointers |
| Nodes.ShiftGreater | src/btree.c:144-149 | the loop stops at ScanLeft, and the entries and pointers above it have each moved up one slot |
| Nodes.RecomputeOffsets | src/btree.c:154-160 | the uint16_t running-total loop produces RunningOffsets |
| Nodes.KeyIndexFrom | src/btree.c:540-549 | -1 exactly when no entry from index i on memcmp-matches the query; otherwise the first matching index from i on |
| Nodes.KeyIndex | src/btree.c:539-549 | -1 exactly when no entry matches; otherwise the first matching index |
| Nodes.KeyIndexIsPrefixMatch | src/btree.c:539-549 | on zero-free keys, the entry found is a prefix of the query, and a prefix entry in the node is always found |
| Nodes.Node.GetKeyInNode | src/btree.c:539-549 | the loop returns KeyIndex of the node's nkeys entries |
| Nodes.Node.GetNextChild | src/btree.c:526-537 | the result is 0, whatever the key and the node's contents |
| Nodes.Node.ByteSize | src/btree.c:166-179 | the loop's uint64_t sum equals NodeByteSize |
| Nodes.Node.ToBytes | src/btree.c:278-322 | for a node with fewer than 65535 keys, a fresh buffer of nodeByteSize bytes holding exactly the node's image |
| Nodes.CopyInto | src/btree.c:313-317 | memcpy puts w at s and changes no other byte |
| Nodes.Emit16 | src/btree.c:289-290 | uint16ToBytes at the cursor: the written prefix grows by v's two big-endian bytes |
| Nodes.Emit64 | src/btree.c:294-297 | uint64ToBytes at the cursor: the written prefix grows by v's eight big-endian bytes |
| Nodes.EmitPointers | src/btree.c:294-297 | the pointer loop appends the pointer table after the bytes already written |
| Nodes.EmitOffsets | src/btree.c:299-302 | the offset loop appends the offset table |
| Nodes.EmitEntries | src/btree.c:304-318 | the entry loop appends the entries |
| Nodes.EmitEntry | src/btree.c:304-318 | one turn of the entry loop: the written prefix grows by exactly klen, vlen, key and value, EntrySize bytes |
| Nodes.KeyValueFromIndex | src/btree.c:59-87 | with no 16-bit position wrapping, the copy loops read the entry at kvPos |
| Nodes.NodeFromBytes | src/btree.c:89-124 | a fresh node holding DecodeBytes of the buffer |
| Nodes.ReadPointers | src/btree.c:110-113 | the pointer loop produces the decoded pointers |
| Nodes.EntryPlace | src/btree.c:115-120 | entry i's 16-bit position keysStart + offset does not wrap, and the entry there is entry i |
| Nodes.ReadEntries | src/btree.c:115-121 | the offset and entry loop produces the decoded offsets and entries |
| PageStore.AsLong | src/btree.c:350 | the long that fseek receives for a uint64_t offset: within the range of a long, and equal to the offset modulo 2^64 |
| PageStore.SeekOk | src/btree.c:350 | fseek with SEEK_SET succeeds exactly when that long is not negative; the same seek is made at src/btree.c:190 and 383 |
| PageStore.NextPage | src/btree.c:364 | last moves on by one page, as a uint64_t |
| PageStore.WriteAt | src/btree.c:350-360 | the written bytes replace those from p on; the rest stays; a gap before p reads as zero |
| PageStore.LeBytes | src/btree.c:331-333 | n bytes, byte k holding the k-th least significant byte of v, as fwrite stores root, last and t |
| PageStore.PointerTable | src/btree.c:222-224 | count 8-byte big-endian values read from the pointer bytes |
| PageStore.OffsetTable | src/btree.c:233-235 | count 2-byte big-endian values read from the offset bytes |
| PageStore.EntriesFrom | src/btree.c:243-273 | when the loop succeeds it yields exactly count entries |
| PageStore.EntriesFromNonEmpty | src/btree.c:255-265 | fread of zero bytes returns 0, not 1, so every entry the loop reads back has a non-empty key and value |
| PageStore.LoadNode | src/btree.c:181-276 | a loaded node has the offset it was read from as its self pointer, exactly nkeys+1 pointers and nkeys offsets and entries, and nkeys below 65535 |
| PageStore.NodeFromFile | src/btree.c:181-276 | null exactly when LoadNode says NULL; otherwise a fresh node holding what LoadNode reads; hangs exactly when the pointer loop never ends |
| PageStore.ReadPointerTable | src/btree.c:222-224 | the loop produces PointerTable |
| PageStore.ReadOffsetTable | src/btree.c:233-235 | the loop produces OffsetTable |
| PageStore.ReadEntry | src/btree.c:244-272 | succeeds exactly when the header, key and value reads all succeed, and then reads that entry |
| PageStore.ReadEntryRun | src/btree.c:243-273 | succeeds exactly when EntriesFrom does, and then yields its entries |
| PageStore.EntriesFromStep | src/btree.c:243-273 | one turn of the loop: the entry at the cursor, then the rest from where it ends |
| PageStore.LoadedNonEmpty | src/btree.c:255-265 | no node nodeFromFile returns holds an empty key or value, since fread of a zero-sized item fails |
| PageStore.LoadedInside | src/btree.c:190-273 | a node is returned only after a successful seek, and every byte it was read from lies inside the file: offset plus nodeByteSize of the node is at most the file's length |
| PageStore.EntriesFromInside | src/btree.c:243-273 | entries the loop reads successfully end inside the file |
| PageStore.LoadTruncated | src/btree.c:196-235 | a file that ends inside the node's header, or inside its pointer or offset table, yields NULL |
| PageStore.LoadWritten | src/btree.c:181-276 | nodeFromFile at p reads back a node whose image was just written at p |
| PageStore.LoadImage | src/btree.c:181-276 | a node whose image sits at p loads from p as that node |
| PageStore.EntriesFromImage | src/btree.c:243-273 | the entry loop reads back entries k.. from where entry k was written |
| PageStore.HeaderFromImage | src/btree.c:196-204 | the header read back is the header that was written |
| PageStore.PointersFromImage | src/btree.c:214-224 | the pointer table read back is the one that was written |
| PageStore.OffsetsFromImage | src/btree.c:227-235 | the offset table read back is the one that was written |
| PageStore.ImageSurvives | src/btree.c:383-393 | a write that ends before a node's image, or starts after it, leaves the image in place |
| PageStore.WrittenImage | src/btree.c:389 | after writing a node's image at p, that image sits at p |
| PageStore.TreeHeaderBytes | src/btree.c:331-333 | root, last and t, 8 + 8 + 2 bytes, least significant byte first |
| PageStore.WithHeader | src/btree.c:324-339 | the first 18 bytes become the tree header; nothing past them changes; root, last and t are kept |
| PageStore.ImageSurvivesHeader | src/btree.c:324-339 | rewriting the header leaves every page at or past byte 18 alone |
| PageStore.AddNode | src/btree.c:341-372 | for a node with fewer than 65535 keys: fails exactly when the seek to last fails, and then nothing changes; otherwise the destination is the old last, last moves on a page, and root and t are kept |
| PageStore.AddNodeKeeps | src/btree.c:341-372 | the file does not shrink, and every byte past the tree header outside the appended image keeps its value |
| PageStore.AddNodeImage | src/btree.c:341-372 | the appended page holds the node's image |
| PageStore.AddNodeLoads | src/btree.c:341-372 | nodeFromFile reads the node back from the address addNodeToFile returned |
| PageStore.UpdateNode | src/btree.c:374-397 | for a node with fewer than 65535 keys: succeeds exactly when the seek to the self pointer works, and then the image sits there; root, last and t are kept; on failure nothing changes |
| PageStore.UpdateNodeLoads | src/btree.c:374-397 | after rewriting a node at its self pointer, nodeFromFile there reads the rewritten node |
| PageStore.UpdateNodeKeeps | src/btree.c:374-397 | rewriting a node leaves alone the image of any other node it does not overlap |
| PageStore.AddKVNonEmpty | src/btree.c:132-164 | adding a pair with a non-empty key and value keeps every key and value non-empty |
| PageStore.MockRoot | src/btree.c:494-502 | createEmptyNode(4) made a leaf with ("k", "v") added: a LEAF with one key and self pointer 0 |
| PageStore.MockTree | src/btree.c:472-524 | root at byte 4096, last one page further on at 8192, t = 4 |
| PageStore.MockRootLoads | src/btree.c:472-524 | the root page reads back as a leaf holding just "k" -> "v" |
| PageStore.BTree.UpdateTreeInFile | src/btree.c:324-339 | the tree becomes WithHeader of its old state |
| PageStore.BTree.AddNodeToFile | src/btree.c:341-372 | hangs exactly when the node has 65535 keys, and then the tree is untouched; otherwise the tree becomes AddNode's state, the result is AddNode's return value and, on success, its destination |
| PageStore.BTree.UpdateNodeOnFile | src/btree.c:374-397 | hangs exactly when the node has 65535 keys, and then the tree is untouched; otherwise the tree becomes UpdateNode's state, the result is its return value |
| PageStore.BTree.CreateMockupTree | src/btree.c:472-524 | the new tree is MockTree |
| Engine.SearchFrom | src/btree.c:551-579 | a pair the search finds has a key that memcmp-matches the query |
| Engine.SearchKeyValue | src/btree.c:551-579 | when the search ends (Found or Missing), r is the C's return value: 1 with the pair copied out when SearchFrom finds one, -1 when it does not; when the C never returns (Endless) or the fuel runs out (NoFuel, which has no counterpart in the C), the model gives -1 |
| Engine.SearchFindsStored | src/btree.c:551-579 | a pair the search finds is an entry of a page that loads from the file |
| Engine.SearchOnlyFirstChild | src/btree.c:571-573 | below an internal node with no match, the search goes to the first child only, whatever the other children hold |
| Engine.SearchFindsHeld | src/btree.c:551-579 | a search from a page finds an entry for the key of every pair that page holds |
| Engine.MockSearch | src/btree.c:472-579 | the mock tree's search finds ("k", "v") exactly for queries starting with "k", and finds nothing for any other query |
| Engine.UpperHalf | src/btree.c:585-597 | z has y's type, nkeys 0 and self pointer 0; its first t-1 entries are y's upper t-1 entries; for an internal y, its first t pointers are y's upper t pointers |
| Engine.SplitParent | src/btree.c:602-619 | nkeys goes up by one as a uint16_t; the self pointer and offsets are kept; an array allocated with exactly nkeys+1 pointers or nkeys entries grows by one |
| Engine.SplitParentShape | src/btree.c:602-619 | x's entries become the old ones with the median inserted at i, and its pointers the old ones with z's address inserted after pointer i |
| Engine.SplitParentSorted | src/btree.c:602-619 | a median placed between the entries left and right of slot i keeps x sorted |
| Engine.SplitParentStaleOffsets | src/btree.c:602-613 | the offsets are not recomputed, so a node read from the file no longer has cumulative offsets after the split |
| Engine.Inc16 | src/btree.c:612 | `nkeys++` on a uint16_t wraps 65535 to 0 |
| Engine.SplitChildSpec | src/btree.c:581-625 | stops exactly when appending z fails (Aborted) or x held 65534 keys, so that writing it back hangs (Hangs); otherwise root and t are kept, last moves on a page, x has one more key, fewer than 65535, and keeps its type, self pointer and first pointer, and x's arrays can hold the new key |
| Engine.SplitKeepsNonEmpty | src/btree.c:598-612 | the median splitChild moves into x was read from the file, so x keeps only non-empty keys and values |
| Engine.SplitParentNonEmpty | src/btree.c:603-612 | inserting a non-empty median into a node whose entries are non-empty keeps them all non-empty |
| Engine.SplitDone | src/btree.c:598-624 | after a successful append, when x held fewer than 65534 keys: root and t are kept, last moves on a page, x gets its header with nkeys incremented, keeps its self pointer and first pointer, holds fewer than 65535 keys and can hold the new key |
| Engine.SplitChildSpecIs | src/btree.c:581-625 | when the append succeeds, the result is x after the split and the file after the four writes |
| Engine.SplitWrites | src/btree.c:616-624 | the four writes keep root and t |
| Engine.SplitWritesLoad | src/btree.c:616-624 | when the writes do not overlap, z reads back at the appended page, y at its own page, and z's image also sits at byte 0 |
| Engine.SplitChildOnDisk | src/btree.c:581-625 | when the writes do not overlap, the child keeps only its lower t-1 entries and the new sibling reads back with no entries, because z's nkeys is never set; z's image is also written at byte 0 |
| Engine.CopyDown | src/btree.c:589-596 | the copy loop puts src[off..off+count] at the front of dst |
| Seqs.Put | src/btree.c:603-608 | a store at index j of an allocation that may be one slot short: the sequence is one longer exactly when j is its length, v sits at j, and every other slot is kept |
| Engine.ShiftUp | src/btree.c:603-608 | the downward loop leaves ShiftedUp: s[c..e] moved up one slot, its first store possibly one past the end |
| Seqs.ShiftUpStep | src/btree.c:144-149 | one turn of a downward shifting loop, here addKVtoNode's and in Engine.ShiftUp splitChild's, keeps ShiftedUp with its lower bound one less |
| Seqs.FillGap | src/btree.c:603-611 | storing v in the slot a shift freed gives the insertion of v at c; Nodes.MakeRoom uses it for addKVtoNode's store of kv (src/btree.c:152) |
| Engine.Sibling | src/btree.c:585-597 | a fresh node holding UpperHalf(y, t) |
| Engine.LinkChild | src/btree.c:602-619 | x becomes SplitParent(old x, i, median, dest) |
| Engine.Linked | src/btree.c:602-619 | the shifted arrays with the median and dest stored in their free slots make SplitParent |
| Engine.SplitChild | src/btree.c:581-625 | stops exactly as SplitChildSpec does; otherwise the tree and x become SplitChildSpec's tree and x |
| Engine.InsertNonFullSpec | src/btree.c:627-650 | when the call returns, root and t are kept, last does not move back, and x stays well sized with its type, self pointer and first pointer, and with fewer than 65535 keys if it had fewer; a leaf that held 65534 keys or more hangs |
| Engine.InsertNonFullKeepsNonEmpty | src/btree.c:632-648 | insertNonFull on an internal node whose keys and values are non-empty leaves them non-empty |
| Engine.SplitThenDescend | src/btree.c:640-647 | at a full child: when the split and the descent return, root and t are kept, last does not move back, and x keeps its type, self pointer and first pointer, with fewer than 65535 keys |
| Engine.Descend | src/btree.c:638-648 | when the call returns, root and t are kept, and the caller's x is unchanged |
| Engine.InsertNonFull | src/btree.c:627-650 | stops exactly as InsertNonFullSpec does; otherwise the tree and x become InsertNonFullSpec's tree and x |
| Engine.InsertSpec | src/btree.c:652-675 | t is kept; when the root loads and is not full, the root pointer is kept |
| Engine.InsertFullRoot | src/btree.c:656-671 | under a full root: the header holds the new root, the page the final addNodeToFile appended past all earlier pages, with last one page beyond it; that page holds the image of an internal node whose first pointer is the old root and whose self pointer is 0, and nodeFromFile reads that node back from it |
| Engine.Insert | src/btree.c:652-675 | stops exactly as InsertSpec does; otherwise the tree becomes InsertSpec's tree |
| Engine.InsertLeafRoot | src/btree.c:652-675 | inserting into a root leaf that is not full returns with root and t kept; the root page then reads back as the old node with kv added in order; a search for kv's key finds a pair |

## Left out

- Only the seek of `fseek`/`fwrite`/`fread` can fail in the model. A short write, or a
  failing `fflush`, is not modelled. The seek fails from offset 2^63 on, where the
  `uint64_t` argument becomes a negative `long`.
- The tree header is taken to be written little-endian. `updateTreeInFile` writes the
  native representation of its fields, so a big-endian machine would differ.
- Memory that `malloc` or `realloc` hands out uninitialised is modelled as zero, or as an
  empty entry. So is a read past an allocation, such as an offset that splitChild left
  missing.
- `malloc` failure, `free`, and the printing in the failure branches are not modelled.
- Walks down the tree carry a fuel bound. A search or insert whose pointers form a cycle
  ends in `OutOfFuel` instead of running forever.
- `readKeyValuePairs`, `treeFromFileName`, the print functions and `src/main.c` are not
  part of this model, apart from the sample page of `src/main.c` used as a test vector.
- `fopen` and `malloc` in `createMockupTree` are not modelled. The model starts from the
  open, emptied file.
- Engine.SplitChild: the source shifts x before it appends z, and the model shifts x after
  the append. x plays no part in the append, and x is lost when the append fails, so the
  two orders cannot be told apart.
- Engine.InsertSpec: its own contract states only that t is kept and that a non-full root
  stays the root. A leaf root is covered by Engine.InsertLeafRoot, a full root by
  Engine.InsertFullRoot, and the split's effect on the file by Engine.SplitChildOnDisk.
  The entries below a full root after the insert are not described, for the reason given
  next. Engine.InsertFullRoot does state that the new root loads back, but not which
  entries it holds. A second split during the descent may add a median to it, and
  whether one happens depends on the children being read back intact.
- Engine.InsertNonFullSpec: its contract does not say which entries the subtree holds
  afterwards. The split loses the child's upper t-1 entries (Engine.SplitChildOnDisk), so
  no such invariant holds for the source as written.
- Nodes.KeyValueFromIndex, Layout.DecodeEncode and Layout.Decodable: these require every
  16-bit position `nodeFromBytes` computes to stay at or below 65535. Past that its
  `uint16_t` `kvPos`, `keyStart` and `valStart` wrap, and its value loop never ends. The
  wrapped reads are not modelled.
- Nodes.Node.ToBytes, PageStore.AddNode and PageStore.UpdateNode: these require fewer
  than 65535 keys, because the `uint16_t` pointer loop of `nodeToBytes` never ends at
  65535. The methods that call them, `AddNodeToFile` and `UpdateNodeOnFile`, report that
  case as a hang instead.
- Nodes.AddKV and Nodes.Node.AddKVtoNode: these also require fewer than 65535 keys. At
  65535 the `uint16_t j <= nkeys` offsets loop of `addKVtoNode` (src/btree.c:156) never
  ends. Engine.InsertNonFull reports that case as Hangs without calling AddKVtoNode. At
  65534 keys it does call it, and then the write-back of 65535 keys hangs. Also, `uint16ToBytes` and `uint64ToBytes` take their start
  index as an `int`, and `nodeToBytes` passes its `uint64_t` position. An image of 2^31
  bytes or more (possible with many long keys) therefore has its later fields stored at
  a converted, out-of-range index. Bytes.UInt16ToBytes, Bytes.UInt64ToBytes and
  Nodes.Node.ToBytes take the index as an unbounded number. They encode such images as if
  the `int` could hold every position.
- The concrete file path in `createMockupTree` is not modelled.
