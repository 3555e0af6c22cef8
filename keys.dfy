// Key-value entries and the two byte comparisons the tree uses: strcmp in
// compare_key_value (src/btree.c:126-130) and memcmp in getKeyInNode and
// getNextChild (src/btree.c:526-549).

module Keys {
  import opened Bytes

  /** A key or a value; its length travels in a 16-bit klen or vlen field. */
  type Field = s: seq<byte> | |s| <= 0xFFFF

  /** struct KeyValue (src/btree.h:23-28); klen and vlen are the lengths of key and value. */
  datatype KeyValue = KeyValue(key: Field, value: Field)

  /** An entry slot that was allocated but never written (modelled as empty). */
  const Blank: KeyValue := KeyValue([], [])

  function Zeros(n: nat): (r: seq<byte>)
    ensures |r| == n && forall k :: 0 <= k < n ==> r[k] == 0
  {
    seq(n, _ => 0)
  }

  /** What a C string function sees of a buffer: the bytes before the first zero. */
  function CStr(s: seq<byte>): (r: seq<byte>)
    ensures |r| <= |s| && r == s[..|r|]
    ensures 0 !in r
    ensures |r| < |s| ==> s[|r|] == 0
  {
    if s == [] || s[0] == 0 then [] else [s[0]] + CStr(s[1..])
  }

  lemma CStrOfZeroFree(s: seq<byte>)
    requires 0 !in s
    ensures CStr(s) == s
  {
  }

  /** Sign of a byte-wise lexicographic comparison in which a proper prefix sorts first. */
  function LexCmp(a: seq<byte>, b: seq<byte>): (r: int)
    ensures -1 <= r <= 1
  {
    if a == [] && b == [] then 0
    else if a == [] then -1
    else if b == [] then 1
    else if a[0] < b[0] then -1
    else if a[0] > b[0] then 1
    else LexCmp(a[1..], b[1..])
  }

  lemma {:induction false} LexCmpZero(a: seq<byte>, b: seq<byte>)
    ensures LexCmp(a, b) == 0 <==> a == b
  {
    if a != [] && b != [] && a[0] == b[0] {
      LexCmpZero(a[1..], b[1..]);
      assert a == [a[0]] + a[1..] && b == [b[0]] + b[1..];
    }
  }

  lemma {:induction false} LexCmpAntisymmetric(a: seq<byte>, b: seq<byte>)
    ensures LexCmp(b, a) == -LexCmp(a, b)
  {
    if a != [] && b != [] && a[0] == b[0] {
      LexCmpAntisymmetric(a[1..], b[1..]);
    }
  }

  lemma {:induction false} LexCmpTransitive(a: seq<byte>, b: seq<byte>, c: seq<byte>)
    requires LexCmp(a, b) <= 0 && LexCmp(b, c) <= 0
    ensures LexCmp(a, c) <= 0
  {
    if a != [] && b != [] && c != [] && a[0] == b[0] == c[0] {
      LexCmpTransitive(a[1..], b[1..], c[1..]);
    }
  }

  lemma LexCmpStrictLeft(a: seq<byte>, b: seq<byte>, c: seq<byte>)
    requires LexCmp(a, b) < 0 && LexCmp(b, c) <= 0
    ensures LexCmp(a, c) < 0
  {
    LexCmpTransitive(a, b, c);
    if LexCmp(a, c) == 0 {
      LexCmpZero(a, c);
      LexCmpAntisymmetric(a, b);
    }
  }

  /**
   * compare_key_value (src/btree.c:126-130): strcmp of the two keys after each is copied
   * into a NUL-terminated string, so only the bytes before a key's first zero take part.
   */
  function CompareKeyValue(kv1: KeyValue, kv2: KeyValue): (r: int)
    ensures -1 <= r <= 1
  {
    LexCmp(CStr(kv1.key), CStr(kv2.key))
  }

  /** compare_key_value is zero exactly when the keys agree up to their first zero byte. */
  lemma CompareZero(kv1: KeyValue, kv2: KeyValue)
    ensures CompareKeyValue(kv1, kv2) == 0 <==> CStr(kv1.key) == CStr(kv2.key)
  {
    LexCmpZero(CStr(kv1.key), CStr(kv2.key));
  }

  /** On keys without zero bytes compare_key_value is plain lexicographic order. */
  lemma CompareIsLexicographic(kv1: KeyValue, kv2: KeyValue)
    requires 0 !in kv1.key && 0 !in kv2.key
    ensures CompareKeyValue(kv1, kv2) == LexCmp(kv1.key, kv2.key)
  {
    CStrOfZeroFree(kv1.key);
    CStrOfZeroFree(kv2.key);
  }

  lemma CompareAntisymmetric(kv1: KeyValue, kv2: KeyValue)
    ensures CompareKeyValue(kv2, kv1) == -CompareKeyValue(kv1, kv2)
  {
    LexCmpAntisymmetric(CStr(kv1.key), CStr(kv2.key));
  }

  lemma CompareTransitive(kv1: KeyValue, kv2: KeyValue, kv3: KeyValue)
    requires CompareKeyValue(kv1, kv2) <= 0 && CompareKeyValue(kv2, kv3) <= 0
    ensures CompareKeyValue(kv1, kv3) <= 0
  {
    LexCmpTransitive(CStr(kv1.key), CStr(kv2.key), CStr(kv3.key));
  }

  /** Entries in ascending order under compare_key_value; equal keys may sit side by side. */
  predicate Sorted(kvs: seq<KeyValue>)
  {
    forall j, k :: 0 <= j < k < |kvs| ==> CompareKeyValue(kvs[j], kvs[k]) <= 0
  }

  /**
   * The klen bytes memcmp reads from the query: the query's own bytes, then its
   * terminator and whatever follows it, which the model takes to be zero bytes.
   */
  function QueryWindow(q: seq<byte>, n: nat): (r: seq<byte>)
    ensures |r| == n
  {
    if n <= |q| then q[..n] else q + Zeros(n - |q|)
  }

  /** memcmp(query, stored key, klen) == 0. */
  predicate KeyMatches(q: seq<byte>, key: seq<byte>)
  {
    QueryWindow(q, |key|) == key
  }

  /** memcmp(query, stored key, klen), as a sign. */
  function MemCmp(q: seq<byte>, key: seq<byte>): (r: int)
    ensures -1 <= r <= 1
  {
    LexCmp(QueryWindow(q, |key|), key)
  }

  lemma MemCmpZero(q: seq<byte>, key: seq<byte>)
    ensures MemCmp(q, key) == 0 <==> KeyMatches(q, key)
  {
    LexCmpZero(QueryWindow(q, |key|), key);
  }

  /**
   * A stored key without zero bytes matches exactly when it is a prefix of the query:
   * memcmp compares only the stored key's length.
   */
  lemma KeyMatchesIsPrefix(q: seq<byte>, key: seq<byte>)
    requires 0 !in key
    ensures KeyMatches(q, key) <==> |key| <= |q| && q[..|key|] == key
  {
    if |key| > |q| {
      assert QueryWindow(q, |key|)[|q|] == 0;
      assert key[|q|] in key;
    }
  }
}
