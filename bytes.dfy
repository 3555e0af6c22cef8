// Big-endian integer codec and C-string copies (src/utils.c).

module Bytes {

  type byte = x: int | 0 <= x < 0x100
  type u16 = x: int | 0 <= x < 0x1_0000
  type u64 = x: int | 0 <= x < 0x1_0000_0000_0000_0000

  const TWO64: int := 0x1_0000_0000_0000_0000

  function Pow256(n: nat): (r: nat)
    ensures r > 0
  {
    if n == 0 then 1 else 256 * Pow256(n - 1)
  }

  lemma Pow256Values()
    ensures Pow256(1) == 0x100 && Pow256(2) == 0x1_0000
    ensures Pow256(8) == TWO64
  {
    assert Pow256(2) == 0x1_0000;
    assert Pow256(4) == 0x1_0000_0000;
    assert Pow256(6) == 0x1_0000_0000_0000;
  }

  lemma {:induction false} Pow256Monotone(m: nat, n: nat)
    requires m <= n
    ensures Pow256(m) <= Pow256(n)
  {
    if m < n {
      Pow256Monotone(m, n - 1);
    }
  }

  /** The number denoted by a big-endian byte string. */
  function BigEndian(b: seq<byte>): (r: nat)
    ensures r < Pow256(|b|)
  {
    if b == [] then 0 else BigEndian(b[..|b| - 1]) * 256 + b[|b| - 1]
  }

  /** The n-byte big-endian encoding of v modulo 256^n. */
  function BeBytes(v: nat, n: nat): (r: seq<byte>)
    ensures |r| == n
  {
    if n == 0 then [] else BeBytes(v / 256, n - 1) + [v % 256]
  }

  lemma DivUnique(v: int, d: int, q: int, r: int)
    requires d > 0 && 0 <= r < d && v == d * q + r
    ensures v / d == q && v % d == r
  {
    var q', r' := v / d, v % d;
    assert v == d * q' + r';
    if q' > q {
      assert d * q' >= d * (q + 1) by { MulMonotone(d, q + 1, q'); }
      assert false;
    } else if q' < q {
      assert d * q >= d * (q' + 1) by { MulMonotone(d, q' + 1, q); }
      assert false;
    }
  }

  lemma MulMonotone(d: int, a: int, b: int)
    requires d > 0 && a <= b
    ensures d * a <= d * b
  {
  }

  /** v taken modulo 256^(n+1) splits into its last byte and the rest modulo 256^n. */
  lemma ModSplit(v: nat, n: nat)
    ensures v % Pow256(n + 1) == ((v / 256) % Pow256(n)) * 256 + v % 256
  {
    var p := Pow256(n);
    var q, r := v / 256, v % 256;
    var a, b := q / p, q % p;
    assert q == p * a + b;
    assert v == 256 * q + r;
    assert v == (256 * p) * a + (256 * b + r);
    assert 256 * b + r < 256 * p by {
      assert b <= p - 1;
      MulMonotone(256, b, p - 1);
    }
    DivUnique(v, 256 * p, a, 256 * b + r);
  }

  lemma {:induction false} BigEndianOfBeBytes(v: nat, n: nat)
    ensures BigEndian(BeBytes(v, n)) == v % Pow256(n)
  {
    if n > 0 {
      var s := BeBytes(v, n);
      assert s[..n - 1] == BeBytes(v / 256, n - 1);
      BigEndianOfBeBytes(v / 256, n - 1);
      ModSplit(v, n - 1);
    }
  }

  lemma {:induction false} BeBytesOfBigEndian(b: seq<byte>)
    ensures BeBytes(BigEndian(b), |b|) == b
  {
    if b != [] {
      var pre := b[..|b| - 1];
      var x := BigEndian(pre) * 256 + b[|b| - 1];
      DivUnique(x, 256, BigEndian(pre), b[|b| - 1]);
      BeBytesOfBigEndian(pre);
      assert b == pre + [b[|b| - 1]];
    }
  }

  /** Byte k of the n-byte encoding is byte (n-1-k) of v counting from the least significant. */
  lemma {:induction false} BeBytesAt(v: nat, n: nat, k: nat)
    requires k < n
    ensures BeBytes(v, n)[k] == (v / Pow256(n - 1 - k)) % 256
  {
    if k < n - 1 {
      BeBytesAt(v / 256, n - 1, k);
      DivDiv(v, 256, Pow256(n - 2 - k));
    }
  }

  lemma DivDiv(v: nat, a: nat, b: nat)
    requires a > 0 && b > 0
    ensures (v / a) / b == v / (a * b)
  {
    var q, r := v / a, v % a;
    var q2, r2 := q / b, q % b;
    assert v == a * q + r;
    assert q == b * q2 + r2;
    assert v == (a * b) * q2 + (a * r2 + r);
    assert a * r2 + r < a * b by {
      assert r2 <= b - 1;
      MulMonotone(a, r2, b - 1);
    }
    DivUnique(v, a * b, q2, a * r2 + r);
  }

  /** A value below 256^n survives the n-byte round trip. */
  lemma BeBytesRoundTrip(v: nat, n: nat)
    requires v < Pow256(n)
    ensures BigEndian(BeBytes(v, n)) == v
  {
    BigEndianOfBeBytes(v, n);
  }

  /** bytesToUInt16 (src/utils.c:6-10): the high byte shifted left by 8, or-ed with the low byte. */
  function BytesToUInt16(b: seq<byte>, s: nat): (r: u16)
    requires s + 2 <= |b|
    ensures r == BigEndian(b[s..s + 2])
  {
    assert b[s..s + 2][..1] == [b[s]];
    (b[s] as int) * 256 + b[s + 1]
  }

  /** The unsigned 64-bit value stored big-endian at b[s..s+8]. */
  function U64At(b: seq<byte>, s: nat): (r: u64)
    requires s + 8 <= |b|
  {
    Pow256Values();
    BigEndian(b[s..s + 8])
  }

  /** The eight bytes weigh 256^7, ..., 256, 1 from first to last. */
  lemma U64AtSum(b: seq<byte>, s: nat)
    requires s + 8 <= |b|
    ensures U64At(b, s) == (b[s] as int) * 0x100_0000_0000_0000 + (b[s + 1] as int) * 0x1_0000_0000_0000
               + (b[s + 2] as int) * 0x100_0000_0000 + (b[s + 3] as int) * 0x1_0000_0000
               + (b[s + 4] as int) * 0x100_0000 + (b[s + 5] as int) * 0x1_0000
               + (b[s + 6] as int) * 0x100 + b[s + 7] as int
  {
    var w := b[s..s + 8];
    forall k | 0 <= k < 8 ensures BigEndian(w[..k + 1]) == BigEndian(w[..k]) * 256 + w[k] {
      assert w[..k + 1][..k] == w[..k];
    }
    assert w[..8] == w;
    var b1, b2, b3, b4 := BigEndian(w[..1]), BigEndian(w[..2]), BigEndian(w[..3]), BigEndian(w[..4]);
    var b5, b6, b7 := BigEndian(w[..5]), BigEndian(w[..6]), BigEndian(w[..7]);
    assert b1 == w[0] as int by { assert w[..0] == []; }
    assert b2 == b1 * 256 + w[1];
    assert b3 == b2 * 256 + w[2];
    assert b4 == b3 * 256 + w[3];
    assert b5 == b4 * 256 + w[4];
    assert b6 == b5 * 256 + w[5];
    assert b7 == b6 * 256 + w[6];
    assert BigEndian(w) == b7 * 256 + w[7];
  }

  /** bytesToUInt64 (src/utils.c:12-20): shifts eight bytes into an accumulator, most significant first. */
  method BytesToUInt64(b: seq<byte>, s: nat) returns (r: u64)
    requires s + 8 <= |b|
    ensures r == U64At(b, s)
  {
    Pow256Values();
    var acc: nat := 0;
    var i := 0;
    while i < 8
      invariant 0 <= i <= 8
      invariant acc == BigEndian(b[s..s + i])
    {
      assert b[s..s + i + 1][..i] == b[s..s + i];
      // (acc << 8) | b[s+i]: the low byte of acc << 8 is zero and no high bit is lost within eight steps
      acc := acc * 256 + b[s + i];
      i := i + 1;
    }
    Pow256Monotone(i, 8);
    r := acc;
  }

  /** uint16ToBytes (src/utils.c:22-25). */
  method UInt16ToBytes(v: u16, a: array<byte>, s: nat)
    requires s + 2 <= a.Length
    modifies a
    ensures a[s] == v / 256 && a[s + 1] == v % 256
    ensures forall k :: 0 <= k < a.Length && k != s && k != s + 1 ==> a[k] == old(a[k])
    ensures a[s..s + 2] == BeBytes(v, 2)
    ensures BytesToUInt16(a[..], s) == v
  {
    a[s] := v / 256;
    a[s + 1] := v % 256;
    assert BeBytes(v, 2) == BeBytes(v / 256, 1) + [v % 256];
    assert BeBytes(v / 256, 1) == [(v / 256) % 256];
  }

  /** uint64ToBytes (src/utils.c:27-32): writes the low byte at s+7, shifts right, down to s. */
  method UInt64ToBytes(v: u64, a: array<byte>, s: nat)
    requires s + 8 <= a.Length
    modifies a
    ensures a[s..s + 8] == BeBytes(v, 8)
    ensures forall k :: 0 <= k < a.Length && !(s <= k < s + 8) ==> a[k] == old(a[k])
    ensures U64At(a[..], s) == v
  {
    hide BeBytes;
    var value: nat := v;
    var i: int := 7;
    while i >= 0
      invariant -1 <= i <= 7
      invariant value == v / Pow256(7 - i)
      invariant forall k :: i < k < 8 ==> a[s + k] == BeBytes(v, 8)[k]
      invariant forall k :: 0 <= k < a.Length && !(s + i < k < s + 8) ==> a[k] == old(a[k])
    {
      BeBytesAt(v, 8, i);
      a[s + i] := value % 256;
      DivDiv(v, Pow256(7 - i), 256);
      value := value / 256;
      i := i - 1;
    }
    assert a[s..s + 8] == BeBytes(v, 8);
    Pow256Values();
    BeBytesRoundTrip(v, 8);
    assert a[..][s..s + 8] == a[s..s + 8];
  }

  /**
   * uintToBytes (src/utils.c:34-40): the loop index is an unsigned size_t that starts at
   * numBytes - 1 and stops once decrementing past zero wraps it to 2^64 - 1. With
   * n = 8 it ensures all that UInt64ToBytes does.
   */
  method UIntToBytes(v: u64, a: array<byte>, s: nat, n: u64)
    requires s + n <= a.Length
    modifies a
    ensures a[s..s + n] == BeBytes(v, n)
    ensures forall k :: 0 <= k < a.Length && !(s <= k < s + n) ==> a[k] == old(a[k])
    ensures n == 8 ==> U64At(a[..], s) == v
  {
    hide BeBytes;
    var value: nat := v;
    var i: u64 := (n - 1) % TWO64;
    ghost var w: nat := 0;
    while i < n
      invariant w <= n
      invariant (w < n && i == n - 1 - w) || (w == n && i == TWO64 - 1)
      invariant value == v / Pow256(w)
      invariant forall k :: n - w <= k < n ==> a[s + k] == BeBytes(v, n)[k]
      invariant forall k :: 0 <= k < a.Length && !(s + n - w <= k < s + n) ==> a[k] == old(a[k])
      decreases if i < n then i + 1 else 0
    {
      BeBytesAt(v, n, i);
      a[s + i] := value % 256;
      DivDiv(v, Pow256(w), 256);
      assert Pow256(w + 1) == Pow256(w) * 256;
      value := value / 256;
      // u64 decrement: below zero it wraps to the largest value, which ends the loop
      if i == 0 {
        i := TWO64 - 1;
      } else {
        i := i - 1;
      }
      w := w + 1;
    }
    assert a[s..s + n] == BeBytes(v, n);
    if n == 8 {
      Pow256Values();
      BeBytesRoundTrip(v, 8);
      assert a[..][s..s + 8] == a[s..s + 8];
    }
  }

  /** strlen: the index of the first zero byte. */
  function StrLen(s: seq<byte>): (n: nat)
    requires 0 in s
    ensures n < |s| && s[n] == 0
    ensures forall k :: 0 <= k < n ==> s[k] != 0
  {
    if s[0] == 0 then 0 else StrLen(s[1..]) + 1
  }

  /** charArrayToString (src/utils.c:42-47): the first len bytes followed by a terminator. */
  method CharArrayToString(arr: array<byte>, len: u16) returns (r: array<byte>)
    requires len <= arr.Length
    ensures fresh(r)
    ensures r.Length == len + 1
    ensures r[..len] == arr[..len] && r[len] == 0
  {
    r := new byte[len + 1];
    forall k | 0 <= k < len {
      r[k] := arr[k];
    }
    r[len] := 0;
  }

  /** stringToCharArray (src/utils.c:49-58): the bytes of a C string without its terminator. */
  method StringToCharArray(arr: array<byte>) returns (r: array<byte>)
    requires 0 in arr[..]
    ensures fresh(r)
    ensures r[..] == arr[..StrLen(arr[..])]
    ensures forall k :: 0 <= k < r.Length ==> r[k] != 0
  {
    var n := StrLen(arr[..]);
    r := new byte[n];
    var i := 0;
    while i < n
      invariant 0 <= i <= n
      invariant r[..i] == arr[..i]
    {
      r[i] := arr[i];
      i := i + 1;
      assert r[..i] == r[..i - 1] + [r[i - 1]];
    }
  }

  /**
   * stringToCharArray and then charArrayToString on its result, with the length as the
   * uint16_t the source passes: the C string comes back with its terminator.
   */
  method CStringRoundTrip(arr: array<byte>) returns (back: array<byte>)
    requires 0 in arr[..] && StrLen(arr[..]) <= 0xFFFF
    ensures back[..] == arr[..StrLen(arr[..]) + 1]
  {
    var chars := StringToCharArray(arr);
    back := CharArrayToString(chars, chars.Length as u16);
    assert back[..] == back[..chars.Length] + [back[chars.Length]];
  }
}
