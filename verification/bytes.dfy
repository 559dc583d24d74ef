/** Big-endian signed integer reads and writes over byte sequences, and the
    search for a string terminator. Every multi-byte number of the backend
    protocol is big-endian two's complement. */
module Bytes {
  import opened Results

  type byte = x: int | 0 <= x < 256
  type bytes = seq<byte>

  const TWO_15: int := 0x8000
  const TWO_16: int := 0x1_0000
  const TWO_31: int := 0x8000_0000
  const TWO_32: int := 0x1_0000_0000

  predicate IsInt16(n: int) { -TWO_15 <= n < TWO_15 }
  predicate IsInt32(n: int) { -TWO_31 <= n < TWO_31 }

  /** The signed 16-bit value stored big-endian at s[i..i+2]. */
  function Int16(s: bytes, i: nat): (r: int)
    requires i + 2 <= |s|
    ensures IsInt16(r)
  {
    var u := (s[i] as int) * 0x100 + s[i + 1] as int;
    if u >= TWO_15 then u - TWO_16 else u
  }

  /** The signed 32-bit value stored big-endian at s[i..i+4]. */
  function Int32(s: bytes, i: nat): (r: int)
    requires i + 4 <= |s|
    ensures IsInt32(r)
  {
    var u := (((s[i] as int) * 0x100 + s[i + 1] as int) * 0x100 + s[i + 2] as int) * 0x100 + s[i + 3] as int;
    if u >= TWO_31 then u - TWO_32 else u
  }

  /** The two bytes that store n big-endian: n is reduced modulo 2^16, which
      for n in the signed 16-bit range is its two's complement form. */
  function BE16(n: int): (r: bytes)
    ensures |r| == 2
  {
    var u := n % TWO_16;
    [u / 0x100, u % 0x100]
  }

  /** The four bytes that store n big-endian: n is reduced modulo 2^32, which
      for n in the signed 32-bit range is its two's complement form. */
  function BE32(n: int): (r: bytes)
    ensures |r| == 4
  {
    var u := n % TWO_32;
    [u / 0x100_0000, (u / 0x1_0000) % 0x100, (u / 0x100) % 0x100, u % 0x100]
  }

  /** Reading back what BE16 wrote gives the number, whatever follows it. */
  lemma Int16OfBE16(n: int, rest: bytes)
    requires IsInt16(n)
    ensures Int16(BE16(n) + rest, 0) == n
  {
    var u := n % TWO_16;
    assert u == if n < 0 then n + TWO_16 else n;
    var s := BE16(n) + rest;
    assert s[0] == u / 0x100 && s[1] == u % 0x100;
  }

  /** Reading back what BE32 wrote gives the number, whatever follows it. */
  lemma Int32OfBE32(n: int, rest: bytes)
    requires IsInt32(n)
    ensures Int32(BE32(n) + rest, 0) == n
  {
    var u := n % TWO_32;
    assert u == if n < 0 then n + TWO_32 else n;
    var s := BE32(n) + rest;
    assert s[0] == u / 0x100_0000 && s[1] == (u / 0x1_0000) % 0x100;
    assert s[2] == (u / 0x100) % 0x100 && s[3] == u % 0x100;
    var a := u / 0x100;
    var b := a / 0x100;
    assert u == a * 0x100 + u % 0x100;
    assert a == b * 0x100 + a % 0x100;
    assert b == (b / 0x100) * 0x100 + b % 0x100;
    assert b / 0x100 == u / 0x100_0000;
    assert b % 0x100 == (u / 0x1_0000) % 0x100;
  }

  /** Writing back what Int16 read reproduces the two bytes it read. */
  lemma BE16OfInt16(s: bytes, i: nat)
    requires i + 2 <= |s|
    ensures BE16(Int16(s, i)) == s[i..i + 2]
  {
    var u := (s[i] as int) * 0x100 + s[i + 1] as int;
    assert u / 0x100 == s[i] && u % 0x100 == s[i + 1];
    var n := Int16(s, i);
    assert n % TWO_16 == u;
  }

  /** Writing back what Int32 read reproduces the four bytes it read. */
  lemma BE32OfInt32(s: bytes, i: nat)
    requires i + 4 <= |s|
    ensures BE32(Int32(s, i)) == s[i..i + 4]
  {
    var u := (((s[i] as int) * 0x100 + s[i + 1] as int) * 0x100 + s[i + 2] as int) * 0x100 + s[i + 3] as int;
    var a := (s[i] as int) * 0x100 + s[i + 1] as int;
    var b := a * 0x100 + s[i + 2] as int;
    assert u == b * 0x100 + s[i + 3];
    assert u / 0x100 == b && u % 0x100 == s[i + 3];
    assert b / 0x100 == a && b % 0x100 == s[i + 2];
    assert a / 0x100 == s[i] && a % 0x100 == s[i + 1];
    assert u / 0x1_0000 == (u / 0x100) / 0x100;
    assert u / 0x100_0000 == ((u / 0x100) / 0x100) / 0x100;
    var n := Int32(s, i);
    assert n % TWO_32 == u;
  }

  /** A 32-bit value written after any prefix is read back at the prefix's
      length. */
  lemma Int32At(p: bytes, n: int, q: bytes)
    requires IsInt32(n)
    ensures Int32(p + BE32(n) + q, |p|) == n
  {
    var s := p + BE32(n) + q;
    Int32OfBE32(n, q);
    assert s[|p|] == (BE32(n) + q)[0] && s[|p| + 1] == (BE32(n) + q)[1];
    assert s[|p| + 2] == (BE32(n) + q)[2] && s[|p| + 3] == (BE32(n) + q)[3];
  }

  /** A 16-bit read past a prefix reads the bytes after the prefix. */
  lemma Int16Shift(p: bytes, s: bytes, i: nat)
    requires i + 2 <= |s|
    ensures Int16(p + s, |p| + i) == Int16(s, i)
  {
    assert (p + s)[|p| + i] == s[i] && (p + s)[|p| + i + 1] == s[i + 1];
  }

  /** A 32-bit read past a prefix reads the bytes after the prefix. */
  lemma Int32Shift(p: bytes, s: bytes, i: nat)
    requires i + 4 <= |s|
    ensures Int32(p + s, |p| + i) == Int32(s, i)
  {
    assert (p + s)[|p| + i] == s[i] && (p + s)[|p| + i + 1] == s[i + 1];
    assert (p + s)[|p| + i + 2] == s[i + 2] && (p + s)[|p| + i + 3] == s[i + 3];
  }

  /** Index of the first NUL byte in s at or after position `from`, or None
      when the rest of s holds no NUL. */
  function FindNul(s: bytes, from: nat): (r: Option<nat>)
    requires from <= |s|
    ensures r.Some? ==> from <= r.value < |s|
    decreases |s| - from
  {
    if from == |s| then None
    else if s[from] == 0 then Some(from)
    else FindNul(s, from + 1)
  }

  /** FindNul finds the first NUL at or after `from`, and finds nothing
      exactly when there is none. */
  lemma {:induction false} FindNulSpec(s: bytes, from: nat)
    requires from <= |s|
    ensures FindNul(s, from).Some? ==> s[FindNul(s, from).value] == 0
    ensures FindNul(s, from).Some? ==> forall k :: from <= k < FindNul(s, from).value ==> s[k] != 0
    ensures FindNul(s, from).None? ==> forall k :: from <= k < |s| ==> s[k] != 0
    decreases |s| - from
  {
    if from < |s| && s[from] != 0 {
      FindNulSpec(s, from + 1);
    }
  }

  predicate NulFree(s: bytes) {
    forall k :: 0 <= k < |s| ==> s[k] != 0
  }

  /** FindNul stops at the first NUL: a NUL at j with none between `from`
      and j is the one it finds. */
  lemma {:induction false} FindNulFirst(s: bytes, from: nat, j: nat)
    requires from <= j < |s| && s[j] == 0
    requires forall k :: from <= k < j ==> s[k] != 0
    ensures FindNul(s, from) == Some(j)
    decreases j - from
  {
    if from < j {
      FindNulFirst(s, from + 1, j);
    }
  }

  /** A NUL-free string followed by its terminator is found exactly where the
      terminator was written, whatever follows. */
  lemma FindNulOfTerminated(v: bytes, rest: bytes)
    requires NulFree(v)
    ensures FindNul(v + [0] + rest, 0) == Some(|v|)
  {
    var s := v + [0] + rest;
    forall k | 0 <= k < |v| ensures s[k] != 0 {
      assert s[k] == v[k];
    }
    FindNulFirst(s, 0, |v|);
  }
}
