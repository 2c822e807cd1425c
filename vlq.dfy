/**
 * Variable-length quantities: big-endian base-128 digits, every byte but the
 * last carrying the continuation bit 0x80.
 */
module Vlq {
  import opened Alphabet

  function Pow128(k: nat): (p: nat)
    ensures p >= 1
  {
    if k == 0 then 1 else 128 * Pow128(k - 1)
  }

  /**
   * The digits that `encodeLength` prepends for the quotient `m`, most
   * significant first, each with the continuation bit set; none for m == 0.
   */
  function Prefix(m: nat): (r: seq<Byte>)
    ensures forall k :: 0 <= k < |r| ==> r[k] >= 128
    ensures |r| > 0 ==> r[0] > 128
    decreases m
  {
    if m == 0 then [] else Prefix(m / 128) + [m % 128 + 128]
  }

  /** The bytes `encodeLength(n)` returns. */
  function VlqBytes(n: nat): (r: seq<Byte>)
  {
    Prefix(n / 128) + [n % 128]
  }

  /** The number `decodeLength(bytes)` returns: digits accumulated 7 bits at a time. */
  function VlqValue(bytes: seq<Byte>): nat
  {
    if bytes == [] then 0
    else VlqValue(bytes[..|bytes| - 1]) * 128 + bytes[|bytes| - 1] % 128
  }

  /**
   * Shape of an encoding: at least one byte; the continuation bit on every
   * byte except the last; no leading zero digit, so the encoding is minimal;
   * zero encodes as the single byte 0.
   */
  lemma VlqShape(n: nat)
    ensures var r := VlqBytes(n);
      |r| >= 1 && r[|r| - 1] < 128 &&
      (forall k :: 0 <= k < |r| - 1 ==> r[k] >= 128) &&
      (|r| > 1 ==> r[0] != 128) &&
      (n == 0 ==> r == [0])
  {
  }

  /** The digit count of the prefix is the smallest k with m < 128^k. */
  lemma {:induction false} PrefixLength(m: nat)
    ensures m < Pow128(|Prefix(m)|)
    ensures m > 0 ==> Pow128(|Prefix(m)| - 1) <= m
    decreases m
  {
    if m > 0 {
      PrefixLength(m / 128);
    }
  }

  /** One byte per started group of 7 bits: 128^(|r|-1) <= n < 128^|r| (and |r| == 1 for n < 128). */
  lemma VlqLength(n: nat)
    ensures n < Pow128(|VlqBytes(n)|)
    ensures |VlqBytes(n)| > 1 ==> Pow128(|VlqBytes(n)| - 1) <= n
    ensures |VlqBytes(n)| == 1 <==> n < 128
  {
    PrefixLength(n / 128);
    assert |VlqBytes(n)| == |Prefix(n / 128)| + 1;
  }

  lemma {:induction false} PrefixValue(m: nat)
    ensures VlqValue(Prefix(m)) == m
    decreases m
  {
    if m > 0 {
      var q, d := m / 128, m % 128;
      PrefixValue(q);
      var p := Prefix(m);
      assert p == Prefix(q) + [d + 128];
      assert p[..|p| - 1] == Prefix(q);
      assert VlqValue(p) == VlqValue(Prefix(q)) * 128 + (d + 128) % 128;
      assert (d + 128) % 128 == d;
    }
  }

  /** `decodeLength(encodeLength(n)) == n`. */
  lemma VlqRoundTrip(n: nat)
    ensures VlqValue(VlqBytes(n)) == n
  {
    PrefixValue(n / 128);
    var r := VlqBytes(n);
    assert r[..|r| - 1] == Prefix(n / 128);
    assert VlqValue(r) == (n / 128) * 128 + n % 128;
  }

  /** `encodeLength`: the low digit first, then digits unshifted while n > 127. */
  method EncodeLength(n0: nat) returns (bytes: seq<Byte>)
    ensures bytes == VlqBytes(n0)
  {
    var n: nat := n0;
    bytes := [n % 128];
    while n > 127
      invariant Prefix(n / 128) + bytes == VlqBytes(n0)
    {
      n := n / 128;
      bytes := [n % 128 + 128] + bytes;
    }
    assert Prefix(n / 128) == [];
  }

  /** `decodeLength`: `len = len << 7 | byte & 0x7F` over every byte. */
  method DecodeLength(bytes: seq<Byte>) returns (len: nat)
    ensures len == VlqValue(bytes)
  {
    len := 0;
    for i := 0 to |bytes|
      invariant len == VlqValue(bytes[..i])
    {
      assert bytes[..i + 1][..i] == bytes[..i];
      len := len * 128 + bytes[i] % 128;
    }
    assert bytes[..|bytes|] == bytes;
  }

  /** `bytes[i]`, with a read past the end giving 0 (`undefined & 0x80` is 0). */
  function At(bytes: seq<Byte>, i: nat): Byte
  {
    if i < |bytes| then bytes[i] else 0
  }

  /**
   * Length of the VLQ field starting at index i, as `decodeData` measures it:
   * the bytes from i whose continuation bit is set, plus the one that ends the field.
   */
  function FieldLen(bytes: seq<Byte>, i: nat): (len: nat)
    ensures len >= 1
    decreases |bytes| - i
  {
    if i < |bytes| && At(bytes, i) >= 128 then 1 + FieldLen(bytes, i + 1) else 1
  }

  /** Scanning an encoded length finds exactly its bytes, whatever follows them. */
  lemma {:induction false} FieldLenOfVlq(pre: seq<Byte>, n: nat, rest: seq<Byte>)
    ensures FieldLen(pre + VlqBytes(n) + rest, |pre|) == |VlqBytes(n)|
    decreases |VlqBytes(n)|
  {
    VlqShape(n);
    FieldLenOfDigits(pre, VlqBytes(n), rest);
  }

  lemma {:induction false} FieldLenOfDigits(pre: seq<Byte>, d: seq<Byte>, rest: seq<Byte>)
    requires |d| >= 1 && d[|d| - 1] < 128
    requires forall k :: 0 <= k < |d| - 1 ==> d[k] >= 128
    ensures FieldLen(pre + d + rest, |pre|) == |d|
    decreases |d|
  {
    var s := pre + d + rest;
    assert s[|pre|] == d[0];
    if |d| > 1 {
      FieldLenOfDigits(pre + [d[0]], d[1..], rest);
      assert pre + [d[0]] + d[1..] + rest == s;
    }
  }
}
