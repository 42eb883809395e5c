/**
 * 64-bit FNV-1a as Go's hash/fnv New64a computes it: start from the offset
 * basis, and for every byte xor it into the low bits and multiply by the FNV
 * prime, all modulo 2^64. The constants are those of section 2 of the IETF
 * draft "The FNV Non-Cryptographic Hash Algorithm" (draft-eastlake-fnv).
 */
module Fnv {
  import opened Text

  const OffsetBasis64: bv64 := 14695981039346656037
  const Prime64: bv64 := 1099511628211

  /** One round of FNV-1a: xor, then multiply (wrapping modulo 2^64). */
  function Round(h: bv64, b: byte): bv64 {
    (h ^ (b as bv64)) * Prime64
  }

  /** The hash state after absorbing `data` from state `h`, byte by byte from the front. */
  function Absorb(h: bv64, data: Bytes): bv64
    decreases |data|
  {
    if |data| == 0 then h else Absorb(Round(h, data[0]), data[1..])
  }

  /**
   * FNV-1a-64 as its definition reads: the offset basis for no data, and one
   * more round for each byte appended.
   */
  function Reference(data: Bytes): bv64
    decreases |data|
  {
    if |data| == 0 then OffsetBasis64
    else Round(Reference(data[..|data| - 1]), data[|data| - 1])
  }

  /** Sum64 of a fresh New64a hash after Write(data); it agrees with the definition. */
  function Sum64a(data: Bytes): (h: bv64)
    ensures h == Reference(data)
  {
    AbsorbIsReference(data);
    Absorb(OffsetBasis64, data)
  }

  /** Absorbing from the offset basis, front to back, computes the definition's fold. */
  lemma {:induction false} AbsorbIsReference(data: Bytes)
    ensures Absorb(OffsetBasis64, data) == Reference(data)
    decreases |data|
  {
    if |data| >= 1 {
      var init := data[..|data| - 1];
      AbsorbIsReference(init);
      AbsorbAppend(OffsetBasis64, init, [data[|data| - 1]]);
      assert init + [data[|data| - 1]] == data;
    }
  }

  /** Writing in two pieces is writing the concatenation: hashing is a left fold. */
  lemma {:induction false} AbsorbAppend(h: bv64, a: Bytes, b: Bytes)
    ensures Absorb(h, a + b) == Absorb(Absorb(h, a), b)
    decreases |a|
  {
    if |a| > 0 {
      assert (a + b)[1..] == a[1..] + b;
      AbsorbAppend(Round(h, a[0]), a[1..], b);
    } else {
      assert a + b == b;
    }
  }

  /** Appending one byte applies one more round to the previous hash. */
  lemma Sum64aSnoc(data: Bytes, b: byte)
    ensures Sum64a(data + [b]) == Round(Sum64a(data), b)
  {
    assert (data + [b])[..|data|] == data;
  }

  /** The loop of fnv's sum64a.Write, run on a fresh hash; it agrees with Sum64a. */
  method Write(data: Bytes) returns (hash: bv64)
    ensures hash == Sum64a(data)
  {
    hash := OffsetBasis64;
    var i := 0;
    assert data[0..] == data;
    while i < |data|
      invariant 0 <= i <= |data|
      invariant Absorb(hash, data[i..]) == Sum64a(data)
    {
      assert data[i..][1..] == data[i + 1..];
      hash := Round(hash, data[i]);
      i := i + 1;
    }
    assert data[i..] == [];
  }
}
