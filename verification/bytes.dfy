/**
 * Fixed-width unsigned integers and their little-endian byte encodings, as
 * written by `byteorder`'s `write_u32/u64/u128::<LittleEndian>` and by
 * `u64::to_le_bytes`.
 */
module Bytes {

  type byte = b: nat | b < 0x100
  type u32 = x: nat | x < 0x1_0000_0000
  type u64 = x: nat | x < 0x1_0000_0000_0000_0000
  type u128 = x: nat | x < 0x1_0000_0000_0000_0000_0000_0000_0000_0000

  /** 256 to the power `n`: the number of values `n` bytes can hold. */
  function Pow256(n: nat): (r: nat)
    ensures r > 0
  {
    if n == 0 then 1 else 256 * Pow256(n - 1)
  }

  lemma Pow256Widths()
    ensures Pow256(4) == 0x1_0000_0000
    ensures Pow256(8) == 0x1_0000_0000_0000_0000
    ensures Pow256(16) == 0x1_0000_0000_0000_0000_0000_0000_0000_0000
  {
    assert Pow256(2) == 0x1_0000;
    assert Pow256(4) == 0x1_0000_0000;
    assert Pow256(6) == 0x1_0000_0000_0000;
    assert Pow256(8) == 0x1_0000_0000_0000_0000;
    assert Pow256(10) == 0x1_0000_0000_0000_0000_0000;
    assert Pow256(12) == 0x1_0000_0000_0000_0000_0000_0000;
    assert Pow256(14) == 0x1_0000_0000_0000_0000_0000_0000_0000;
  }

  /** The number whose little-endian encoding is `b`: byte `i` weighs `256^i`. */
  function FromLittleEndian(b: seq<byte>): (v: nat)
    ensures v < Pow256(|b|)
  {
    if b == [] then 0 else b[0] + 256 * FromLittleEndian(b[1..])
  }

  /** The `n` least significant bytes of `v`, least significant first. */
  function ToLittleEndian(v: nat, n: nat): (r: seq<byte>)
    requires v < Pow256(n)
    ensures |r| == n
    ensures FromLittleEndian(r) == v
  {
    if n == 0 then []
    else
      var rest := ToLittleEndian(v / 256, n - 1);
      assert ([(v % 256) as byte] + rest)[1..] == rest;
      [(v % 256) as byte] + rest
  }

  lemma DivUnique(x: int, d: int, q: int, m: int)
    requires d > 0 && 0 <= m < d && x == d * q + m
    ensures x / d == q
  {
    var q' := x / d;
    assert x == d * q' + x % d;
    if q' < q {
      MulLe(d, q' + 1, q);
      assert false;
    } else if q' > q {
      MulLe(d, q + 1, q');
      assert false;
    }
  }

  lemma MulLe(d: int, a: int, b: int)
    requires d >= 0 && a <= b
    ensures d * a <= d * b
  {
  }

  lemma DivDiv(v: nat, a: nat, b: nat)
    requires a > 0 && b > 0
    ensures (v / a) / b == v / (a * b)
  {
    var q, r1 := v / a, v % a;
    var q2, r2 := q / b, q % b;
    assert v == a * q + r1;
    assert q == b * q2 + r2;
    assert v == (a * b) * q2 + (a * r2 + r1);
    assert a * r2 <= a * (b - 1) by { MulLe(a, r2, b - 1); }
    DivUnique(v, a * b, q2, a * r2 + r1);
  }

  /** Byte `i` of the encoding is `(v >> 8i) & 0xff`. */
  lemma {:induction false} ToLittleEndianByte(v: nat, n: nat, i: nat)
    requires v < Pow256(n) && i < n
    ensures ToLittleEndian(v, n)[i] == (v / Pow256(i)) % 256
  {
    if i > 0 {
      ToLittleEndianByte(v / 256, n - 1, i - 1);
      DivDiv(v, 256, Pow256(i - 1));
    }
  }

  /** Encoding what a byte sequence decodes to gives back the same bytes. */
  lemma {:induction false} LittleEndianRoundTrip(b: seq<byte>)
    ensures ToLittleEndian(FromLittleEndian(b), |b|) == b
  {
    if b != [] {
      var rest := FromLittleEndian(b[1..]);
      LittleEndianRoundTrip(b[1..]);
      assert (b[0] + 256 * rest) / 256 == rest;
      assert (b[0] + 256 * rest) % 256 == b[0];
      assert b == [b[0]] + b[1..];
    }
  }

  /** `u32_to_vec`. */
  function U32ToVec(v: u32): (r: seq<byte>)
    ensures |r| == 4 && FromLittleEndian(r) == v
  {
    Pow256Widths();
    ToLittleEndian(v, 4)
  }

  /** `u64_to_vec`, and equally `u64::to_le_bytes`. */
  function U64ToVec(v: u64): (r: seq<byte>)
    ensures |r| == 8 && FromLittleEndian(r) == v
  {
    Pow256Widths();
    ToLittleEndian(v, 8)
  }

  /** `u128_to_vec`. */
  function U128ToVec(v: u128): (r: seq<byte>)
    ensures |r| == 16 && FromLittleEndian(r) == v
  {
    Pow256Widths();
    ToLittleEndian(v, 16)
  }

  /** The packers put `(v >> 8i) & 0xff` at byte `i`. */
  lemma PackerBytes(a: u32, b: u64, c: u128)
    ensures forall i :: 0 <= i < 4 ==> U32ToVec(a)[i] == (a / Pow256(i)) % 256
    ensures forall i :: 0 <= i < 8 ==> U64ToVec(b)[i] == (b / Pow256(i)) % 256
    ensures forall i :: 0 <= i < 16 ==> U128ToVec(c)[i] == (c / Pow256(i)) % 256
  {
    Pow256Widths();
    forall i | 0 <= i < 4 { ToLittleEndianByte(a, 4, i); }
    forall i | 0 <= i < 8 { ToLittleEndianByte(b, 8, i); }
    forall i | 0 <= i < 16 { ToLittleEndianByte(c, 16, i); }
  }

  /** Each word's little-endian bytes, in word order (`hash.extend(&h[k].to_le_bytes())` for each `k`). */
  function ConcatWords(words: seq<u64>): (r: seq<byte>)
    ensures |r| == 8 * |words|
  {
    if words == [] then [] else U64ToVec(words[0]) + ConcatWords(words[1..])
  }

  /** Reads consecutive 8-byte little-endian words. */
  function SplitWords(b: seq<byte>): seq<u64>
    requires |b| % 8 == 0
  {
    if b == [] then []
    else
      Pow256Widths();
      [FromLittleEndian(b[..8])] + SplitWords(b[8..])
  }

  /** The concatenated bytes decode back to the words they came from. */
  lemma {:induction false} SplitConcatWords(words: seq<u64>)
    ensures SplitWords(ConcatWords(words)) == words
  {
    if words != [] {
      var b := ConcatWords(words);
      assert b[..8] == U64ToVec(words[0]);
      assert b[8..] == ConcatWords(words[1..]);
      SplitConcatWords(words[1..]);
      assert words == [words[0]] + words[1..];
    }
  }

  /** Bytes `8k .. 8k+8` of the concatenation are the encoding of word `k`. */
  lemma {:induction false} ConcatWordsChunk(words: seq<u64>, k: nat)
    requires k < |words|
    ensures ConcatWords(words)[8 * k..8 * k + 8] == U64ToVec(words[k])
  {
    var b := ConcatWords(words);
    if k == 0 {
      assert b[..8] == U64ToVec(words[0]);
    } else {
      ConcatWordsChunk(words[1..], k - 1);
      var rest := ConcatWords(words[1..]);
      assert b == U64ToVec(words[0]) + rest;
      assert b[8 * k..8 * k + 8] == rest[8 * (k - 1)..8 * (k - 1) + 8];
    }
  }
}
