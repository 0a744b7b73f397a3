/** Little-endian words, the alphabet of every wire format and of the ring's control words. */
module Bytes {
  const TWO32: int := 0x1_0000_0000
  const TWO64: int := 0x1_0000_0000_0000_0000

  type byte = x: int | 0 <= x < 256
  type u32 = x: int | 0 <= x < 0x1_0000_0000
  type u64 = x: int | 0 <= x < 0x1_0000_0000_0000_0000

  datatype Option<+T> = None | Some(value: T) {
    predicate IsFailure() { None? }
    function PropagateFailure<U>(): Option<U> requires None? { None }
    function Extract(): T requires Some? { value }
  }

  /** A Go conversion to uint32: keep the low 32 bits. */
  function Low32(n: int): (v: u32) {
    n % TWO32
  }

  function Le32(v: u32): (s: seq<byte>)
    ensures |s| == 4
  {
    [v % 256, v / 256 % 256, v / 65536 % 256, v / 16777216]
  }

  /** The word at offset `o`. */
  function U32At(s: seq<byte>, o: nat): (v: u32)
    requires o + 4 <= |s|
  {
    s[o] as int + 256 * s[o + 1] as int + 65536 * s[o + 2] as int + 16777216 * s[o + 3] as int
  }

  /** Two dwords, low half first. */
  function Le64(v: u64): (s: seq<byte>)
    ensures |s| == 8
  {
    Le32(v % TWO32) + Le32(v / TWO32)
  }

  function U64At(s: seq<byte>, o: nat): (v: u64)
    requires o + 8 <= |s|
  {
    U32At(s, o) as int + TWO32 * U32At(s, o + 4) as int
  }

  lemma Digits(v: int)
    requires 0 <= v < TWO32
    ensures v == v % 256 + 256 * (v / 256 % 256) + 65536 * (v / 65536 % 256) + 16777216 * (v / 16777216)
  {
    assert v / 65536 == v / 256 / 256 && v / 16777216 == v / 65536 / 256;
  }

  /** Least significant byte first. */
  lemma LittleEndian(v: u32)
    ensures var s := Le32(v);
      v == s[0] as int + 256 * s[1] as int + 65536 * s[2] as int + 16777216 * s[3] as int
  {
    Digits(v);
  }

  /** Eight bytes are the low word and then the high word. */
  lemma LittleEndian64(v: u64)
    ensures var s := Le64(v);
      && v % 0x1_0000_0000 == s[0] as int + 256 * s[1] as int + 65536 * s[2] as int + 16777216 * s[3] as int
      && v / 0x1_0000_0000 == s[4] as int + 256 * s[5] as int + 65536 * s[6] as int + 16777216 * s[7] as int
  {
    hide Le32;
    LittleEndian(v % TWO32);
    LittleEndian(v / TWO32);
  }

  lemma Le32At(s: seq<byte>, o: nat, v: u32)
    requires o + 4 <= |s| && s[o..o + 4] == Le32(v)
    ensures U32At(s, o) == v
  {
    Digits(v);
    var w := s[o..o + 4];
    assert s[o] == w[0] && s[o + 1] == w[1] && s[o + 2] == w[2] && s[o + 3] == w[3];
  }

  lemma Le64At(s: seq<byte>, o: nat, v: u64)
    requires o + 8 <= |s| && s[o..o + 8] == Le64(v)
    ensures U64At(s, o) == v
  {
    assert s[o..o + 4] == s[o..o + 8][..4] == Le32(v % TWO32);
    assert s[o + 4..o + 8] == s[o..o + 8][4..] == Le32(v / TWO32);
    Le32At(s, o, v % TWO32);
    Le32At(s, o + 4, v / TWO32);
  }

  /** Reading is the inverse on the other side too: no two byte strings share a word. */
  lemma WordDeterminesBytes(s: seq<byte>, o: nat)
    requires o + 4 <= |s|
    ensures Le32(U32At(s, o)) == s[o..o + 4]
  {
    var v: int, b: int, c: int, d: int := U32At(s, o), s[o + 1], s[o + 2], s[o + 3];
    assert v / 16777216 == d;
    assert v / 65536 == c + 256 * d;
    assert v / 256 == b + 256 * c + 65536 * d;
  }

  function EncodeDwords(ds: seq<u32>): (s: seq<byte>)
    ensures |s| == 4 * |ds|
  {
    if ds == [] then [] else Le32(ds[0]) + EncodeDwords(ds[1..])
  }

  function DecodeDwords(s: seq<byte>, n: nat): (ds: seq<u32>)
    requires 4 * n <= |s|
    ensures |ds| == n
  {
    if n == 0 then [] else [U32At(s, 0)] + DecodeDwords(s[4..], n - 1)
  }

  lemma {:induction false} DwordsRoundTrip(ds: seq<u32>, rest: seq<byte>)
    ensures DecodeDwords(EncodeDwords(ds) + rest, |ds|) == ds
  {
    if ds != [] {
      var s := EncodeDwords(ds) + rest;
      assert s[0..4] == Le32(ds[0]);
      Le32At(s, 0, ds[0]);
      assert s[4..] == EncodeDwords(ds[1..]) + rest;
      DwordsRoundTrip(ds[1..], rest);
    }
  }

  lemma {:induction false} DwordsConcat(a: seq<u32>, b: seq<u32>)
    ensures EncodeDwords(a + b) == EncodeDwords(a) + EncodeDwords(b)
  {
    if a == [] {
      assert a + b == b;
    } else {
      assert (a + b)[1..] == a[1..] + b;
      DwordsConcat(a[1..], b);
    }
  }

  /** The n-th dword of a stream of dwords is the word at offset 4n. */
  lemma {:induction false} DwordAt(s: seq<byte>, n: nat, i: nat)
    requires 4 * n <= |s| && i < n
    ensures DecodeDwords(s, n)[i] == U32At(s, 4 * i)
  {
    if i > 0 {
      DwordAt(s[4..], n - 1, i - 1);
    }
  }
}
