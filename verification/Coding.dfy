/** Fixed-width and variable-width integers and length-prefixed strings (util/coding.h, util/coding.cc). */
module Coding {
  import opened DbFormat

  const WORD: nat := 0x1_0000_0000
  const DWORD: nat := 0x1_0000_0000_0000_0000

  /** A 32-bit number. */
  type Word = x: nat | x < WORD

  function Zeros(n: nat): (r: Bytes)
    ensures |r| == n
  {
    if n == 0 then [] else [0] + Zeros(n - 1)
  }

  // ---- Specification -----------------------------------------------------------------------------

  /** v in n little-endian bytes. */
  function Fixed(n: nat, v: nat): (r: Bytes)
    ensures |r| == n
  {
    if n == 0 then [] else [v % 256] + Fixed(n - 1, v / 256)
  }

  function FixedValue(b: Bytes): nat {
    if b == [] then 0 else b[0] + 256 * FixedValue(b[1..])
  }

  function Pow256(n: nat): (r: nat)
    ensures r > 0
  {
    if n == 0 then 1 else 256 * Pow256(n - 1)
  }

  lemma {:induction false} FixedRoundTrip(n: nat, v: nat)
    requires v < Pow256(n)
    ensures FixedValue(Fixed(n, v)) == v
  {
    if n > 0 { FixedRoundTrip(n - 1, v / 256); }
  }

  lemma FixedWords(v: nat)
    ensures v < WORD ==> FixedValue(Fixed(4, v)) == v
    ensures v < DWORD ==> FixedValue(Fixed(8, v)) == v
  {
    assert Pow256(2) == 0x1_0000;
    assert Pow256(4) == WORD;
    assert Pow256(6) == 0x1_0000_0000_0000;
    assert Pow256(8) == DWORD;
    if v < WORD { FixedRoundTrip(4, v); }
    if v < DWORD { FixedRoundTrip(8, v); }
  }

  lemma {:induction false} FixedFits(b: Bytes)
    ensures FixedValue(b) < Pow256(|b|)
  {
    if b != [] { FixedFits(b[1..]); }
  }

  lemma WordsFit(b: Bytes)
    ensures |b| == 4 ==> FixedValue(b) < WORD
    ensures |b| == 8 ==> FixedValue(b) < DWORD
  {
    FixedFits(b);
    assert Pow256(2) == 0x1_0000;
    assert Pow256(4) == WORD;
    assert Pow256(6) == 0x1_0000_0000_0000;
    assert Pow256(8) == DWORD;
  }

  /** Seven bits to a byte, low bits first, the top bit set on all bytes but the last. */
  function Varint(v: nat): (r: Bytes)
    ensures |r| >= 1
  {
    if v < 128 then [v] else [v % 128 + 128] + Varint(v / 128)
  }

  /** The number at the front of b and its length in bytes, at most max of them. */
  function VarintValue(b: Bytes, max: nat): (r: Option<(nat, nat)>)
    ensures r.Some? ==> 1 <= r.value.1 <= |b| && r.value.1 <= max
  {
    if max == 0 || b == [] then None
    else if b[0] < 128 then Some((b[0], 1))
    else match VarintValue(b[1..], max - 1)
      case None => None
      case Some(p) => Some((b[0] - 128 + 128 * p.0, p.1 + 1))
  }

  function Pow128(n: nat): (r: nat)
    ensures r > 0
  {
    if n == 0 then 1 else 128 * Pow128(n - 1)
  }

  /** Whatever follows it, an encoded number is read back whole. */
  lemma {:induction false} VarintRoundTrip(v: nat, rest: Bytes, max: nat)
    requires max > 0 && v < Pow128(max)
    ensures VarintValue(Varint(v) + rest, max) == Some((v, |Varint(v)|))
  {
    var b := Varint(v) + rest;
    if v >= 128 {
      VarintRoundTrip(v / 128, rest, max - 1);
      assert b[1..] == Varint(v / 128) + rest;
    }
  }

  /** A cut inside an encoded number leaves no number. */
  lemma {:induction false} VarintCut(v: nat, k: nat, max: nat)
    requires k < |Varint(v)|
    ensures VarintValue(Varint(v)[..k], max).None?
  {
    if v >= 128 && k > 0 && max > 0 {
      VarintCut(v / 128, k - 1, max - 1);
      assert Varint(v)[..k][1..] == Varint(v / 128)[..k - 1];
    }
  }

  lemma {:induction false} VarintSize(v: nat, n: nat)
    requires n > 0 && v < Pow128(n)
    ensures |Varint(v)| <= n
  {
    if v >= 128 { VarintSize(v / 128, n - 1); }
  }

  lemma Pow128Words()
    ensures Pow128(4) == 0x1000_0000 && Pow128(5) == 0x8_0000_0000
    ensures Pow128(9) == 0x8000_0000_0000_0000 && Pow128(10) == 0x40_0000_0000_0000_0000
  {
    assert Pow128(2) == 0x4000;
    assert Pow128(4) == 0x1000_0000;
    assert Pow128(6) == 0x400_0000_0000;
    assert Pow128(8) == 0x100_0000_0000_0000;
  }

  function Prefixed(s: Bytes): Bytes {
    Varint(|s|) + s
  }

  /** The length-prefixed string at the front of b and what follows it. */
  function PrefixedValue(b: Bytes): Option<(Bytes, Bytes)> {
    match VarintValue(b, 5)
    case None => None
    case Some(p) =>
      (var len := p.0 % WORD;
       if |b| - p.1 >= len then Some((b[p.1..][..len], b[p.1..][len..])) else None)
  }

  lemma PrefixedRoundTrip(s: Bytes, rest: Bytes)
    requires |s| < WORD
    ensures PrefixedValue(Prefixed(s) + rest) == Some((s, rest))
  {
    Pow128Words();
    VarintRoundTrip(|s|, s + rest, 5);
    var b := Prefixed(s) + rest;
    assert b == Varint(|s|) + (s + rest);
    assert b[|Varint(|s|)|..] == s + rest;
    assert (s + rest)[..|s|] == s && (s + rest)[|s|..] == rest;
  }

  /** More input after a complete number or string does not change how it is read. */
  lemma {:induction false} VarintExtends(b: Bytes, rest: Bytes, max: nat)
    requires VarintValue(b, max).Some?
    ensures VarintValue(b + rest, max) == VarintValue(b, max)
  {
    if b[0] >= 128 {
      assert (b + rest)[1..] == b[1..] + rest;
      VarintExtends(b[1..], rest, max - 1);
    }
  }

  lemma PrefixedExtends(b: Bytes, rest: Bytes)
    ensures PrefixedValue(b).Some? ==>
        PrefixedValue(b + rest) == Some((PrefixedValue(b).value.0, PrefixedValue(b).value.1 + rest))
    ensures PrefixedValue(b).Some? ==> |PrefixedValue(b).value.1| < |b|
  {
    if PrefixedValue(b).Some? {
      VarintExtends(b, rest, 5);
      var p := VarintValue(b, 5).value;
      assert (b + rest)[p.1..] == b[p.1..] + rest;
      var len := p.0 % WORD;
      assert (b[p.1..] + rest)[..len] == b[p.1..][..len];
      assert (b[p.1..] + rest)[len..] == b[p.1..][len..] + rest;
    }
  }

  // ---- Code --------------------------------------------------------------------------------------

  /** EncodeFixed32, by shifts; a wider value loses its high bits. */
  method EncodeFixed32(value: nat) returns (dst: Bytes)
    ensures dst == Fixed(4, value)
  {
    dst := [value % 256, value / 0x100 % 256, value / 0x1_0000 % 256, value / 0x100_0000 % 256];
    assert Fixed(2, value / 0x1_0000) == dst[2..];
    assert Fixed(3, value / 0x100) == dst[1..];
  }

  method DecodeFixed32(b: Bytes) returns (r: nat)
    requires |b| >= 4
    ensures r == FixedValue(b[..4]) && r < WORD
  {
    var b0: int, b1: int, b2: int, b3: int := b[0], b[1], b[2], b[3];
    r := b0 + b1 * 0x100 + b2 * 0x1_0000 + b3 * 0x100_0000;
    var w := b[..4];
    assert w[1..][1..] == w[2..] && w[2..][1..] == w[3..] && w[3..][1..] == [];
    assert FixedValue(w[3..]) == b3 && FixedValue(w[2..]) == b2 + 256 * b3;
    assert FixedValue(w[1..]) == b1 + 256 * FixedValue(w[2..]);
  }

  method DecodeFixed64(b: Bytes) returns (r: nat)
    requires |b| >= 8
    ensures r == FixedValue(b[..8]) && r < DWORD
  {
    var lo := DecodeFixed32(b);
    var hi := DecodeFixed32(b[4..]);
    assert b[4..][..4] == b[4..8] && b[..8] == b[..4] + b[4..8];
    FixedConcat(b[..4], b[4..8]);
    assert Pow256(2) == 0x1_0000 && Pow256(4) == WORD;
    r := hi * WORD + lo;
  }

  /** A number's bytes are the only ones that stand for it. */
  lemma {:induction false} FixedBytes(b: Bytes)
    ensures Fixed(|b|, FixedValue(b)) == b
  {
    if b != [] {
      FixedBytes(b[1..]);
      LowByte(b[0], FixedValue(b[1..]));
      assert b == [b[0]] + b[1..];
    }
  }

  lemma LowByte(low: byte, high: nat)
    ensures (low + 256 * high) % 256 == low && (low + 256 * high) / 256 == high
  {}

  lemma {:induction false} FixedConcat(a: Bytes, b: Bytes)
    ensures FixedValue(a + b) == FixedValue(a) + Pow256(|a|) * FixedValue(b)
  {
    if a == [] {
      assert a + b == b;
    } else {
      FixedConcat(a[1..], b);
      assert (a + b)[1..] == a[1..] + b;
      Distribute(FixedValue(a[1..]), Pow256(|a| - 1), FixedValue(b));
    }
  }

  lemma Distribute(x: nat, y: nat, z: nat)
    ensures 256 * (x + y * z) == 256 * x + (256 * y) * z
  {}

  lemma VarintStep(v: nat)
    ensures Varint(v) == if v < 128 then [v] else [v % 128 + 128] + Varint(v / 128)
  {}

  /** One branch per length. */
  method EncodeVarint32(v: nat) returns (dst: Bytes)
    requires v < WORD
    ensures dst == Varint(v)
  {
    VarintStep(v);
    VarintStep(v / 0x80);
    VarintStep(v / 0x4000);
    VarintStep(v / 0x20_0000);
    VarintStep(v / 0x1000_0000);
    hide Varint;
    if v < 0x80 {
      dst := [v];
    } else if v < 0x4000 {
      dst := [v % 128 + 128, v / 0x80];
    } else if v < 0x20_0000 {
      dst := [v % 128 + 128, v / 0x80 % 128 + 128, v / 0x4000];
    } else if v < 0x1000_0000 {
      dst := [v % 128 + 128, v / 0x80 % 128 + 128, v / 0x4000 % 128 + 128, v / 0x20_0000];
    } else {
      dst := [v % 128 + 128, v / 0x80 % 128 + 128, v / 0x4000 % 128 + 128, v / 0x20_0000 % 128 + 128, v / 0x1000_0000];
    }
  }

  method EncodeVarint64(value: nat) returns (dst: Bytes)
    ensures dst == Varint(value)
  {
    var v := value;
    dst := [];
    while v >= 128
      invariant dst + Varint(v) == Varint(value)
    {
      assert Varint(v) == [v % 128 + 128] + Varint(v / 128);
      dst := dst + [v % 128 + 128];
      v := v / 128;
    }
    dst := dst + [v];
  }

  /** VarintLength: the loop of EncodeVarint64 without the bytes. */
  method VarintLength(value: nat) returns (len: nat)
    ensures len == |Varint(value)|
  {
    var v := value;
    len := 1;
    while v >= 128
      invariant len - 1 + |Varint(v)| == |Varint(value)|
    {
      v := v / 128;
      len := len + 1;
    }
  }

  /** GetVarint32Ptr with its fallback loop (max 5, width 32 bits) and GetVarint64Ptr (max 10, width
      64 bits): shifts past the width drop the high bits. */
  method GetVarintPtr(b: Bytes, max: nat, width: nat) returns (r: Option<(nat, nat)>)
    requires width > 0 && Pow128(max) <= 128 * width
    ensures r == match VarintValue(b, max) case None => None case Some(p) => Some((p.0 % width, p.1))
  {
    var result: nat, i: nat, scale: nat := 0, 0, 1;
    while i < max && i < |b|
      invariant i <= max && i <= |b| && scale == Pow128(i) && result < scale
      invariant VarintValue(b, max) == Shifted(result, scale, i, VarintValue(b[i..], max - i))
    {
      var c: int := b[i];
      assert b[i..][0] == c && b[i..][1..] == b[i + 1..];
      i := i + 1;
      if c >= 128 {
        ShiftStep(result, scale, i - 1, c, VarintValue(b[i..], max - i));
        result, scale := AddDigit(result, c, scale);
      } else {
        return Some(((result + c * scale) % width, i));
      }
    }
    return None;
  }

  function Shifted(result: nat, scale: nat, i: nat, r: Option<(nat, nat)>): Option<(nat, nat)> {
    match r
    case None => None
    case Some(p) => Some((result + p.0 * scale, i + p.1))
  }

  lemma ShiftStep(result: nat, scale: nat, i: nat, c: byte, r: Option<(nat, nat)>)
    requires c >= 128
    ensures Shifted(result, scale, i, match r case None => None case Some(p) => Some((c - 128 + 128 * p.0, p.1 + 1)))
         == Shifted(result + (c - 128) * scale, scale * 128, i + 1, r)
  {
    if r.Some? {
      var x := r.value.0;
      assert (c - 128 + 128 * x) * scale == (c - 128) * scale + x * (scale * 128);
    }
  }

  method AddDigit(result: nat, c: nat, scale: nat) returns (r: nat, wider: nat)
    requires result < scale && 128 <= c < 256
    ensures r == result + (c - 128) * scale && wider == scale * 128 && r < wider
  {
    assert (c - 128) * scale <= 127 * scale;
    r := result + (c - 128) * scale;
    wider := scale * 128;
  }

  /** GetVarint32: the value and the rest of the input. */
  method GetVarint32(input: Bytes) returns (r: Option<(nat, Bytes)>)
    ensures r == match VarintValue(input, 5) case None => None case Some(p) => Some((p.0 % WORD, input[p.1..]))
  {
    if input != [] && input[0] < 128 {
      return Some((input[0], input[1..]));
    }
    Pow128Words();
    var q := GetVarintPtr(input, 5, WORD);
    r := match q case None => None case Some(p) => Some((p.0, input[p.1..]));
  }

  method GetVarint64(input: Bytes) returns (r: Option<(nat, Bytes)>)
    ensures r == match VarintValue(input, 10) case None => None case Some(p) => Some((p.0 % DWORD, input[p.1..]))
  {
    Pow128Words();
    var q := GetVarintPtr(input, 10, DWORD);
    r := match q case None => None case Some(p) => Some((p.0, input[p.1..]));
  }

  method PutLengthPrefixedSlice(dst: Bytes, value: Bytes) returns (r: Bytes)
    requires |value| < WORD
    ensures r == dst + Prefixed(value)
  {
    var len := EncodeVarint32(|value|);
    r := dst + len + value;
    assert r == dst + (len + value);
  }

  method GetLengthPrefixedSlice(input: Bytes) returns (r: Option<(Bytes, Bytes)>)
    ensures r == PrefixedValue(input)
  {
    var len := GetVarint32(input);
    if len.Some? && |len.value.1| >= len.value.0 {
      return Some((len.value.1[..len.value.0], len.value.1[len.value.0..]));
    }
    return None;
  }
}
