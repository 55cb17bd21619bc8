/**
 * Byte and word conversions: fixed-width endian encoders and decoders, in-place byte
 * mirroring, big-endian increment and complement of byte and word arrays, and the
 * two's-complement byte encoding of a BigInteger built from them.
 */
module ConversionUtils {
  import opened Errors
  import A = Arithmetic
  import B = BigIntegers

  type u8 = x: int | 0 <= x < 0x100
  type u32 = x: int | 0 <= x < 0x1_0000_0000
  type u64 = x: int | 0 <= x < 0x1_0000_0000_0000_0000

  const UINT_MAX: u32 := 0xFFFF_FFFF
  const ULONG_MAX: u64 := 0xFFFF_FFFF_FFFF_FFFF

  // ------------------------------------------------- Kotlin's unsigned operators

  /** UInt `shr`: the shift count is taken modulo 32. */
  function ShrUInt(x: u32, n: int): u32
  {
    A.DivIsSmaller(x, A.Pow2(n % 32));
    x / A.Pow2(n % 32)
  }

  /** ULong `shr`: the shift count is taken modulo 64. */
  function ShrULong(x: u64, n: int): u64
  {
    A.DivIsSmaller(x, A.Pow2(n % 64));
    x / A.Pow2(n % 64)
  }

  /** UInt `shl`: the count modulo 32, the bits shifted out of the word are lost. */
  function ShlUInt(x: u32, n: int): u32
  {
    (x * A.Pow2(n % 32)) % 0x1_0000_0000
  }

  /** ULong `shl`: the count modulo 64, the bits shifted out of the word are lost. */
  function ShlULong(x: u64, n: int): u64
  {
    (x * A.Pow2(n % 64)) % 0x1_0000_0000_0000_0000
  }

  // ------------------------------------------------------- positional values

  /** The digits of s, most significant first, read in the given radix. */
  function BE(s: seq<int>, radix: int): int
  {
    if |s| == 0 then 0 else BE(s[..|s| - 1], radix) * radix + s[|s| - 1]
  }

  /** The digits of s, least significant first, read in the given radix. */
  function LE(s: seq<int>, radix: nat): int
  {
    if |s| == 0 then 0 else LE(s[..|s| - 1], radix) + s[|s| - 1] * A.Pow(radix, |s| - 1)
  }

  /** Every element of s is a digit of the radix. */
  predicate IsDigits(s: seq<int>, radix: int)
  {
    forall i :: 0 <= i < |s| ==> 0 <= s[i] < radix
  }

  lemma {:induction false} BEBounds(s: seq<int>, radix: nat)
    requires radix >= 2 && IsDigits(s, radix)
    ensures 0 <= BE(s, radix) < A.Pow(radix, |s|)
  {
    if |s| > 0 {
      BEBounds(s[..|s| - 1], radix);
      assert A.Pow(radix, |s[..|s| - 1]|) == A.Pow(radix, |s| - 1);
      DigitStep(BE(s[..|s| - 1], radix), s[|s| - 1], radix, A.Pow(radix, |s| - 1));
    }
  }

  /** One more digit below the radix keeps a value below radix^n below radix^(n+1). */
  lemma DigitStep(x: int, d: int, radix: int, p: int)
    requires 0 <= x < p && 0 <= d < radix
    ensures 0 <= x * radix + d < radix * p
  {
    A.MulLeft(radix, x, p - 1);
    A.MulLeft(x, 0, radix);
  }

  lemma {:induction false} LEBounds(s: seq<int>, radix: nat)
    requires radix >= 2 && IsDigits(s, radix)
    ensures 0 <= LE(s, radix) < A.Pow(radix, |s|)
  {
    if |s| > 0 {
      var n := |s| - 1;
      var p := A.Pow(radix, n);
      LEBounds(s[..n], radix);
      assert LE(s, radix) == LE(s[..n], radix) + s[n] * p;
      assert 0 <= s[n] * p <= (radix - 1) * p by {
        A.MulLeft(p, s[n], radix - 1);
        A.MulLeft(p, 0, s[n]);
      }
      assert (radix - 1) * p + p == radix * p == A.Pow(radix, |s|);
    }
  }

  /** The last big-endian digit is the value modulo the radix, the rest is the quotient. */
  lemma BELast(s: seq<int>, radix: nat)
    requires radix >= 2 && IsDigits(s, radix) && |s| > 0
    ensures BE(s, radix) % radix == s[|s| - 1]
    ensures BE(s, radix) / radix == BE(s[..|s| - 1], radix)
  {
    var n := |s| - 1;
    BEBounds(s[..n], radix);
    assert BE(s, radix) == radix * BE(s[..n], radix) + s[n];
    A.ModUnique(BE(s, radix), radix, BE(s[..n], radix), s[n]);
  }

  /** The last little-endian digit is the quotient by radix^(n-1), the rest the remainder. */
  lemma LELast(s: seq<int>, radix: nat)
    requires radix >= 2 && IsDigits(s, radix) && |s| > 0
    ensures LE(s, radix) / A.Pow(radix, |s| - 1) == s[|s| - 1]
    ensures LE(s, radix) % A.Pow(radix, |s| - 1) == LE(s[..|s| - 1], radix)
  {
    var n := |s| - 1;
    var p := A.Pow(radix, n);
    LEBounds(s[..n], radix);
    assert LE(s, radix) == p * s[n] + LE(s[..n], radix);
    A.ModUnique(LE(s, radix), p, s[n], LE(s[..n], radix));
  }

  /** Big-endian digits of a given length determine their value and vice versa. */
  lemma {:induction false} BEInjective(a: seq<int>, b: seq<int>, radix: nat)
    requires radix >= 2 && IsDigits(a, radix) && IsDigits(b, radix)
    requires |a| == |b| && BE(a, radix) == BE(b, radix)
    ensures a == b
  {
    if |a| > 0 {
      var n := |a| - 1;
      BELast(a, radix);
      BELast(b, radix);
      BEInjective(a[..n], b[..n], radix);
      assert a == a[..n] + [a[n]] && b == b[..n] + [b[n]];
    }
  }

  lemma {:induction false} LEInjective(a: seq<int>, b: seq<int>, radix: nat)
    requires radix >= 2 && IsDigits(a, radix) && IsDigits(b, radix)
    requires |a| == |b| && LE(a, radix) == LE(b, radix)
    ensures a == b
  {
    if |a| > 0 {
      var n := |a| - 1;
      LELast(a, radix);
      LELast(b, radix);
      LEInjective(a[..n], b[..n], radix);
      assert a == a[..n] + [a[n]] && b == b[..n] + [b[n]];
    }
  }

  /** 2^(8k) is 256^k. */
  lemma {:induction false} Pow2Bytes(k: nat)
    ensures A.Pow2(8 * k) == A.Pow(256, k)
  {
    if k > 0 {
      Pow2Bytes(k - 1);
      A.Pow2Of8();
      A.Pow2Add(8 * (k - 1), 8);
    }
  }

  /** Bytes taken as (x >> 8(n-1-i)) & 0xFF spell x modulo 256^n, most significant first. */
  lemma {:induction false} BigEndianBytes(x: nat, r: seq<int>)
    requires forall i :: 0 <= i < |r| ==> r[i] == (x / A.Pow2(8 * (|r| - 1 - i))) % 0x100
    ensures BE(r, 256) == x % A.Pow(256, |r|)
  {
    if |r| > 0 {
      var n := |r| - 1;
      var p := r[..n];
      forall i | 0 <= i < n
        ensures p[i] == ((x / 256) / A.Pow2(8 * (n - 1 - i))) % 0x100
      {
        A.Pow2Of8();
        A.Pow2Add(8 * (n - 1 - i), 8);
        A.DivDiv(x, 256, A.Pow2(8 * (n - 1 - i)));
        assert 8 * (n - 1 - i) + 8 == 8 * (|r| - 1 - i);
      }
      BigEndianBytes(x / 256, p);
      assert r[n] == x % 256;
      A.ModMul(x, 256, A.Pow(256, n));
    }
  }

  /** Bytes taken as (x >> 8i) & 0xFF spell x modulo 256^n, least significant first. */
  lemma {:induction false} LittleEndianBytes(x: nat, r: seq<int>)
    requires forall i :: 0 <= i < |r| ==> r[i] == (x / A.Pow2(8 * i)) % 0x100
    ensures LE(r, 256) == x % A.Pow(256, |r|)
  {
    if |r| > 0 {
      var n := |r| - 1;
      LittleEndianBytes(x, r[..n]);
      Pow2Bytes(n);
      A.ModMul(x, A.Pow(256, n), 256);
    }
  }

  // ------------------------------------------------------------ encoders

  /** A whole word of n bytes, spelt big-endian, reads back as the word. */
  lemma BigEndianWord(x: nat, r: seq<int>)
    requires forall i :: 0 <= i < |r| ==> r[i] == (x / A.Pow2(8 * (|r| - 1 - i))) % 0x100
    requires x < A.Pow2(8 * |r|)
    ensures BE(r, 256) == x
  {
    BigEndianBytes(x, r);
    Pow2Bytes(|r|);
    A.ModUnique(x, A.Pow(256, |r|), 0, x);
  }

  /** A whole word of n bytes, spelt little-endian, reads back as the word. */
  lemma LittleEndianWord(x: nat, r: seq<int>)
    requires forall i :: 0 <= i < |r| ==> r[i] == (x / A.Pow2(8 * i)) % 0x100
    requires x < A.Pow2(8 * |r|)
    ensures LE(r, 256) == x
  {
    LittleEndianBytes(x, r);
    Pow2Bytes(|r|);
    A.ModUnique(x, A.Pow(256, |r|), 0, x);
  }

  /** UInt.toBigEndianUByteArray: byte i is (x shr (24 - 8i)) and 0xFF. */
  function UIntToBigEndian(x: u32): (r: seq<u8>)
    ensures |r| == 4
    ensures BE(r, 256) == x
  {
    var r := seq(4, i requires 0 <= i < 4 => ShrUInt(x, 24 - i * 8) % 0x100);
    UIntToBigEndianValue(x, r);
    r
  }

  lemma UIntToBigEndianValue(x: u32, r: seq<int>)
    requires |r| == 4 && forall i :: 0 <= i < 4 ==> r[i] == ShrUInt(x, 24 - i * 8) % 0x100
    ensures BE(r, 256) == x
  {
    forall i | 0 <= i < 4
      ensures r[i] == (x / A.Pow2(8 * (|r| - 1 - i))) % 0x100
    {
      A.ModUnique(24 - i * 8, 32, 0, 24 - i * 8);
    }
    A.Pow2Of32();
    BigEndianWord(x, r);
  }

  /** UInt.toLittleEndianUByteArray: byte i is (x shr (8i)) and 0xFF. */
  function UIntToLittleEndian(x: u32): (r: seq<u8>)
    ensures |r| == 4
    ensures LE(r, 256) == x
  {
    var r := seq(4, i requires 0 <= i < 4 => ShrUInt(x, i * 8) % 0x100);
    UIntToLittleEndianValue(x, r);
    r
  }

  lemma UIntToLittleEndianValue(x: u32, r: seq<int>)
    requires |r| == 4 && forall i :: 0 <= i < 4 ==> r[i] == ShrUInt(x, i * 8) % 0x100
    ensures LE(r, 256) == x
  {
    forall i | 0 <= i < 4
      ensures r[i] == (x / A.Pow2(8 * i)) % 0x100
    {
      A.ModUnique(i * 8, 32, 0, i * 8);
    }
    A.Pow2Of32();
    LittleEndianWord(x, r);
  }

  /** ULong.toBigEndianUByteArray: byte i is (x shr (56 - 8i)) and 0xFF. */
  function ULongToBigEndian(x: u64): (r: seq<u8>)
    ensures |r| == 8
    ensures BE(r, 256) == x
  {
    var r := seq(8, i requires 0 <= i < 8 => ShrULong(x, 56 - i * 8) % 0x100);
    ULongToBigEndianValue(x, r);
    r
  }

  lemma ULongToBigEndianValue(x: u64, r: seq<int>)
    requires |r| == 8 && forall i :: 0 <= i < 8 ==> r[i] == ShrULong(x, 56 - i * 8) % 0x100
    ensures BE(r, 256) == x
  {
    forall i | 0 <= i < 8
      ensures r[i] == (x / A.Pow2(8 * (|r| - 1 - i))) % 0x100
    {
      A.ModUnique(56 - i * 8, 64, 0, 56 - i * 8);
    }
    A.Pow2Of64();
    BigEndianWord(x, r);
  }

  /** ULong.toLittleEndianUByteArray: byte i is (x shr (8i)) and 0xFF. */
  function ULongToLittleEndian(x: u64): (r: seq<u8>)
    ensures |r| == 8
    ensures LE(r, 256) == x
  {
    var r := seq(8, i requires 0 <= i < 8 => ShrULong(x, i * 8) % 0x100);
    ULongToLittleEndianValue(x, r);
    r
  }

  lemma ULongToLittleEndianValue(x: u64, r: seq<int>)
    requires |r| == 8 && forall i :: 0 <= i < 8 ==> r[i] == ShrULong(x, i * 8) % 0x100
    ensures LE(r, 256) == x
  {
    forall i | 0 <= i < 8
      ensures r[i] == (x / A.Pow2(8 * i)) % 0x100
    {
      A.ModUnique(i * 8, 64, 0, i * 8);
    }
    A.Pow2Of64();
    LittleEndianWord(x, r);
  }

  // ------------------------------------------------------------ decoders

  /** The foldIndexed of fromBigEndianArrayToULong: byte i is or-ed in at bit 56 - 8i. */
  function FoldBigEndian(s: seq<u8>): nat
    requires |s| <= 8
  {
    if |s| == 0 then 0
    else A.BitOr(FoldBigEndian(s[..|s| - 1]), ShlULong(s[|s| - 1], 56 - (|s| - 1) * 8))
  }

  /** The foldIndexed of fromLittleEndianArrayToULong: byte i is or-ed in at bit 8i. */
  function FoldLittleEndian(s: seq<u8>): nat
    requires |s| <= 8
  {
    if |s| == 0 then 0
    else A.BitOr(FoldLittleEndian(s[..|s| - 1]), ShlULong(s[|s| - 1], (|s| - 1) * 8))
  }

  /** A byte shifted left by at most 56 places stays inside the word. */
  lemma ShlByte(b: u8, k: nat)
    requires k <= 56
    ensures ShlULong(b, k) == b * A.Pow2(k) < A.Pow2(k + 8)
  {
    var p := A.Pow2(k);
    assert k % 64 == k by {
      A.ModUnique(k, 64, 0, k);
    }
    assert b * p < A.Pow2(k + 8) by {
      A.Pow2Of8();
      A.Pow2Add(k, 8);
      A.MulLeft(p, b, 255);
    }
    assert A.Pow2(k + 8) <= 0x1_0000_0000_0000_0000 by {
      A.Pow2Monotone(k + 8, 64);
      A.Pow2Of64();
    }
    A.ModUnique(b * p, 0x1_0000_0000_0000_0000, 0, b * p);
  }

  /** One step of the big-endian fold: a byte or-ed in below the bytes already placed. */
  lemma FoldBigEndianStep(c: nat, b: u8, k: nat)
    requires k <= 56
    ensures A.BitOr(c * A.Pow2(k + 8), ShlULong(b, k)) == (c * 256 + b) * A.Pow2(k)
  {
    var p := A.Pow2(k);
    assert A.Pow2(k + 8) == 256 * p by {
      A.Pow2Add(k, 8);
      A.Pow2Of8();
    }
    ShlByte(b, k);
    A.BitOrDisjoint(c, b * p, k + 8);
    AppendDigit(c, b, p);
  }

  lemma AppendDigit(c: int, b: int, p: int)
    ensures c * (256 * p) + b * p == (c * 256 + b) * p
  {
    assert c * (256 * p) == (c * 256) * p;
    assert (c * 256 + b) * p == (c * 256) * p + b * p;
  }

  /** The bytes land left-aligned: a short input fills the high bytes of the word. */
  lemma {:induction false} FoldBigEndianValue(s: seq<u8>)
    requires |s| <= 8
    ensures FoldBigEndian(s) == BE(s, 256) * A.Pow2(8 * (8 - |s|))
  {
    if |s| > 0 {
      FoldBigEndianValue(s[..|s| - 1]);
      FoldBigEndianSnoc(s);
    }
  }

  /** The step of FoldBigEndianValue: one more byte, given the value of the shorter fold. */
  lemma FoldBigEndianSnoc(s: seq<u8>)
    requires 0 < |s| <= 8
    requires FoldBigEndian(s[..|s| - 1]) == BE(s[..|s| - 1], 256) * A.Pow2(8 * (8 - (|s| - 1)))
    ensures FoldBigEndian(s) == BE(s, 256) * A.Pow2(8 * (8 - |s|))
  {
    var n := |s| - 1;
    var k := 56 - n * 8;
    var c, b := BE(s[..n], 256), s[n];
    assert c >= 0 by {
      BEBounds(s[..n], 256);
    }
    var f, fs := FoldBigEndian(s[..n]), FoldBigEndian(s);
    assert fs == A.BitOr(f, ShlULong(b, k)) by {
      assert 56 - (|s| - 1) * 8 == k;
    }
    assert f == c * A.Pow2(k + 8) by {
      assert 8 * (8 - (|s| - 1)) == k + 8;
    }
    assert BE(s, 256) == c * 256 + b;
    FoldSnocValue(f, fs, c, b, k, BE(s, 256));
    assert 8 * (8 - |s|) == k;
  }

  /** The arithmetic of FoldBigEndianSnoc, over plain numbers. */
  lemma FoldSnocValue(f: nat, fs: nat, c: nat, b: u8, k: nat, value: int)
    requires k <= 56 && f == c * A.Pow2(k + 8) && fs == A.BitOr(f, ShlULong(b, k))
    requires value == c * 256 + b
    ensures fs == value * A.Pow2(k)
  {
    FoldBigEndianStep(c, b, k);
  }

  lemma {:induction false} FoldLittleEndianValue(s: seq<u8>)
    requires |s| <= 8
    ensures FoldLittleEndian(s) == LE(s, 256)
  {
    if |s| > 0 {
      var n := |s| - 1;
      FoldLittleEndianValue(s[..n]);
      ShlByte(s[n], n * 8);
      LEBounds(s[..n], 256);
      Pow2Bytes(n);
      assert n * 8 == 8 * n;
      A.BitOrCommutes(LE(s[..n], 256), s[n] * A.Pow2(n * 8));
      A.BitOrDisjoint(s[n], LE(s[..n], 256), n * 8);
    }
  }

  lemma FoldBigEndianBound(s: seq<u8>)
    requires |s| <= 8
    ensures FoldBigEndian(s) < 0x1_0000_0000_0000_0000
  {
    var v, p := BE(s, 256), A.Pow2(8 * (8 - |s|));
    FoldBigEndianValue(s);
    BEBounds(s, 256);
    assert v < A.Pow2(8 * |s|) by {
      Pow2Bytes(|s|);
    }
    assert A.Pow2(8 * |s|) * p == 0x1_0000_0000_0000_0000 by {
      A.Pow2Add(8 * |s|, 8 * (8 - |s|));
      A.Pow2Of64();
    }
    A.MulBelow(v, A.Pow2(8 * |s|), p);
  }

  /** fromBigEndianArrayToULong. */
  function FromBigEndianArrayToULong(s: seq<u8>): (r: Result<u64>)
    ensures r.Err? <==> |s| > 8
    ensures r.Err? ==> r.error == Overflow
    ensures r.Ok? ==> r.value == BE(s, 256) * A.Pow2(8 * (8 - |s|))
  {
    if |s| > 8 then Err(Overflow)
    else
      FoldBigEndianValue(s);
      FoldBigEndianBound(s);
      Ok(FoldBigEndian(s))
  }

  /** fromLittleEndianArrayToULong. */
  function FromLittleEndianArrayToULong(s: seq<u8>): (r: Result<u64>)
    ensures r.Err? <==> |s| > 8
    ensures r.Err? ==> r.error == Overflow
    ensures r.Ok? ==> r.value == LE(s, 256)
  {
    if |s| > 8 then Err(Overflow)
    else
      FoldLittleEndianValue(s);
      LEBounds(s, 256);
      A.Pow2Of64();
      Pow2Bytes(8);
      Pow2Bytes(|s|);
      A.Pow2Monotone(8 * |s|, 64);
      Ok(FoldLittleEndian(s))
  }

  lemma BigEndianRoundTrip(x: u64)
    ensures FromBigEndianArrayToULong(ULongToBigEndian(x)) == Ok(x)
  {
  }

  lemma LittleEndianRoundTrip(x: u64)
    ensures FromLittleEndianArrayToULong(ULongToLittleEndian(x)) == Ok(x)
  {
  }

  /** Eight bytes decode to the word whose encoding they are. */
  lemma BigEndianBytesRoundTrip(s: seq<u8>)
    requires |s| == 8
    ensures FromBigEndianArrayToULong(s).Ok?
    ensures ULongToBigEndian(FromBigEndianArrayToULong(s).value) == s
  {
    var x := FromBigEndianArrayToULong(s).value;
    BEInjective(ULongToBigEndian(x), s, 256);
  }

  lemma LittleEndianBytesRoundTrip(s: seq<u8>)
    requires |s| == 8
    ensures FromLittleEndianArrayToULong(s).Ok?
    ensures ULongToLittleEndian(FromLittleEndianArrayToULong(s).value) == s
  {
    var x := FromLittleEndianArrayToULong(s).value;
    LEInjective(ULongToLittleEndian(x), s, 256);
  }

  // --------------------------------------------------------------- mirroring

  function Reverse(s: seq<u8>): (r: seq<u8>)
    ensures |r| == |s|
    ensures forall i :: 0 <= i < |s| ==> r[i] == s[|s| - 1 - i]
  {
    if |s| == 0 then [] else [s[|s| - 1]] + Reverse(s[..|s| - 1])
  }

  lemma ReverseInvolution(s: seq<u8>)
    ensures Reverse(Reverse(s)) == s
  {
  }

  /** The target after mirrorBytes: the range at targetStart replaced by the reversed source range. */
  function Mirrored(target: seq<u8>, targetStart: nat, range: seq<u8>): (r: seq<u8>)
    requires targetStart + |range| <= |target|
    ensures |r| == |target|
    ensures r[targetStart..targetStart + |range|] == Reverse(range)
  {
    var r := target[..targetStart] + Reverse(range) + target[targetStart + |range|..];
    assert r[targetStart..targetStart + |range|] == Reverse(range);
    r
  }

  /**
   * mirrorBytes(source, start, end, target, targetStart): copies source[start..end) into
   * target from targetStart on, last byte first; end is exclusive.
   */
  method MirrorBytes(source: array<u8>, start: int, end: int, target: array<u8>, targetStart: int)
    requires source != target
    requires end - start > 0 ==>
      0 <= start && end <= source.Length && 0 <= targetStart && targetStart + (end - start) <= target.Length
    modifies target
    ensures end - start <= 0 ==> target[..] == old(target[..])
    ensures end - start > 0 ==> target[..] == Mirrored(old(target[..]), targetStart, source[start..end])
  {
    var length := end - start;
    if length <= 0 {
      return;
    }
    var stop := targetStart + length;
    ghost var range := source[start..end];
    for i := 0 to length
      invariant target[..stop - i] == old(target[..stop - i])
      invariant target[stop..] == old(target[stop..])
      invariant forall j :: stop - i <= j < stop ==> target[j] == range[stop - 1 - j]
    {
      target[stop - i - 1] := source[start + i];
    }
    MirroredFromParts(old(target[..]), target[..], targetStart, range);
  }

  /** A target that kept its bytes outside the range and holds the range reversed inside it. */
  lemma MirroredFromParts(before: seq<u8>, after: seq<u8>, targetStart: nat, range: seq<u8>)
    requires |after| == |before| && targetStart + |range| <= |before|
    requires after[..targetStart] == before[..targetStart]
    requires after[targetStart + |range|..] == before[targetStart + |range|..]
    requires forall j :: targetStart <= j < targetStart + |range| ==> after[j] == range[targetStart + |range| - 1 - j]
    ensures after == Mirrored(before, targetStart, range)
  {
    var m := Mirrored(before, targetStart, range);
    var stop := targetStart + |range|;
    forall j | 0 <= j < |after|
      ensures after[j] == m[j]
    {
      if j < targetStart {
        assert after[j] == after[..targetStart][j];
      } else if j >= stop {
        assert after[j] == after[stop..][j - stop];
      } else {
        assert m[j] == Reverse(range)[j - targetStart];
      }
    }
  }

  // --------------------------------------------------------------- increment

  /** indexOfLast { it < bound }: the last position below bound, or -1 when there is none. */
  function IndexOfLastBelow(s: seq<int>, bound: int): (r: int)
    ensures -1 <= r < |s|
    ensures r >= 0 ==> s[r] < bound
    ensures forall j :: r < j < |s| ==> s[j] >= bound
  {
    if |s| == 0 then -1
    else if s[|s| - 1] < bound then |s| - 1
    else IndexOfLastBelow(s[..|s| - 1], bound)
  }

  function Zeros(n: nat): (r: seq<int>)
    ensures |r| == n
  {
    seq(n, _ => 0)
  }

  lemma {:induction false} BEConcat(a: seq<int>, b: seq<int>, radix: nat)
    ensures BE(a + b, radix) == BE(a, radix) * A.Pow(radix, |b|) + BE(b, radix)
  {
    if |b| > 0 {
      var n := |b| - 1;
      assert (a + b)[..|a + b| - 1] == a + b[..n];
      assert (a + b)[|a + b| - 1] == b[n];
      BEConcat(a, b[..n], radix);
      var p, x, y := A.Pow(radix, n), BE(a, radix), BE(b[..n], radix);
      assert BE(a + b, radix) == (x * p + y) * radix + b[n];
      assert A.Pow(radix, |b|) == radix * p;
      assert (x * p + y) * radix + b[n] == x * (radix * p) + (y * radix + b[n]);
    } else {
      assert a + b == a;
    }
  }

  lemma {:induction false} BEOfZeros(n: nat, radix: nat)
    ensures BE(Zeros(n), radix) == 0
  {
    if n > 0 {
      assert Zeros(n)[..n - 1] == Zeros(n - 1);
      BEOfZeros(n - 1, radix);
    }
  }

  /** A run of the top digit reads as radix^n - 1. */
  lemma {:induction false} BEOfTopDigits(s: seq<int>, radix: nat)
    requires forall j :: 0 <= j < |s| ==> s[j] == radix - 1
    ensures BE(s, radix) == A.Pow(radix, |s|) - 1
  {
    if |s| > 0 {
      BEOfTopDigits(s[..|s| - 1], radix);
    }
  }

  /** The big-endian increment the code aims at: trailing top digits roll over to zero. */
  function IncrementCorrected(s: seq<int>, radix: nat): (r: seq<int>)
    requires radix >= 2 && IsDigits(s, radix)
    ensures IsDigits(r, radix)
    ensures BE(r, radix) == BE(s, radix) + 1
    ensures |r| == if IndexOfLastBelow(s, radix - 1) == -1 then |s| + 1 else |s|
  {
    var k := IndexOfLastBelow(s, radix - 1);
    if k != -1 then
      var r := s[..k] + [s[k] + 1] + Zeros(|s| - k - 1);
      IncrementCorrectedValue(s, radix, k);
      r
    else
      BEOfTopDigits(s, radix);
      BEConcat([1], Zeros(|s|), radix);
      BEOfZeros(|s|, radix);
      [1] + Zeros(|s|)
  }

  lemma IncrementCorrectedValue(s: seq<int>, radix: nat, k: nat)
    requires radix >= 2 && k < |s|
    requires forall j :: k < j < |s| ==> s[j] == radix - 1
    ensures BE(s[..k] + [s[k] + 1] + Zeros(|s| - k - 1), radix) == BE(s, radix) + 1
  {
    TopDigitsTail(s, radix, k);
    BumpedHead(s, radix, k);
    SuccTimes(BE(s[..k + 1], radix), A.Pow(radix, |s| - k - 1));
  }

  /** s read as its first k + 1 digits followed by a run of top digits. */
  lemma TopDigitsTail(s: seq<int>, radix: nat, k: nat)
    requires k < |s|
    requires forall j :: k < j < |s| ==> s[j] == radix - 1
    ensures BE(s, radix) == BE(s[..k + 1], radix) * A.Pow(radix, |s| - k - 1) + (A.Pow(radix, |s| - k - 1) - 1)
  {
    assert s == s[..k + 1] + s[k + 1..];
    BEConcat(s[..k + 1], s[k + 1..], radix);
    BEOfTopDigits(s[k + 1..], radix);
  }

  /** The bumped prefix followed by zeros. */
  lemma BumpedHead(s: seq<int>, radix: nat, k: nat)
    requires k < |s|
    ensures BE(s[..k] + [s[k] + 1] + Zeros(|s| - k - 1), radix) == (BE(s[..k + 1], radix) + 1) * A.Pow(radix, |s| - k - 1)
  {
    var bumped := s[..k] + [s[k] + 1];
    assert bumped[..k] == s[..k] && s[..k + 1][..k] == s[..k];
    assert BE(bumped, radix) == BE(s[..k + 1], radix) + 1;
    BEConcat(bumped, Zeros(|s| - k - 1), radix);
    BEOfZeros(|s| - k - 1, radix);
  }

  lemma SuccTimes(c: int, p: int)
    ensures (c + 1) * p == c * p + (p - 1) + 1
  {
  }

  /** increment(UByteArray), as a function of the input's contents. */
  function IncrementBytesSpec(s: seq<u8>): (r: seq<u8>)
  {
    var k := IndexOfLastBelow(s, 0xFF);
    if k != -1 then s[..k] + [s[k] + 1] + seq(|s| - k - 1, _ => 0) else [1] + s
  }

  /** When some byte is below 0xFF, increment(UByteArray) is the numeric increment. */
  lemma IncrementBytesWithRoom(s: seq<u8>)
    requires IndexOfLastBelow(s, 0xFF) != -1
    ensures IncrementBytesSpec(s) == IncrementCorrected(s, 256)
    ensures |IncrementBytesSpec(s)| == |s|
    ensures BE(IncrementBytesSpec(s), 256) == BE(s, 256) + 1
  {
  }

  /** With every byte 0xFF it prepends a 1 and keeps the 0xFF bytes. */
  lemma IncrementBytesSaturated(s: seq<u8>)
    requires IndexOfLastBelow(s, 0xFF) == -1
    ensures IncrementBytesSpec(s) == [1] + s
    ensures BE(IncrementBytesSpec(s), 256) == 2 * A.Pow(256, |s|) - 1
    ensures |s| > 0 ==> BE(IncrementBytesSpec(s), 256) != BE(s, 256) + 1
  {
    var p := A.Pow(256, |s|);
    var r := IncrementBytesSpec(s);
    assert r == [1] + s;
    assert BE(s, 256) == p - 1 by {
      assert forall j :: 0 <= j < |s| ==> s[j] == 0xFF;
      BEOfTopDigits(s, 256);
    }
    PrependOne(s);
    if |s| > 0 {
      assert p >= 256 by {
        A.PowPositive(256, |s| - 1);
        assert p == 256 * A.Pow(256, |s| - 1);
      }
    }
  }

  /** A leading 1 adds radix^n to the value of n digits. */
  lemma PrependOne(s: seq<int>)
    ensures BE([1] + s, 256) == A.Pow(256, |s|) + BE(s, 256)
  {
    var one, p := BE([1], 256), A.Pow(256, |s|);
    assert one == 1 by {
      assert [1][..0] == [];
    }
    BEConcat([1], s, 256);
    MulSame(one, p, 1, p);
  }

  lemma IncrementBytesCounterexample()
    ensures IncrementBytesSpec([0xFF]) == [1, 0xFF]
    ensures IncrementCorrected([0xFF], 256) == [1, 0]
  {
    assert IndexOfLastBelow([0xFF], 0xFF) == -1 by {
      assert [0xFF][..0] == [];
    }
  }

  /**
   * increment(UByteArray): copies the array, clears the bytes after the last byte below
   * 0xFF and bumps that byte; with no such byte it returns [1] followed by the input.
   */
  method IncrementBytes(byteString: array<u8>) returns (r: array<u8>)
    ensures fresh(r)
    ensures r[..] == IncrementBytesSpec(byteString[..])
  {
    var n := byteString.Length;
    var k := IndexOfLastBelow(byteString[..], 0xFF);
    if k != -1 {
      var copy := new u8[n](i reads byteString => if 0 <= i < n then byteString[i] else 0);
      for i := n downto k + 1
        invariant forall j :: 0 <= j < i ==> copy[j] == byteString[j]
        invariant forall j :: i <= j < n ==> copy[j] == 0
      {
        copy[i] := 0;
      }
      copy[k] := copy[k] + 1;
      assert copy[..] == IncrementBytesSpec(byteString[..]);
      r := copy;
    } else {
      r := new u8[n + 1](i reads byteString => if i == 0 then 1 else if 0 < i <= n then byteString[i - 1] else 0);
      assert r[..] == [1] + byteString[..];
    }
  }

  /** increment(UIntArray) and increment(ULongArray): bump the last word below max, nothing else. */
  function IncrementWordsSpec(s: seq<int>, max: int): (r: seq<int>)
  {
    var k := IndexOfLastBelow(s, max);
    if k != -1 then s[k := s[k] + 1] else [1] + s
  }

  /** Adding d to digit k adds d * radix^(positions after k). */
  lemma {:induction false} BEBump(s: seq<int>, k: nat, d: int, radix: nat)
    requires k < |s|
    ensures BE(s[k := s[k] + d], radix) == BE(s, radix) + d * A.Pow(radix, |s| - 1 - k)
  {
    var n := |s| - 1;
    var t := s[k := s[k] + d];
    if k < n {
      assert t[..n] == s[..n][k := s[k] + d];
      BEBump(s[..n], k, d, radix);
      assert BE(t, radix) == (BE(s[..n], radix) + d * A.Pow(radix, n - 1 - k)) * radix + s[n];
      assert A.Pow(radix, |s| - 1 - k) == radix * A.Pow(radix, n - 1 - k);
      BumpArith(BE(s[..n], radix), d, A.Pow(radix, n - 1 - k), radix, s[n]);
    } else {
      assert t[..n] == s[..n];
    }
  }

  lemma BumpArith(x: int, d: int, p: int, radix: int, last: int)
    ensures (x + d * p) * radix + last == (x * radix + last) + d * (radix * p)
  {
  }

  /**
   * The word increment is the numeric increment only when the word it bumps is the last one;
   * trailing saturated words are left in place.
   */
  lemma IncrementWordsValue(s: seq<int>, radix: nat)
    requires radix >= 2 && IsDigits(s, radix)
    ensures var k := IndexOfLastBelow(s, radix - 1);
      k != -1 ==> (|IncrementWordsSpec(s, radix - 1)| == |s| &&
        BE(IncrementWordsSpec(s, radix - 1), radix) == BE(s, radix) + A.Pow(radix, |s| - 1 - k))
    ensures var k := IndexOfLastBelow(s, radix - 1);
      k != -1 ==> (IncrementWordsSpec(s, radix - 1) == IncrementCorrected(s, radix) <==> k == |s| - 1)
  {
    var k := IndexOfLastBelow(s, radix - 1);
    if k != -1 {
      BEBump(s, k, 1, radix);
      if k < |s| - 1 {
        A.PowPositive(radix, |s| - 2 - k);
        assert A.Pow(radix, |s| - 1 - k) == radix * A.Pow(radix, |s| - 2 - k);
        A.MulAtLeast(radix, A.Pow(radix, |s| - 2 - k));
      } else {
        assert s[..k] + [s[k] + 1] + Zeros(0) == s[k := s[k] + 1];
      }
    }
  }

  lemma IncrementWordsCounterexample()
    ensures IncrementWordsSpec([0, UINT_MAX], UINT_MAX) == [1, UINT_MAX]
    ensures IncrementCorrected([0, UINT_MAX], UINT_MAX + 1) == [1, 0]
  {
    assert IndexOfLastBelow([0, UINT_MAX], UINT_MAX) == 0 by {
      assert [0, UINT_MAX][..1] == [0];
    }
  }

  method IncrementUInts(words: array<u32>) returns (r: array<u32>)
    ensures fresh(r)
    ensures r[..] == IncrementWordsSpec(words[..], UINT_MAX)
  {
    var n := words.Length;
    var k := IndexOfLastBelow(words[..], UINT_MAX);
    if k != -1 {
      var copy := new u32[n](i reads words => if 0 <= i < n then words[i] else 0);
      copy[k] := copy[k] + 1;
      assert copy[..] == words[..][k := words[k] + 1];
      r := copy;
    } else {
      r := new u32[n + 1](i reads words => if i == 0 then 1 else if 0 < i <= n then words[i - 1] else 0);
      assert r[..] == [1] + words[..];
    }
  }

  method IncrementULongs(words: array<u64>) returns (r: array<u64>)
    ensures fresh(r)
    ensures r[..] == IncrementWordsSpec(words[..], ULONG_MAX)
  {
    var n := words.Length;
    var k := IndexOfLastBelow(words[..], ULONG_MAX);
    if k != -1 {
      var copy := new u64[n](i reads words => if 0 <= i < n then words[i] else 0);
      copy[k] := copy[k] + 1;
      assert copy[..] == words[..][k := words[k] + 1];
      r := copy;
    } else {
      r := new u64[n + 1](i reads words => if i == 0 then 1 else if 0 < i <= n then words[i - 1] else 0);
      assert r[..] == [1] + words[..];
    }
  }

  // ------------------------------------------------------------------ invert

  /** invert(UByteArray): every byte complemented. */
  function InvertBytes(s: seq<u8>): (r: seq<u8>)
    ensures |r| == |s|
  {
    seq(|s|, i requires 0 <= i < |s| => 0xFF - s[i])
  }

  lemma InvertBytesInvolution(s: seq<u8>)
    ensures InvertBytes(InvertBytes(s)) == s
  {
  }

  /** The complemented bytes read as 256^n - 1 minus the original value. */
  lemma {:induction false} InvertBytesValue(s: seq<u8>)
    ensures BE(InvertBytes(s), 256) == A.Pow(256, |s|) - 1 - BE(s, 256)
  {
    if |s| > 0 {
      var n := |s| - 1;
      assert InvertBytes(s)[..n] == InvertBytes(s[..n]);
      InvertBytesValue(s[..n]);
      var p, x := A.Pow(256, n), BE(s[..n], 256);
      assert BE(InvertBytes(s), 256) == (p - 1 - x) * 256 + (0xFF - s[n]);
      assert A.Pow(256, |s|) == 256 * p;
    }
  }

  /** The all-ones word of the given width. */
  function WordMax(width: nat): nat
  {
    A.Pow2(width) - 1
  }

  /** `shl` on a word of the given width: the count modulo the width, overflow bits lost. */
  function ShlWord(x: nat, n: int, width: nat): (r: nat)
    requires width > 0
    ensures r < A.Pow2(width)
  {
    (x * A.Pow2(n % width)) % A.Pow2(width)
  }

  /** ((bitLength + 8 - 1) / 8) * 8: the bit length rounded up to whole bytes. */
  function RoundedBitLength(w: nat): nat
  {
    ((A.BitLength(w) + 8 - 1) / 8) * 8
  }

  /** Word 0 after invert: the complement, and-ed with inv(MAX shl roundedBitLength). */
  function InvertedHead(w: nat, width: nat): (r: nat)
    requires width > 0 && w < A.Pow2(width)
    ensures r <= WordMax(width) - w
  {
    var mask := WordMax(width) - ShlWord(WordMax(width), RoundedBitLength(w), width);
    A.BitAndAtMost(mask, WordMax(width) - w);
    A.BitAnd(mask, WordMax(width) - w)
  }

  /** The rounded bit length of a word never passes the word's width. */
  lemma RoundedBitLengthBounds(w: nat, width: nat)
    requires width > 0 && width % 8 == 0 && w < A.Pow2(width)
    ensures w < A.Pow2(RoundedBitLength(w)) && RoundedBitLength(w) <= width
  {
    A.BitLengthBounds(w);
    if A.BitLength(w) > width {
      A.Pow2Monotone(width, A.BitLength(w) - 1);
    }
    RoundUpToBytes(A.BitLength(w), width);
    A.Pow2Monotone(A.BitLength(w), RoundedBitLength(w));
  }

  /** A bit count b <= width, rounded up to whole bytes, lies between b and width. */
  lemma RoundUpToBytes(b: nat, width: nat)
    requires b <= width && width % 8 == 0
    ensures b <= ((b + 8 - 1) / 8) * 8 <= width
  {
  }

  lemma BitAndSame(a: nat, b: nat, c: nat, d: nat)
    requires a == c && b == d
    ensures A.BitAnd(a, b) == A.BitAnd(c, d)
  {
  }

  lemma BitOrSame(a: nat, b: nat, c: nat, d: nat)
    requires a == c && b == d
    ensures A.BitOr(a, b) == A.BitOr(c, d)
  {
  }

  lemma MulSame(a: int, b: int, c: int, d: int)
    requires a == c && b == d
    ensures a * b == c * d
  {
  }

  lemma MulSplit(a: int, b: int)
    ensures (a - 1) * b == a * (b - 1) + (a - b)
  {
  }

  lemma MulPredLeft(a: int, b: int)
    ensures (a - 1) * b == a * b - b
  {
  }

  lemma MulPred(a: int, b: int, w: int)
    ensures a * b - 1 - w == a * (b - 1) + (a - 1 - w)
  {
  }

  /** The all-ones word shifted left by k < width: the top width - k bits set. */
  lemma ShlAllOnes(k: nat, width: nat)
    requires k < width
    ensures ShlWord(WordMax(width), k, width) == A.Pow2(width) - A.Pow2(k)
  {
    A.ModUnique(k, width, 0, k);
    A.Pow2Monotone(k, width);
    AllOnesTimes(WordMax(width), A.Pow2(k % width), A.Pow2(width), A.Pow2(k));
  }

  /** (p - 1) * q mod p == p - q for 1 <= q <= p. */
  lemma AllOnesTimes(x: int, s: int, p: int, q: int)
    requires x == p - 1 && s == q && 1 <= q <= p
    ensures (x * s) % p == p - q
  {
    MulSplit(p, q);
    MulSame(x, s, p - 1, q);
    A.ModUnique((p - 1) * q, p, q - 1, p - q);
  }

  /** The low k bits of the complement of a k-bit word are its k-bit complement. */
  lemma LowComplement(w: nat, k: nat, width: nat)
    requires w < A.Pow2(k) && k <= width
    ensures (A.Pow2(width) - 1 - w) % A.Pow2(k) == A.Pow2(k) - 1 - w
  {
    A.Pow2Add(k, width - k);
    assert A.Pow2(width) == A.Pow2(k) * A.Pow2(width - k);
    MulPred(A.Pow2(k), A.Pow2(width - k), w);
    A.ModUnique(A.Pow2(width) - 1 - w, A.Pow2(k), A.Pow2(width - k) - 1, A.Pow2(k) - 1 - w);
  }

  /** Below the top byte, word 0 is complemented within its rounded bit length ... */
  lemma InvertedHeadWithinRounded(w: nat, width: nat)
    requires width > 0 && width % 8 == 0 && w < A.Pow2(width)
    requires RoundedBitLength(w) < width
    ensures w + InvertedHead(w, width) == A.Pow2(RoundedBitLength(w)) - 1
  {
    RoundedBitLengthBounds(w, width);
    MaskedComplement(w, RoundedBitLength(w), width);
    HeadAsMask(w, width, A.Pow2(RoundedBitLength(w)));
  }

  /** Word 0 is the k-bit mask and-ed with the complement, k the rounded bit length below the width. */
  lemma HeadAsMask(w: nat, width: nat, p: nat)
    requires width > 0 && w < A.Pow2(width) && RoundedBitLength(w) < width
    requires p == A.Pow2(RoundedBitLength(w)) && w < p
    requires A.BitAnd(p - 1, A.Pow2(width) - 1 - w) == p - 1 - w
    ensures w + InvertedHead(w, width) == p - 1
  {
    var k := RoundedBitLength(w);
    var mask := WordMax(width) - ShlWord(WordMax(width), k, width);
    assert mask == p - 1 by {
      ShlAllOnes(k, width);
    }
    assert InvertedHead(w, width) == A.BitAnd(mask, WordMax(width) - w);
    BitAndSame(mask, WordMax(width) - w, p - 1, A.Pow2(width) - 1 - w);
  }

  /** And-ing the complement of a k-bit word with the k-bit mask gives its k-bit complement. */
  lemma MaskedComplement(w: nat, k: nat, width: nat)
    requires w < A.Pow2(k) && k <= width
    ensures A.Pow2(k) <= A.Pow2(width)
    ensures A.BitAnd(A.Pow2(k) - 1, A.Pow2(width) - 1 - w) == A.Pow2(k) - 1 - w
  {
    A.Pow2Monotone(k, width);
    A.BitAndLowMask(k, A.Pow2(width) - 1 - w);
    LowComplement(w, k, width);
  }

  /** ... but a word reaching into its top byte shifts by the full width, which is no shift. */
  lemma InvertedHeadTopByte(w: nat, width: nat)
    requires width > 0 && w < A.Pow2(width)
    requires RoundedBitLength(w) == width
    ensures InvertedHead(w, width) == 0
  {
    A.ModUnique(width, width, 1, 0);
    assert A.Pow2(width % width) == 1;
    A.ModUnique(WordMax(width) * A.Pow2(width % width), A.Pow2(width), 0, WordMax(width));
    assert ShlWord(WordMax(width), RoundedBitLength(w), width) == WordMax(width);
  }

  /** And-ing with the all-ones word changes nothing. */
  lemma FullMask(v: nat, width: nat)
    requires v < A.Pow2(width)
    ensures A.BitAnd(WordMax(width), v) == v
  {
    A.BitAndLowMask(width, v);
    A.ModUnique(v, A.Pow2(width), 0, v);
  }

  /** Word 0 as intended: a mask of all ones when the rounded length fills the word. */
  function InvertedHeadCorrected(w: nat, width: nat): (r: nat)
    requires width > 0 && width % 8 == 0 && w < A.Pow2(width)
    ensures w + r == A.Pow2(RoundedBitLength(w)) - 1
  {
    RoundedBitLengthBounds(w, width);
    if RoundedBitLength(w) == width then
      FullMask(WordMax(width) - w, width);
      A.BitAnd(WordMax(width), WordMax(width) - w)
    else
      InvertedHeadWithinRounded(w, width);
      InvertedHead(w, width)
  }

  lemma InvertedHeadCounterexample()
    ensures A.Pow2(32) == 0x1_0000_0000
    ensures InvertedHead(0x8000_0000, 32) == 0
    ensures InvertedHeadCorrected(0x8000_0000, 32) == 0x7FFF_FFFF
  {
    A.Pow2Of32();
    assert A.Pow2(31) == 0x8000_0000;
    A.BitLengthFromBounds(0x8000_0000, 32);
    InvertedHeadTopByte(0x8000_0000, 32);
  }

  /** invert(UIntArray) and invert(ULongArray), as a function of the input's contents. */
  function InvertWordsSpec(s: seq<int>, width: nat): seq<int>
    requires width > 0 && |s| > 0 && 0 <= s[0] < A.Pow2(width)
  {
    Complement(s, width)[0 := InvertedHead(s[0], width)]
  }

  /** Every word of s subtracted from the all-ones word. */
  function Complement(s: seq<int>, width: nat): (r: seq<int>)
    ensures |r| == |s| && forall i :: 0 <= i < |s| ==> r[i] == WordMax(width) - s[i]
  {
    seq(|s|, i requires 0 <= i < |s| => WordMax(width) - s[i])
  }

  lemma HeadOfWord(w: nat, width: nat, max: nat, shifted: nat)
    requires width > 0 && w < A.Pow2(width) && max == WordMax(width)
    requires shifted == ShlWord(max, RoundedBitLength(w), width)
    ensures A.BitAnd(max - shifted, max - w) == InvertedHead(w, width)
  {
  }

  /** Word 0 as the method computes it on u64 words is InvertedHead. */
  lemma ShlULongHead(w: u64, mask: nat, low: nat)
    requires mask == ULONG_MAX - ShlULong(ULONG_MAX, RoundedBitLength(w)) && low == ULONG_MAX - w
    ensures A.Pow2(64) == 0x1_0000_0000_0000_0000
    ensures A.BitAnd(mask, low) == InvertedHead(w, 64)
  {
    A.Pow2Of64();
    ShlULongIsWord(ULONG_MAX, RoundedBitLength(w));
    HeadOfWord(w, 64, ULONG_MAX, ShlULong(ULONG_MAX, RoundedBitLength(w)));
  }



  lemma ShlULongIsWord(x: u64, n: int)
    ensures ShlULong(x, n) == ShlWord(x, n, 64)
  {
    A.Pow2Of64();
  }

  /** Word 0 as the method computes it on u32 words is InvertedHead. */
  lemma ShlUIntHead(w: u32, mask: nat, low: nat)
    requires mask == UINT_MAX - ShlUInt(UINT_MAX, RoundedBitLength(w)) && low == UINT_MAX - w
    ensures A.Pow2(32) == 0x1_0000_0000
    ensures A.BitAnd(mask, low) == InvertedHead(w, 32)
  {
    A.Pow2Of32();
    ShlUIntIsWord(UINT_MAX, RoundedBitLength(w));
    HeadOfWord(w, 32, UINT_MAX, ShlUInt(UINT_MAX, RoundedBitLength(w)));
  }



  lemma ShlUIntIsWord(x: u32, n: int)
    ensures ShlUInt(x, n) == ShlWord(x, n, 32)
  {
    A.Pow2Of32();
  }

  /** Word 0 replaced by InvertedHead and every other word complemented: the modelled invert. */
  lemma InvertWordsFromParts(words: seq<int>, width: nat, result: seq<int>)
    requires width > 0 && |words| > 0 && 0 <= words[0] < A.Pow2(width) && |result| == |words|
    requires result[0] == InvertedHead(words[0], width)
    requires forall i :: 0 < i < |words| ==> result[i] == WordMax(width) - words[i]
    ensures result == InvertWordsSpec(words, width)
  {
  }

  /** invert(ULongArray): reading word 0 of an empty array is an index error. */
  method InvertULongs(words: array<u64>) returns (r: Result<array<u64>>)
    ensures r.Err? <==> words.Length == 0
    ensures r.Err? ==> r.error == IndexOutOfBounds
    ensures r.Ok? ==> fresh(r.value)
    ensures r.Ok? ==> A.Pow2(64) == 0x1_0000_0000_0000_0000 && r.value[..] == InvertWordsSpec(words[..], 64)
  {
    A.Pow2Of64();
    if words.Length == 0 {
      return Err(IndexOutOfBounds);
    }
    var roundedBitLength := RoundedBitLength(words[0]);
    var inverted := new u64[words.Length](i reads words => if 0 <= i < words.Length then ULONG_MAX - words[i] else 0);
    var mask := ULONG_MAX - ShlULong(ULONG_MAX, roundedBitLength);
    var low := inverted[0];
    assert low == ULONG_MAX - words[0];
    var head := A.BitAnd(mask, low);
    ShlULongHead(words[0], mask, low);
    inverted[0] := head;
    InvertWordsFromParts(words[..], 64, inverted[..]);
    return Ok(inverted);
  }

  /** invert(UIntArray). */
  method InvertUInts(words: array<u32>) returns (r: Result<array<u32>>)
    ensures r.Err? <==> words.Length == 0
    ensures r.Err? ==> r.error == IndexOutOfBounds
    ensures r.Ok? ==> fresh(r.value)
    ensures r.Ok? ==> A.Pow2(32) == 0x1_0000_0000 && r.value[..] == InvertWordsSpec(words[..], 32)
  {
    A.Pow2Of32();
    if words.Length == 0 {
      return Err(IndexOutOfBounds);
    }
    var roundedBitLength := RoundedBitLength(words[0]);
    var inverted := new u32[words.Length](i reads words => if 0 <= i < words.Length then UINT_MAX - words[i] else 0);
    var mask := UINT_MAX - ShlUInt(UINT_MAX, roundedBitLength);
    var low := inverted[0];
    assert low == UINT_MAX - words[0];
    var head := A.BitAnd(mask, low);
    ShlUIntHead(words[0], mask, low);
    inverted[0] := head;
    InvertWordsFromParts(words[..], 32, inverted[..]);
    return Ok(inverted);
  }

  // -------------------------------------------------------- two's complement

  /** The integer a big-endian two's-complement byte string denotes; the empty string denotes 0. */
  function TwosValue(s: seq<u8>): int
  {
    if |s| == 0 then 0
    else if s[0] >= 0x80 then BE(s, 256) - A.Pow(256, |s|)
    else BE(s, 256)
  }

  /** A non-empty encoding whose first byte is not a redundant sign extension of the second. */
  predicate Minimal(s: seq<u8>)
  {
    |s| > 0 && (|s| > 1 ==> !(s[0] == 0 && s[1] < 0x80) && !(s[0] == 0xFF && s[1] >= 0x80))
  }

  /** indexOfFirst { it != v }: the first position holding another byte, or -1. */
  function IndexOfFirstNot(s: seq<u8>, v: int): (r: int)
    ensures -1 <= r < |s|
    ensures r >= 0 ==> s[r] != v
    ensures forall j :: 0 <= j < |s| && (r == -1 || j < r) ==> s[j] == v
  {
    if |s| == 0 then -1
    else if s[0] != v then 0
    else
      var k := IndexOfFirstNot(s[1..], v);
      if k == -1 then -1 else k + 1
  }

  lemma {:induction false} BEOfOnes(n: nat)
    ensures BE(seq(n, _ => 0xFF), 256) == A.Pow(256, n) - 1
  {
    if n > 0 {
      assert seq(n, _ => 0xFF)[..n - 1] == seq(n - 1, _ => 0xFF);
      BEOfOnes(n - 1);
    }
  }

  /** A string that is one byte repeated throughout. */
  lemma ConstantBytes(s: seq<u8>, fill: int)
    requires forall j :: 0 <= j < |s| ==> s[j] == fill
    ensures fill == 0 ==> s == Zeros(|s|)
    ensures fill == 0xFF ==> s == seq(|s|, _ => 0xFF)
  {
  }

  /**
   * The trimming step of toTwosComplementByteArray: drop the leading bytes equal to
   * the sign fill, then put one fill byte back when the next byte's top bit disagrees.
   */
  function Trimmed(result: seq<u8>, fill: u8): seq<u8>
    requires |result| > 0
  {
    var firstNonFill := IndexOfFirstNot(result, fill);
    var k := if firstNonFill == -1 then 0 else firstNonFill;
    if (result[k] >= 0x80) != (fill >= 0x80) then [fill] + result[k..] else result[k..]
  }

  /** Dropping leading fill bytes keeps the two's-complement value of the sign-extended string. */
  lemma TrimmedPrefix(result: seq<u8>, fill: u8, k: nat)
    requires fill == 0 || fill == 0xFF
    requires k <= |result| && forall j :: 0 <= j < k ==> result[j] == fill
    ensures fill == 0 ==> BE(result[k..], 256) == BE(result, 256)
    ensures fill == 0xFF ==> BE(result[k..], 256) - A.Pow(256, |result[k..]|) == BE(result, 256) - A.Pow(256, |result|)
  {
    var p, q := result[..k], result[k..];
    var a, b := A.Pow(256, k), A.Pow(256, |q|);
    assert BE(result, 256) == BE(p, 256) * b + BE(q, 256) by {
      assert result == p + q;
      BEConcat(p, q, 256);
    }
    if fill == 0 {
      assert BE(p, 256) == 0 by {
        ConstantBytes(p, fill);
        BEOfZeros(k, 256);
      }
    } else {
      assert BE(p, 256) == a - 1 by {
        ConstantBytes(p, fill);
        BEOfOnes(k);
      }
      assert A.Pow(256, |result|) == a * b by { A.PowAdd(256, k, |q|); }
      MulPredLeft(a, b);
    }
  }

  /** The value, the sign byte and the minimality of a trimmed encoding. */
  lemma TrimmedValue(result: seq<u8>, fill: u8)
    requires |result| > 0 && (fill == 0 || fill == 0xFF)
    ensures fill == 0 ==> TwosValue(Trimmed(result, fill)) == BE(result, 256)
    ensures fill == 0xFF ==> TwosValue(Trimmed(result, fill)) == BE(result, 256) - A.Pow(256, |result|)
    ensures |Trimmed(result, fill)| > 0 && (Trimmed(result, fill)[0] >= 0x80 <==> fill == 0xFF)
    ensures IndexOfFirstNot(result, fill) != -1 || |result| == 1 ==> Minimal(Trimmed(result, fill))
  {
    var f := IndexOfFirstNot(result, fill);
    var k := if f == -1 then 0 else f;
    if fill == 0 {
      TrimmedZerosValue(result, k);
    } else {
      TrimmedOnesValue(result, k);
    }
  }

  /** Trimming leading zero bytes, with a zero put back before a top bit. */
  lemma TrimmedZerosValue(result: seq<u8>, k: nat)
    requires k < |result| && forall j :: 0 <= j < k ==> result[j] == 0
    ensures TwosValue(if result[k] >= 0x80 then [0] + result[k..] else result[k..]) == BE(result, 256)
  {
    TrimmedPrefix(result, 0, k);
    if result[k] >= 0x80 {
      var r := [0 as u8] + result[k..];
      assert r[..1] == [0] && r[1..] == result[k..];
      TrimmedPrefix(r, 0, 1);
    }
  }

  /** Trimming leading 0xFF bytes, with a 0xFF put back before a clear top bit. */
  lemma TrimmedOnesValue(result: seq<u8>, k: nat)
    requires k < |result| && forall j :: 0 <= j < k ==> result[j] == 0xFF
    ensures TwosValue(if result[k] < 0x80 then [0xFF] + result[k..] else result[k..])
      == BE(result, 256) - A.Pow(256, |result|)
  {
    TrimmedPrefix(result, 0xFF, k);
    if result[k] < 0x80 {
      var r := [0xFF as u8] + result[k..];
      assert r[..1] == [0xFF] && r[1..] == result[k..];
      TrimmedPrefix(r, 0xFF, 1);
    }
  }

  /** Inverting a negative encoding leaves room for the increment, which then negates it. */
  lemma InvertIncrementValue(s: seq<u8>)
    requires IndexOfLastBelow(InvertBytes(s), 0xFF) != -1
    ensures |IncrementBytesSpec(InvertBytes(s))| == |s|
    ensures BE(IncrementBytesSpec(InvertBytes(s)), 256) == A.Pow(256, |s|) - BE(s, 256)
  {
    IncrementBytesWithRoom(InvertBytes(s));
    InvertBytesValue(s);
  }

  /** fromTwosComplementByteArray; the unseen fromByteArray and fromUByteArray build a
      BigInteger from a big-endian magnitude and the given sign. */
  function FromTwosComplementByteArray(source: seq<u8>): (r: B.BigInteger)
    ensures B.Value(r) == TwosValue(source)
    ensures B.ZeroSound(r)
    ensures r == B.BigInteger(0, B.Sign.ZERO) <==> |source| == 0
    ensures r.sign == B.Sign.NEGATIVE <==> |source| > 0 && source[0] >= 0x80
  {
    if |source| == 0 then B.BigInteger(0, B.Sign.ZERO)
    else
      BEBounds(source, 256);
      if source[0] >= 0x80 then
        assert InvertBytes(source)[0] < 0xFF;
        InvertIncrementValue(source);
        B.BigInteger(BE(IncrementBytesSpec(InvertBytes(source)), 256), B.Sign.NEGATIVE)
      else
        B.BigInteger(BE(source, 256), B.Sign.POSITIVE)
  }

  /**
   * toTwosComplementByteArray; `bytes` stands for the unseen toByteArray, the big-endian
   * magnitude of x.  The opening magnitude.isEmpty() test never holds, because even the
   * zero magnitude is one zero word, so a zero magnitude is caught only on the non-negative
   * path (contentEquals(ZERO)); a NEGATIVE sign over a zero magnitude goes through the
   * invert-and-increment path.
   */
  function ToTwosComplementByteArray(x: B.BigInteger, bytes: seq<u8>): (r: seq<u8>)
    requires BE(bytes, 256) == x.magnitude
    ensures x.magnitude == 0 && x.sign != B.Sign.NEGATIVE ==> r == [0]
    ensures x.sign == B.Sign.NEGATIVE && x.magnitude == 1 ==> r == [0xFF]
    ensures x.sign == B.Sign.NEGATIVE && x.magnitude == 0 ==> r == [0xFF, 0x01] + seq(|bytes|, _ => 0xFF)
    ensures Minimal(r)
    ensures r[0] >= 0x80 <==> x.sign == B.Sign.NEGATIVE
    ensures B.ZeroSound(x) && !(x.sign == B.Sign.NEGATIVE && x.magnitude == 0) ==> TwosValue(r) == B.Value(x)
    ensures x.sign == B.Sign.NEGATIVE && x.magnitude == 0 ==> TwosValue(r) == -254 * A.Pow(256, |bytes|) - 1
  {
    if x.sign == B.Sign.NEGATIVE then
      if x.magnitude == 1 then
        assert BE([0xFF], 256) == 0xFF;
        [0xFF]
      else
        var trimmed := Trimmed(IncrementBytesSpec(InvertBytes(bytes)), 0xFF);
        if x.magnitude == 0 then NegativeZeroEncoding(bytes); trimmed
        else NegativeEncoding(x.magnitude, bytes); trimmed
    else if x.magnitude == 0 then [0]
    else
      PositiveEncoding(x.magnitude, bytes);
      Trimmed(bytes, 0)
  }

  /** Inverting zero bytes gives all 0xFF, whose increment carries out into a new byte 1. */
  lemma NegativeZeroEncoding(bytes: seq<u8>)
    requires BE(bytes, 256) == 0
    ensures Trimmed(IncrementBytesSpec(InvertBytes(bytes)), 0xFF) == [0xFF, 0x01] + seq(|bytes|, _ => 0xFF)
    ensures Minimal(Trimmed(IncrementBytesSpec(InvertBytes(bytes)), 0xFF))
    ensures TwosValue(Trimmed(IncrementBytesSpec(InvertBytes(bytes)), 0xFF)) == -254 * A.Pow(256, |bytes|) - 1
  {
    NegativeZeroIncrement(bytes);
    CarryTrimmed(|bytes|);
  }

  /** The inverted zero bytes are all 0xFF, so the increment prepends a 1. */
  lemma NegativeZeroIncrement(bytes: seq<u8>)
    requires BE(bytes, 256) == 0
    ensures IncrementBytesSpec(InvertBytes(bytes)) == [1] + seq(|bytes|, _ => 0xFF)
  {
    var inverted := InvertBytes(bytes);
    if IndexOfLastBelow(inverted, 0xFF) != -1 {
      InvertIncrementValue(bytes);
      assert IsDigits(IncrementBytesSpec(inverted), 256);
      BEBounds(IncrementBytesSpec(inverted), 256);
      assert false;
    }
    IncrementBytesSaturated(inverted);
    ConstantBytes(inverted, 0xFF);
  }

  /** Trimming a carried-out 1 before n bytes 0xFF puts a 0xFF in front of it. */
  lemma CarryTrimmed(n: nat)
    ensures Trimmed([1] + seq(n, _ => 0xFF), 0xFF) == [0xFF, 0x01] + seq(n, _ => 0xFF)
    ensures Minimal([0xFF, 0x01] + seq(n, _ => 0xFF))
    ensures TwosValue([0xFF, 0x01] + seq(n, _ => 0xFF)) == -254 * A.Pow(256, n) - 1
  {
    var ones: seq<u8> := seq(n, _ => 0xFF);
    var result := [1 as u8] + ones;
    var p := A.Pow(256, n);
    assert IndexOfFirstNot(result, 0xFF) == 0;
    assert Trimmed(result, 0xFF) == [0xFF] + result;
    assert [0xFF] + result == [0xFF, 0x01] + ones;
    assert BE(result, 256) == 2 * p - 1 by {
      PrependOne(ones);
      BEOfOnes(n);
    }
    assert TwosValue(Trimmed(result, 0xFF)) == BE(result, 256) - A.Pow(256, |result|) by {
      TrimmedValue(result, 0xFF);
    }
    assert A.Pow(256, |result|) == 256 * p;
  }

  lemma NegativeEncoding(m: nat, bytes: seq<u8>)
    requires BE(bytes, 256) == m && m >= 2
    ensures |IncrementBytesSpec(InvertBytes(bytes))| == |bytes| > 0
    ensures Minimal(Trimmed(IncrementBytesSpec(InvertBytes(bytes)), 0xFF))
    ensures Trimmed(IncrementBytesSpec(InvertBytes(bytes)), 0xFF)[0] >= 0x80
    ensures TwosValue(Trimmed(IncrementBytesSpec(InvertBytes(bytes)), 0xFF)) == -(m as int)
  {
    var inverted := InvertBytes(bytes);
    if IndexOfLastBelow(inverted, 0xFF) == -1 {
      ConstantBytes(inverted, 0xFF);
      BEOfOnes(|bytes|);
      InvertBytesValue(bytes);
      assert false;
    }
    InvertIncrementValue(bytes);
    var result := IncrementBytesSpec(inverted);
    TrimmedValue(result, 0xFF);
    if IndexOfFirstNot(result, 0xFF) == -1 {
      ConstantBytes(result, 0xFF);
      BEOfOnes(|result|);
      assert false;
    }
  }

  lemma PositiveEncoding(m: nat, bytes: seq<u8>)
    requires BE(bytes, 256) == m && m >= 1
    ensures |bytes| > 0
    ensures Minimal(Trimmed(bytes, 0))
    ensures Trimmed(bytes, 0)[0] < 0x80
    ensures TwosValue(Trimmed(bytes, 0)) == m
  {
    TrimmedValue(bytes, 0);
    if IndexOfFirstNot(bytes, 0) == -1 {
      ConstantBytes(bytes, 0);
      BEOfZeros(|bytes|, 256);
      assert false;
    }
  }

  /**
   * Decoding an encoding gives back the value encoded, except for a NEGATIVE sign over a
   * zero magnitude, which comes back as a negative number.
   */
  lemma TwosComplementValueRoundTrip(x: B.BigInteger, bytes: seq<u8>)
    requires BE(bytes, 256) == x.magnitude && B.ZeroSound(x)
    ensures !(x.sign == B.Sign.NEGATIVE && x.magnitude == 0) ==>
      B.Value(FromTwosComplementByteArray(ToTwosComplementByteArray(x, bytes))) == B.Value(x)
    ensures x.sign == B.Sign.NEGATIVE && x.magnitude == 0 ==>
      B.Value(FromTwosComplementByteArray(ToTwosComplementByteArray(x, bytes))) == -254 * A.Pow(256, |bytes|) - 1
  {
  }

  /** A NEGATIVE zero over one zero byte encodes as FF 01 FF, which denotes -65025. */
  lemma NegativeZeroCounterexample()
    ensures ToTwosComplementByteArray(B.BigInteger(0, B.Sign.NEGATIVE), [0]) == [0xFF, 0x01, 0xFF]
    ensures TwosValue([0xFF, 0x01, 0xFF]) == -65025
    ensures ToTwosComplementCorrected(B.BigInteger(0, B.Sign.NEGATIVE), [0]) == [0]
  {
    assert BE([0], 256) == 0 by { assert [0][..0] == []; }
    assert seq(1, _ => 0xFF) == [0xFF];
    assert BE([0xFF, 0x01, 0xFF], 256) == 0xFF01FF by {
      assert [0xFF, 0x01, 0xFF][..2] == [0xFF, 0x01];
      assert [0xFF, 0x01][..1] == [0xFF];
      assert [0xFF][..0] == [];
    }
    assert A.Pow(256, 3) == 0x100_0000;
  }

  /** The encoding that two's complement calls for: a zero magnitude encodes as one zero byte whatever its sign. */
  function ToTwosComplementCorrected(x: B.BigInteger, bytes: seq<u8>): (r: seq<u8>)
    requires BE(bytes, 256) == x.magnitude
    ensures Minimal(r)
    ensures B.ZeroSound(x) ==> TwosValue(r) == B.Value(x)
    ensures B.ZeroSound(x) ==> (r[0] >= 0x80 <==> B.Value(x) < 0)
    ensures B.ZeroSound(x) ==> B.Value(FromTwosComplementByteArray(r)) == B.Value(x)
  {
    if x.magnitude == 0 then [0] else ToTwosComplementByteArray(x, bytes)
  }

  /** For a non-zero BigInteger in normal form the round trip is exact. */
  lemma TwosComplementRoundTrip(x: B.BigInteger, bytes: seq<u8>)
    requires BE(bytes, 256) == x.magnitude && B.Valid(x) && x.magnitude != 0
    ensures FromTwosComplementByteArray(ToTwosComplementByteArray(x, bytes)) == x
  {
    var r := FromTwosComplementByteArray(ToTwosComplementByteArray(x, bytes));
    assert B.Value(r) == B.Value(x);
    assert r.sign == x.sign;
  }
}
