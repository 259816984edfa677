/**
 Fixed-width little-endian numbers: the inline functions of `coding.h` and the two writers of
 `coding.cc` that append them to a string.
 */
module FixedCoding {
  import opened Words
  import opened Memory

  /** `n` bytes of `v`, least significant first. */
  function Fixed(v: nat, n: nat): (bs: seq<uint8>)
    ensures |bs| == n
    decreases n, v
  {
    if n == 0 then [] else [v % 0x100] + Fixed(v / 0x100, n - 1)
  }

  /** The number a little-endian byte string denotes. */
  function FixedVal(bs: seq<uint8>): nat {
    if bs == [] then 0 else bs[0] + 0x100 * FixedVal(bs[1..])
  }

  // Machine level

  method EncodeFixed32(dst: array<uint8>, at: nat, value: uint32)
    requires at + 4 <= dst.Length
    modifies dst
    ensures dst[..] == Overwrite(old(dst[..]), at, Fixed(value, 4))
  {
    dst[at] := LowByte(value);
    dst[at + 1] := LowByte(Shr(value, 8));
    dst[at + 2] := LowByte(Shr(value, 16));
    dst[at + 3] := LowByte(Shr(value, 24));
    Fixed32Bytes(value);
    assert dst[at..at + 4] == Fixed(value, 4);
  }

  method EncodeFixed64(dst: array<uint8>, at: nat, value: uint64)
    requires at + 8 <= dst.Length
    modifies dst
    ensures dst[..] == Overwrite(old(dst[..]), at, Fixed(value, 8))
  {
    ghost var before := dst[..];
    dst[at] := LowByte(value);
    dst[at + 1] := LowByte(Shr(value, 8));
    dst[at + 2] := LowByte(Shr(value, 16));
    dst[at + 3] := LowByte(Shr(value, 24));
    dst[at + 4] := LowByte(Shr(value, 32));
    dst[at + 5] := LowByte(Shr(value, 40));
    dst[at + 6] := LowByte(Shr(value, 48));
    dst[at + 7] := LowByte(Shr(value, 56));
    Fixed64Stored(before, dst[..], at, value);
  }

  function DecodeFixed32(buffer: seq<uint8>): (r: uint32)
    requires |buffer| >= 4
    ensures r == FixedVal(buffer[..4])
  {
    Decode32Sums(buffer);
    Or(Or(Or(buffer[0], Shl(buffer[1], 8, 32)), Shl(buffer[2], 16, 32)), Shl(buffer[3], 24, 32))
  }

  function DecodeFixed64(buffer: seq<uint8>): (r: uint64)
    requires |buffer| >= 8
    ensures r == FixedVal(buffer[..8])
  {
    Decode64Sums(buffer);
    Or(Or(Or(Or(Or(Or(Or(buffer[0], Shl(buffer[1], 8, 64)), Shl(buffer[2], 16, 64)),
    Shl(buffer[3], 24, 64)), Shl(buffer[4], 32, 64)), Shl(buffer[5], 40, 64)),
    Shl(buffer[6], 48, 64)), Shl(buffer[7], 56, 64))
  }

  method PutFixed32(dst: StringBuffer, value: uint32)
    modifies dst
    ensures dst.bytes == old(dst.bytes) + Fixed(value, 4)
  {
    var buf := new uint8[4];
    EncodeFixed32(buf, 0, value);
    dst.Append(buf, 0, 4);
    assert buf[0..4] == buf[..];
  }

  method PutFixed64(dst: StringBuffer, value: uint64)
    modifies dst
    ensures dst.bytes == old(dst.bytes) + Fixed(value, 8)
  {
    var buf := new uint8[8];
    EncodeFixed64(buf, 0, value);
    dst.Append(buf, 0, 8);
    assert buf[0..8] == buf[..];
  }

  // The shifts and ORs as arithmetic

  /** Byte `i` of the encoding is what shifting and truncating extracts. */
  lemma {:induction false} FixedAt(v: nat, n: nat, i: nat)
    requires i < n
    ensures Fixed(v, n)[i] == LowByte(Shr(v, 8 * i))
    decreases i
  {
    if i > 0 {
      var later := Fixed(v / 0x100, n - 1);
      assert Fixed(v, n)[i] == later[i - 1];
      FixedAt(v / 0x100, n - 1, i - 1);
      ByteShift(v);
      ShrSum(v, 8, 8 * (i - 1));
    }
  }

  lemma {:induction false} Fixed32Bytes(v: uint32)
    ensures Fixed(v, 4) == [LowByte(v), LowByte(Shr(v, 8)), LowByte(Shr(v, 16)), LowByte(Shr(v, 24))]
  {
    FixedAt(v, 4, 1);
    FixedAt(v, 4, 2);
    FixedAt(v, 4, 3);
  }

  lemma {:induction false} Fixed64Bytes(v: uint64)
    ensures Fixed(v, 8) == [LowByte(v), LowByte(Shr(v, 8)), LowByte(Shr(v, 16)), LowByte(Shr(v, 24)),
                            LowByte(Shr(v, 32)), LowByte(Shr(v, 40)), LowByte(Shr(v, 48)), LowByte(Shr(v, 56))]
  {
    FixedAt(v, 8, 1);
    FixedAt(v, 8, 2);
    FixedAt(v, 8, 3);
    FixedAt(v, 8, 4);
    FixedAt(v, 8, 5);
    FixedAt(v, 8, 6);
    FixedAt(v, 8, 7);
  }

  lemma {:induction false} Fixed64Stored(before: seq<uint8>, after: seq<uint8>, at: nat, v: uint64)
    requires at + 8 <= |before| == |after|
    requires after[..at] == before[..at] && after[at + 8..] == before[at + 8..]
    requires after[at..at + 8] == [LowByte(v), LowByte(Shr(v, 8)), LowByte(Shr(v, 16)), LowByte(Shr(v, 24)),
                                   LowByte(Shr(v, 32)), LowByte(Shr(v, 40)), LowByte(Shr(v, 48)), LowByte(Shr(v, 56))]
    ensures after == Overwrite(before, at, Fixed(v, 8))
  {
    Fixed64Bytes(v);
    assert after == after[..at] + after[at..at + 8] + after[at + 8..];
  }

  /** Adding the next byte of a little-endian number to the ones already read. */
  lemma {:induction false} OrNextByte(bs: seq<uint8>, acc: nat, n: nat, width: nat)
    requires n < |bs| && 8 * (n + 1) <= width
    requires acc == FixedVal(bs[..n])
    ensures Or(acc, Shl(bs[n], 8 * n, width)) == FixedVal(bs[..n + 1]) < Pow2(width)
  {
    var s := bs[..n];
    assert bs[..n + 1] == s + [bs[n]];
    FixedBound(s);
    FixedSnoc(s, bs[n]);
    OrShl(acc, bs[n], 8 * n, width);
    FixedBound(s + [bs[n]]);
    PowMonotone(8 * (n + 1), width);
    LowBitsSmall(FixedVal(s + [bs[n]]), width);
  }

  lemma {:induction false} Decode32Sums(b: seq<uint8>)
    requires |b| >= 4
    ensures Or(Or(Or(b[0], Shl(b[1], 8, 32)), Shl(b[2], 16, 32)), Shl(b[3], 24, 32))
         == FixedVal(b[..4]) < 0x1_0000_0000
  {
    PowLiterals();
    assert b[..1] == [b[0]];
    assert FixedVal([b[0]]) == b[0];
    OrNextByte(b, b[0], 1, 32);
    OrNextByte(b, FixedVal(b[..2]), 2, 32);
    OrNextByte(b, FixedVal(b[..3]), 3, 32);
  }

  lemma {:induction false} Decode64Sums(b: seq<uint8>)
    requires |b| >= 8
    ensures Or(Or(Or(Or(Or(Or(Or(b[0], Shl(b[1], 8, 64)), Shl(b[2], 16, 64)), Shl(b[3], 24, 64)),
            Shl(b[4], 32, 64)), Shl(b[5], 40, 64)), Shl(b[6], 48, 64)), Shl(b[7], 56, 64))
         == FixedVal(b[..8]) < 0x1_0000_0000_0000_0000
  {
    PowLiterals();
    assert b[..1] == [b[0]];
    assert FixedVal([b[0]]) == b[0];
    OrNextByte(b, b[0], 1, 64);
    OrNextByte(b, FixedVal(b[..2]), 2, 64);
    OrNextByte(b, FixedVal(b[..3]), 3, 64);
    OrNextByte(b, FixedVal(b[..4]), 4, 64);
    OrNextByte(b, FixedVal(b[..5]), 5, 64);
    OrNextByte(b, FixedVal(b[..6]), 6, 64);
    OrNextByte(b, FixedVal(b[..7]), 7, 64);
  }

  // Little-endian numbers

  lemma {:induction false} ByteShift(v: nat)
    ensures Shr(v, 8) == v / 0x100 && LowBits(v, 8) == v % 0x100
  {
    PowLiterals();
    LowBitsModulus(v, 8, 0x100);
  }

  lemma {:induction false} FixedSnoc(bs: seq<uint8>, b: uint8)
    ensures FixedVal(bs + [b]) == FixedVal(bs) + b * Pow2(8 * |bs|)
  {
    if bs == [] {
      assert bs + [b] == [b];
    } else {
      assert (bs + [b])[1..] == bs[1..] + [b];
      FixedSnoc(bs[1..], b);
      PowPlus8(8 * (|bs| - 1));
      NextPlace(0x100, bs[0], FixedVal(bs[1..]), b, Pow2(8 * (|bs| - 1)), Pow2(8 * |bs|));
    }
  }

  lemma {:induction false} FixedBound(bs: seq<uint8>)
    ensures FixedVal(bs) < Pow2(8 * |bs|)
  {
    if bs != [] {
      FixedBound(bs[1..]);
      PowPlus8(8 * (|bs| - 1));
    }
  }

  /** The low `m` bytes, then the bytes of what remains after shifting them out. */
  lemma {:induction false} FixedSplit(v: nat, m: nat, n: nat)
    ensures Fixed(v, m + n) == Fixed(v, m) + Fixed(Shr(v, 8 * m), n)
  {
    forall i: nat | i < m + n
      ensures Fixed(v, m + n)[i] == (Fixed(v, m) + Fixed(Shr(v, 8 * m), n))[i]
    {
      FixedAt(v, m + n, i);
      if i < m {
        FixedAt(v, m, i);
      } else {
        FixedAt(Shr(v, 8 * m), n, i - m);
        ShrSum(v, 8 * m, 8 * (i - m));
      }
    }
  }

  /** Decoding `n` bytes of `v` gives the low `8 n` bits of `v` ... */
  lemma {:induction false} FixedReads(v: nat, n: nat)
    ensures FixedVal(Fixed(v, n)) == LowBits(v, 8 * n)
    decreases n
  {
    if n > 0 {
      FixedReads(v / 0x100, n - 1);
      ByteShift(v);
      PowLiterals();
      LowBitsSum(v, 8, 8 * (n - 1));
      assert Fixed(v, n)[1..] == Fixed(v / 0x100, n - 1);
    }
  }

  /** ... and encoding the number a byte string denotes restores the string. */
  lemma {:induction false} FixedInverse(bs: seq<uint8>)
    ensures Fixed(FixedVal(bs), |bs|) == bs
  {
    if bs != [] {
      var v, rest := FixedVal(bs), bs[1..];
      assert v % 0x100 == bs[0] && v / 0x100 == FixedVal(rest);
      FixedInverse(rest);
      assert bs == [bs[0]] + rest;
    }
  }

  // Theorems

  /** The decoder inverts the encoder, and the encoder the decoder. */
  lemma {:induction false} FixedBijection32(v: uint32, bs: seq<uint8>)
    requires |bs| == 4
    ensures DecodeFixed32(Fixed(v, 4)) == v
    ensures Fixed(DecodeFixed32(bs), 4) == bs
  {
    PowLiterals();
    FixedInverts(v, 4);
    assert Fixed(v, 4)[..4] == Fixed(v, 4) && bs[..4] == bs;
    FixedInverse(bs);
  }

  lemma {:induction false} FixedBijection64(v: uint64, bs: seq<uint8>)
    requires |bs| == 8
    ensures DecodeFixed64(Fixed(v, 8)) == v
    ensures Fixed(DecodeFixed64(bs), 8) == bs
  {
    PowLiterals();
    FixedInverts(v, 8);
    assert Fixed(v, 8)[..8] == Fixed(v, 8) && bs[..8] == bs;
    FixedInverse(bs);
  }

  lemma {:induction false} FixedInverts(v: nat, n: nat)
    requires v < Pow2(8 * n)
    ensures FixedVal(Fixed(v, n)) == v
  {
    FixedReads(v, n);
    LowBitsSmall(v, 8 * n);
  }

  /** A 64-bit number is its low half followed by its high half. */
  lemma {:induction false} FixedHalves(v: uint64)
    ensures Fixed(v, 8) == Fixed(v % 0x1_0000_0000, 4) + Fixed(v / 0x1_0000_0000, 4)
  {
    PowLiterals();
    FixedSplit(v, 4, 4);
    LowBitsModulus(v, 32, 0x1_0000_0000);
    FixedReads(v, 4);
    FixedInverse(Fixed(v, 4));
  }
}
