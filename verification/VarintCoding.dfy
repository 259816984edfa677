/**
 The varint writers and readers of `coding.cc` and `coding.h`, statement by statement over arrays.
 Each writer is proved to store `Varint(v)`, each reader to compute `Parse` of the bytes in
 [p, limit) and of nothing else.
 */
module VarintCoding {
  import opened Words
  import opened Memory
  import opened Leb128

  // Writers

  /** `*(ptr++) = byte` */
  method Emit(dst: array<uint8>, ptr: nat, byte: uint8) returns (next: nat)
    requires ptr < dst.Length
    modifies dst
    ensures next == ptr + 1 && dst[..] == old(dst[..])[ptr := byte]
  {
    dst[ptr] := byte;
    next := ptr + 1;
  }

  /** The unrolled writer: one branch for each length. */
  method EncodeVarint32(dst: array<uint8>, at: nat, v: uint32) returns (end: nat)
    requires at + |Varint(v)| <= dst.Length
    modifies dst
    ensures end == at + |Varint(v)|
    ensures dst[..] == Overwrite(old(dst[..]), at, Varint(v))
  {
    UnrolledBytes(v);
    ghost var before := dst[..];
    var ptr: nat := at;
    if v < 0x80 {
      ptr := Emit(dst, ptr, v);
      Stored(before, dst[..], at, Varint(v));
    } else if v < 0x4000 {
      ptr := Emit(dst, ptr, LowByte(Or(v, 128)));
      ptr := Emit(dst, ptr, LowByte(Shr(v, 7)));
      Stored(before, dst[..], at, Varint(v));
    } else if v < 0x20_0000 {
      ptr := Emit(dst, ptr, LowByte(Or(v, 128)));
      ptr := Emit(dst, ptr, LowByte(Or(Shr(v, 7), 128)));
      ptr := Emit(dst, ptr, LowByte(Shr(v, 14)));
      Stored(before, dst[..], at, Varint(v));
    } else if v < 0x1000_0000 {
      ptr := Emit(dst, ptr, LowByte(Or(v, 128)));
      ptr := Emit(dst, ptr, LowByte(Or(Shr(v, 7), 128)));
      ptr := Emit(dst, ptr, LowByte(Or(Shr(v, 14), 128)));
      ptr := Emit(dst, ptr, LowByte(Shr(v, 21)));
      Stored(before, dst[..], at, Varint(v));
    } else {
      ptr := Emit(dst, ptr, LowByte(Or(v, 128)));
      ptr := Emit(dst, ptr, LowByte(Or(Shr(v, 7), 128)));
      ptr := Emit(dst, ptr, LowByte(Or(Shr(v, 14), 128)));
      ptr := Emit(dst, ptr, LowByte(Or(Shr(v, 21), 128)));
      ptr := Emit(dst, ptr, LowByte(Shr(v, 28)));
      Stored(before, dst[..], at, Varint(v));
    }
    end := ptr;
  }

  /** The looping writer. */
  method EncodeVarint64(dst: array<uint8>, at: nat, value: uint64) returns (end: nat)
    requires at + |Varint(value)| <= dst.Length
    modifies dst
    ensures end == at + |Varint(value)|
    ensures dst[..] == Overwrite(old(dst[..]), at, Varint(value))
  {
    var ptr: nat, v: uint64 := at, value;
    ghost var before := dst[..];
    ghost var written: seq<uint8> := [];
    while v >= 128
      invariant ptr == at + |written| < dst.Length
      invariant Halfway(before, at, written, dst[..]) && StillToWrite(written, v, value)
    {
      WriterStep(before, at, written, dst[..], v, value);
      ptr := Emit(dst, ptr, LowByte(Or(v, 128)));
      written := written + [LowByte(Or(v, 128))];
      v := Shr(v, 7);
    }
    LastByte(before, at, written, dst[..], v, value);
    ptr := Emit(dst, ptr, LowByte(v));
    end := ptr;
  }

  /** Counting the bytes without writing them. */
  method VarintLength(value: uint64) returns (len: nat)
    ensures len == |Varint(value)|
    ensures 1 <= len <= 10
    ensures value < Pow2(7 * len) && (len > 1 ==> Pow2(7 * (len - 1)) <= value)
  {
    len := 1;
    var v: uint64 := value;
    while v >= 128
      invariant len - 1 + |Varint(v)| == |Varint(value)|
    {
      SevenBits(v);
      v := Shr(v, 7);
      len := len + 1;
    }
    LengthExact(value, len);
    LengthFits(value, W64);
  }

  method PutVarint32(dst: StringBuffer, v: uint32)
    modifies dst
    ensures dst.bytes == old(dst.bytes) + Varint(v)
  {
    var buf := new uint8[5];
    LengthFits(v, W32);
    var ptr := EncodeVarint32(buf, 0, v);
    assert buf[0..ptr] == buf[..][0..0 + |Varint(v)|];
    dst.Append(buf, 0, ptr);
  }

  method PutVarint64(dst: StringBuffer, v: uint64)
    modifies dst
    ensures dst.bytes == old(dst.bytes) + Varint(v)
  {
    var buf := new uint8[10];
    LengthFits(v, W64);
    var ptr := EncodeVarint64(buf, 0, v);
    assert buf[0..ptr] == buf[..][0..0 + |Varint(v)|];
    dst.Append(buf, 0, ptr);
  }

  // Readers. The result is the position past the value, or None for a null pointer.

  method GetVarint32PtrFallback(buf: array<uint8>, start: nat, limit: nat, value: Ref<uint32>)
    returns (end: Option<nat>)
    requires start <= limit <= buf.Length
    modifies value
    ensures Reads(W32, buf[start..limit], start, end, old(value.val), value.val)
  {
    var p: nat := start;
    var result: uint32 := 0;
    var shift: nat := 0;
    ghost var s, groups: seq<uint8> := buf[start..limit], [];
    while shift <= 28 && p < limit
      invariant start <= p <= limit && groups == s[..p - start]
      invariant shift == 7 * |groups| && |groups| <= 5
      invariant value.val == old(value.val)
      invariant forall i :: 0 <= i < |groups| ==> groups[i] >= 128
      invariant result == W32.Truncate(Val(groups))
      decreases limit - p
    {
      var byte := buf[p];
      p := p + 1;
      ReaderStep(groups, byte, result, shift, W32);
      assert byte == s[|groups|];
      TakeMore(s, |groups|);
      if And(byte, 128) != 0 {
        result := Or(result, Shl(And(byte, 127), shift, 32));
      } else {
        result := Or(result, Shl(byte, shift, 32));
        value.val := result;
        GroupRead(W32, s, groups + [byte]);
        return Some(p);
      }
      groups := groups + [byte];
      shift := shift + 7;
    }
    NothingRead(W32, s, groups);
    return None;
  }

  /** The inline front of the 32-bit reader: a single byte needs no loop. */
  method GetVarint32Ptr(buf: array<uint8>, p: nat, limit: nat, value: Ref<uint32>)
    returns (end: Option<nat>)
    requires p <= limit <= buf.Length
    modifies value
    ensures Reads(W32, buf[p..limit], p, end, old(value.val), value.val)
  {
    if p < limit {
      var result := buf[p];
      AndByte(result);
      if And(result, 128) == 0 {
        value.val := result;
        SingleByteRead(buf[p..limit]);
        return Some(p + 1);
      }
    }
    end := GetVarint32PtrFallback(buf, p, limit, value);
  }

  method GetVarint64Ptr(buf: array<uint8>, start: nat, limit: nat, value: Ref<uint64>)
    returns (end: Option<nat>)
    requires start <= limit <= buf.Length
    modifies value
    ensures Reads(W64, buf[start..limit], start, end, old(value.val), value.val)
  {
    var p: nat := start;
    var result: uint64 := 0;
    var shift: nat := 0;
    ghost var s, groups: seq<uint8> := buf[start..limit], [];
    while shift <= 63 && p < limit
      invariant start <= p <= limit && groups == s[..p - start]
      invariant shift == 7 * |groups| && |groups| <= 10
      invariant value.val == old(value.val)
      invariant forall i :: 0 <= i < |groups| ==> groups[i] >= 128
      invariant result == W64.Truncate(Val(groups))
      decreases limit - p
    {
      var byte := buf[p];
      p := p + 1;
      ReaderStep(groups, byte, result, shift, W64);
      assert byte == s[|groups|];
      TakeMore(s, |groups|);
      if And(byte, 128) != 0 {
        result := Or(result, Shl(And(byte, 127), shift, 64));
      } else {
        result := Or(result, Shl(byte, shift, 64));
        value.val := result;
        GroupRead(W64, s, groups + [byte]);
        return Some(p);
      }
      groups := groups + [byte];
      shift := shift + 7;
    }
    NothingRead(W64, s, groups);
    return None;
  }

  method GetVarint32(input: StringView, value: Ref<uint32>) returns (ok: bool)
    requires input.Valid()
    modifies input, value
    ensures input.Valid() && input.data == old(input.data)
    ensures Advances(W32, old(input.View()), input.View(), ok, old(value.val), value.val)
  {
    var p := input.start;
    var limit := p + input.size;
    var q := GetVarint32Ptr(input.data, p, limit, value);
    if q == None {
      return false;
    }
    input.Assign(input.data, q.value, limit - q.value);
    return true;
  }

  method GetVarint64(input: StringView, value: Ref<uint64>) returns (ok: bool)
    requires input.Valid()
    modifies input, value
    ensures input.Valid() && input.data == old(input.data)
    ensures Advances(W64, old(input.View()), input.View(), ok, old(value.val), value.val)
  {
    var p := input.start;
    var limit := p + input.size;
    var q := GetVarint64Ptr(input.data, p, limit, value);
    if q == None {
      return false;
    }
    input.Assign(input.data, q.value, limit - q.value);
    return true;
  }

  // What a reader promises

  /** A pointer reader: past the value it stored, or null with the target untouched. */
  ghost predicate Reads(w: Width, s: seq<uint8>, p: nat, end: Option<nat>, before: nat, after: nat) {
    match Parse(s, w)
    case None => end == None && after == before
    case Some(r) => end == Some(p + r.size) && after == r.value
  }

  /** A view reader: the view drops exactly the value's bytes, or stays as it was. */
  ghost predicate Advances(w: Width, s: seq<uint8>, rest: seq<uint8>, ok: bool, before: nat, after: nat) {
    match Parse(s, w)
    case None => !ok && rest == s && after == before
    case Some(r) => ok && rest == s[r.size..] && after == r.value
  }

  // Lemmas for the loops

  lemma {:induction false} SevenBits(v: nat)
    ensures Shr(v, 7) == v / 128
  {
    PowLiterals();
    LowBitsModulus(v, 7, 128);
  }

  /** What one turn of the writing loop, or one line of an unrolled branch, has to store. */
  lemma {:induction false} VarintHead(v: nat)
    ensures Shr(v, 7) == v / 128
    ensures v < 128 ==> Varint(v) == [LowByte(v)]
    ensures v >= 128 ==> Varint(v) == [LowByte(Or(v, 128))] + Varint(Shr(v, 7))
  {
    SevenBits(v);
    if v >= 128 {
      OrContinuationBit(v);
    }
  }

  /** The buffer after the bytes written so far. Quantified only to keep `Overwrite` out of the loop's proof. */
  ghost predicate Halfway(before: seq<uint8>, at: nat, written: seq<uint8>, now: seq<uint8>) {
    && at + |written| <= |before|
    && forall bs :: bs == written ==> now == Overwrite(before, at, bs)
  }

  /** What is still to be written spells what remains of the value. Quantified in the same way. */
  ghost predicate StillToWrite(written: seq<uint8>, v: nat, value: nat) {
    forall u: nat :: u == v ==> written + Varint(u) == Varint(value)
  }

  lemma {:induction false} WriterStep(before: seq<uint8>, at: nat, written: seq<uint8>, now: seq<uint8>, v: nat,
                                      value: nat)
    requires v >= 128 && at + |Varint(value)| <= |before|
    requires Halfway(before, at, written, now) && StillToWrite(written, v, value)
    ensures var byte := LowByte(Or(v, 128));
            && at + |written| + 1 < |before| == |now| && Shr(v, 7) == v / 128
            && Halfway(before, at, written + [byte], now[at + |written| := byte])
            && StillToWrite(written + [byte], Shr(v, 7), value)
  {
    var byte := LowByte(Or(v, 128));
    VarintHead(v);
    assert written + Varint(v) == Varint(value);
    assert now == Overwrite(before, at, written);
    Regroup(written, [byte], Varint(Shr(v, 7)));
    OverwriteMore(before, at, written, byte);
  }

  lemma {:induction false} LastByte(before: seq<uint8>, at: nat, written: seq<uint8>, now: seq<uint8>, v: nat,
                                    value: nat)
    requires v < 128 && at + |Varint(value)| <= |before|
    requires Halfway(before, at, written, now) && StillToWrite(written, v, value)
    ensures at + |written| < |before| == |now| && at + |written| + 1 == at + |Varint(value)|
    ensures now[at + |written| := LowByte(v)] == Overwrite(before, at, Varint(value))
  {
    VarintHead(v);
    assert written + Varint(v) == Varint(value);
    assert now == Overwrite(before, at, written);
    OverwriteMore(before, at, written, LowByte(v));
  }

  /** The five branches spell out the recursion of `Varint`. */
  lemma {:induction false} UnrolledBytes(v: uint32)
    ensures Varint(v) ==
            if v < 0x80 then [LowByte(v)]
            else if v < 0x4000 then [LowByte(Or(v, 128)), LowByte(Shr(v, 7))]
            else if v < 0x20_0000 then
              [LowByte(Or(v, 128)), LowByte(Or(Shr(v, 7), 128)), LowByte(Shr(v, 14))]
            else if v < 0x1000_0000 then
              [LowByte(Or(v, 128)), LowByte(Or(Shr(v, 7), 128)), LowByte(Or(Shr(v, 14), 128)), LowByte(Shr(v, 21))]
            else
              [LowByte(Or(v, 128)), LowByte(Or(Shr(v, 7), 128)), LowByte(Or(Shr(v, 14), 128)),
               LowByte(Or(Shr(v, 21), 128)), LowByte(Shr(v, 28))]
  {
    var v1 := Shr(v, 7);
    var v2 := Shr(v1, 7);
    var v3 := Shr(v2, 7);
    var v4 := Shr(v3, 7);
    ShrSum(v, 7, 7);
    ShrSum(v, 14, 7);
    ShrSum(v, 21, 7);
    VarintHead(v);
    VarintHead(v1);
    VarintHead(v2);
    VarintHead(v3);
    VarintHead(v4);
  }

  /** One turn of a reader's loop adds one group, reduced to the word. */
  lemma {:induction false} Accumulate(groups: seq<uint8>, byte: uint8, payload: nat, result: nat, shift: nat, w: Width)
    requires |groups| < w.MaxBytes() && result == w.Truncate(Val(groups))
    requires shift == 7 * |groups|
    requires payload == if byte < 128 then byte else byte - 128
    ensures Or(result, Shl(payload, shift, w.Bits())) == w.Truncate(Val(groups + [byte]))
  {
    NothingLost(groups, w);
    OneMoreGroup(groups, byte, payload, shift);
    OrShl(result, payload, shift, w.Bits());
    ToWord(result + payload * Pow2(shift), w);
  }

  lemma {:induction false} OneMoreGroup(groups: seq<uint8>, byte: uint8, payload: nat, shift: nat)
    requires shift == 7 * |groups| && payload == if byte < 128 then byte else byte - 128
    ensures Val(groups + [byte]) == Val(groups) + payload * Pow2(shift)
  {
    assert payload == byte % 128;
    ValSnoc(groups, byte);
  }

  /** Before the last possible byte the word still holds the whole number. */
  lemma {:induction false} NothingLost(groups: seq<uint8>, w: Width)
    requires |groups| < w.MaxBytes()
    ensures w.Truncate(Val(groups)) == Val(groups) < Pow2(7 * |groups|)
    ensures 7 * |groups| <= w.Bits()
  {
    ValBound(groups);
    PowMonotone(7 * |groups|, w.Bits());
    WidthPowers(w);
    ModFits(Val(groups), w);
  }

  /** The same, for the two branches of the loop. */
  lemma {:induction false} ReaderStep(groups: seq<uint8>, byte: uint8, result: nat, shift: nat, w: Width)
    requires |groups| < w.MaxBytes() && result == w.Truncate(Val(groups)) && shift == 7 * |groups|
    ensures And(byte, 128) == 0 <==> byte < 128
    ensures byte >= 128 ==>
              Or(result, Shl(And(byte, 127), shift, w.Bits())) == w.Truncate(Val(groups + [byte]))
    ensures byte < 128 ==>
              Or(result, Shl(byte, shift, w.Bits())) == w.Truncate(Val(groups + [byte]))
  {
    AndByte(byte);
    Accumulate(groups, byte, And(byte, 127), result, shift, w);
    if byte < 128 {
      Accumulate(groups, byte, byte, result, shift, w);
    }
  }

  lemma {:induction false} GroupRead(w: Width, s: seq<uint8>, bs: seq<uint8>)
    requires bs <= s && Terminated(bs) && |bs| <= w.MaxBytes()
    ensures Parse(s, w) == Some(Parsed(w.Truncate(Val(bs)), |bs|))
  {
    assert s == bs + s[|bs|..];
    ParseGroup(bs, s[|bs|..], w);
  }

  lemma {:induction false} SingleByteRead(s: seq<uint8>)
    requires s != [] && s[0] < 128
    ensures Parse(s, W32) == Some(Parsed(s[0], 1))
  {
    assert s[..1] == [s[0]];
    GroupRead(W32, s, [s[0]]);
  }

  lemma {:induction false} NothingRead(w: Width, s: seq<uint8>, groups: seq<uint8>)
    requires groups <= s && (groups == s || |groups| >= w.MaxBytes())
    requires forall i :: 0 <= i < |groups| ==> groups[i] >= 128
    ensures Parse(s, w) == None
  {
    ScanMisses(s, w.MaxBytes());
  }
}
