/**
 The writer and the reader of the write-ahead log, as objects over a file. The writer is proved to
 leave `WriteLog` of every record added, the reader, which sees the file through a buffer of one
 block, to return what `NextFragment` and `ReadRecord` say about plain file offsets.
 */
module WalLog {
  import opened Words
  import opened Memory
  import opened Leb128
  import opened FixedCoding
  import opened WalFormat

  class Writer {
    const step: ByteStep
    const dest: StringBuffer
    const typeCrc: array<uint32>
    var blockOffset: nat

    /** What the file held before, and every record added since. */
    ghost const before: seq<uint8>
    ghost var records: seq<seq<uint8>>

    ghost predicate Valid()
      reads this, dest, typeCrc
    {
      && typeCrc.Length == 5
      && (forall t: uint8 :: t < 5 ==> typeCrc[t] == Checksum(step, [t]))
      && blockOffset <= BLOCK
      && Holding(step, before, records, Written(dest.bytes, blockOffset))
    }

    /** Starts a log in a file of `destLength` bytes; a new file has none. */
    constructor (step: ByteStep, dest: StringBuffer, destLength: nat)
      requires destLength == |dest.bytes|
      ensures Valid() && fresh(typeCrc)
      ensures this.step == step && this.dest == dest && before == dest.bytes && records == []
    {
      this.step, this.dest := step, dest;
      blockOffset := destLength % BLOCK;
      before, records := dest.bytes, [];
      typeCrc := new uint32[5];
      new;
      for i := 0 to 5
        modifies typeCrc
        invariant forall t: uint8 :: t < i ==> typeCrc[t] == Checksum(step, [t])
      {
        typeCrc[i] := Checksum(step, [i]);
      }
    }

    method AddRecord(slice: StringView)
      requires Valid() && slice.Valid()
      modifies `blockOffset, `records, dest
      ensures Valid() && records == old(records) + [old(slice.View())]
      ensures Written(dest.bytes, blockOffset) == LogFile(step, before, records)
    {
      ghost var data, w := slice.View(), Written(dest.bytes, blockOffset);
      AddFragments(slice);
      OneMoreRecord(step, before, records, data, w, Written(dest.bytes, blockOffset));
      records := records + [data];
    }

    method AddFragments(slice: StringView)
      requires slice.Valid() && blockOffset <= BLOCK
      requires typeCrc.Length == 5 && forall t: uint8 :: t < 5 ==> typeCrc[t] == Checksum(step, [t])
      modifies `blockOffset, dest
      ensures blockOffset <= BLOCK
      ensures Written(dest.bytes, blockOffset)
           == Goal(step, old(dest.bytes), old(blockOffset), old(slice.View()), true)
    {
      ghost var goal := Goal(step, dest.bytes, blockOffset, slice.View(), true);
      var ptr: nat, left: nat := slice.start, slice.size;
      ghost var stop := ptr + left;
      var begin, more := true, true;
      while more
        modifies `blockOffset, dest
        invariant ptr + left == stop && blockOffset <= BLOCK
        invariant if more then WillBe(step, dest.bytes, blockOffset, slice.data[ptr..stop], begin, goal)
                  else goal == Written(dest.bytes, blockOffset)
        decreases more, left, if Room(blockOffset) == 0 then 1 else 0
      {
        var fragmentLength := AddFragment(slice.data, ptr, left, begin, goal);
        ptr, left := ptr + fragmentLength, left - fragmentLength;
        begin := false;
        more := left > 0;
      }
    }

    /** One turn of the loop: the next fragment of the `left` bytes at `ptr`. */
    method AddFragment(data: array<uint8>, ptr: nat, left: nat, begin: bool, ghost goal: Written)
      returns (fragmentLength: nat)
      requires blockOffset <= BLOCK && ptr + left <= data.Length
      requires typeCrc.Length == 5 && forall t: uint8 :: t < 5 ==> typeCrc[t] == Checksum(step, [t])
      requires WillBe(step, dest.bytes, blockOffset, data[ptr..ptr + left], begin, goal)
      modifies `blockOffset, dest
      ensures blockOffset <= BLOCK && fragmentLength <= left
      ensures fragmentLength == 0 && left > 0 ==> Room(old(blockOffset)) == 0 && Room(blockOffset) > 0
      ensures if fragmentLength == left then goal == Written(dest.bytes, blockOffset)
              else WillBe(step, dest.bytes, blockOffset, data[ptr + fragmentLength..ptr + left], false, goal)
    {
      ghost var b, file, rest := blockOffset, dest.bytes, data[ptr..ptr + left];
      fragmentLength := EmitFragment(data, ptr, left, begin);
      Slices(data, ptr, fragmentLength, left);
      CloserToGoal(step, file, b, rest, begin, fragmentLength, dest.bytes, goal);
    }

    method EmitFragment(data: array<uint8>, ptr: nat, left: nat, begin: bool) returns (fragmentLength: nat)
      requires blockOffset <= BLOCK && ptr + left <= data.Length
      requires typeCrc.Length == 5 && forall t: uint8 :: t < 5 ==> typeCrc[t] == Checksum(step, [t])
      modifies `blockOffset, dest
      ensures fragmentLength == Min(left, Room(old(blockOffset)))
      ensures blockOffset == Begin(old(blockOffset)) + HEADER + fragmentLength
      ensures dest.bytes == old(dest.bytes) + Zeros(Padding(old(blockOffset)))
                          + Physical(step, FragmentType(begin, fragmentLength == left), data[ptr..ptr + fragmentLength])
    {
      FillBlock();
      var avail := BLOCK - blockOffset - HEADER;
      fragmentLength := if left < avail then left else avail;
      var end := left == fragmentLength;
      var kind :=
        if begin && end then FULL else if begin then FIRST else if end then LAST else MIDDLE;
      EmitPhysicalRecord(kind, data, ptr, fragmentLength);
    }

    /** Where no header fits any more, the rest of the block becomes zeros. */
    method FillBlock()
      requires blockOffset <= BLOCK
      modifies `blockOffset, dest
      ensures dest.bytes == old(dest.bytes) + Zeros(Padding(old(blockOffset)))
      ensures |dest.bytes| - |old(dest.bytes)|
           == if 32761 < old(blockOffset) < 32768 then 32768 - old(blockOffset) else 0
      ensures forall i :: |old(dest.bytes)| <= i < |dest.bytes| ==> dest.bytes[i] == 0
      ensures blockOffset == if old(blockOffset) <= 32761 then old(blockOffset) else 0
    {
      var leftover := BLOCK - blockOffset;
      if leftover < HEADER {
        if leftover > 0 {
          var zeros := new uint8[6](_ => 0);
          dest.Append(zeros, 0, leftover);
        }
        blockOffset := 0;
      }
    }

    method EmitPhysicalRecord(t: uint8, data: array<uint8>, start: nat, length: nat)
      requires typeCrc.Length == 5 && t < 5 && typeCrc[t] == Checksum(step, [t])
      requires start + length <= data.Length && length <= 0xffff && blockOffset + HEADER + length <= BLOCK
      modifies `blockOffset, dest
      ensures blockOffset == old(blockOffset) + HEADER + length
      ensures dest.bytes == old(dest.bytes) + Physical(step, t, data[start..start + length])
    {
      var crc := Extend(step, typeCrc[t], data[start..start + length]);
      ChecksumContinues(step, t, data[start..start + length]);
      var buf := PhysicalHeader(t, length, crc);
      assert buf[0..HEADER] == buf[..];
      dest.Append(buf, 0, HEADER);
      dest.Append(data, start, length);
      Regroup(old(dest.bytes), buf[..], data[start..start + length]);
      blockOffset := blockOffset + HEADER + length;
    }

    /** The seven bytes in front of a fragment. */
    method PhysicalHeader(t: uint8, length: nat, crc: uint32) returns (buf: array<uint8>)
      requires length <= 0xffff
      ensures fresh(buf) && buf.Length == HEADER
      ensures buf[..] == Fixed(crc, 4) + [length % 0x100, length / 0x100, t]
    {
      buf := new uint8[HEADER];
      LengthBytes(length);
      buf[4] := And(length, 0xff);
      buf[5] := LowByte(Shr(length, 8));
      buf[6] := t;
      ghost var tail := [length % 0x100, length / 0x100, t];
      assert buf[4..] == tail;
      EncodeFixed32(buf, 0, crc);
    }
  }

  lemma {:induction false} Slices(data: array<uint8>, ptr: nat, n: nat, left: nat)
    requires n <= left && ptr + left <= data.Length
    ensures data[ptr..ptr + n] == data[ptr..ptr + left][..n]
    ensures data[ptr + n..ptr + left] == data[ptr..ptr + left][n..]
  {
  }

  lemma {:induction false} LengthBytes(length: nat)
    requires length <= 0xffff
    ensures And(length, 0xff) == length % 0x100 && LowByte(Shr(length, 8)) == length / 0x100
  {
    PowLiterals();
    AndMask(length, 8);
    LowBitsModulus(length, 8, 0x100);
  }

  /** What the file and the position in the block will be when the rest of a record is written. */
  ghost function Goal(step: ByteStep, file: seq<uint8>, b: nat, rest: seq<uint8>, begin: bool): Written {
    var w := Frames(step, b, rest, begin);
    Written(file + w.bytes, w.position)
  }

  /** Quantified only to keep `Frames` out of the writer's loop. */
  ghost predicate WillBe(step: ByteStep, file: seq<uint8>, b: nat, rest: seq<uint8>, begin: bool, goal: Written) {
    forall data :: data == rest ==> Goal(step, file, b, data, begin) == goal
  }

  /** Writing a fragment does not change that. */
  lemma {:induction false} CloserToGoal(step: ByteStep, file: seq<uint8>, b: nat, rest: seq<uint8>, begin: bool,
                                        n: nat, after: seq<uint8>, goal: Written)
    requires b <= BLOCK && n == Min(|rest|, Room(b)) && WillBe(step, file, b, rest, begin, goal)
    requires after == file + Zeros(Padding(b)) + Physical(step, FragmentType(begin, n == |rest|), rest[..n])
    ensures if n == |rest| then goal == Written(after, Begin(b) + HEADER + n)
            else WillBe(step, after, Begin(b) + HEADER + n, rest[n..], false, goal)
  {
    assert goal == Goal(step, file, b, rest, begin);
    var pad, piece := Zeros(Padding(b)), Physical(step, FragmentType(begin, n == |rest|), rest[..n]);
    Regroup(file, pad, piece);
    if n < |rest| {
      var more := Frames(step, Begin(b) + HEADER + n, rest[n..], false).bytes;
      Regroup(file, pad + piece, more);
    }
  }

  /** What a file becomes that held `before` when a log is started in it. */
  ghost function LogFile(step: ByteStep, before: seq<uint8>, records: seq<seq<uint8>>): Written {
    var w := WriteLog(step, |before| % BLOCK, records);
    Written(before + w.bytes, w.position)
  }

  /** These are the file and the position. Quantified only to keep the log out of a caller's proof. */
  ghost predicate Holding(step: ByteStep, before: seq<uint8>, records: seq<seq<uint8>>, w: Written) {
    forall rs :: rs == records ==> LogFile(step, before, rs) == w
  }

  lemma {:induction false} OneMoreRecord(step: ByteStep, before: seq<uint8>, records: seq<seq<uint8>>,
                                         data: seq<uint8>, w: Written, now: Written)
    requires Holding(step, before, records, w) && now == Goal(step, w.bytes, w.position, data, true)
    ensures Holding(step, before, records + [data], now)
  {
    OneMoreInFile(step, before, records, data);
    assert w == LogFile(step, before, records);
  }

  lemma {:induction false} OneMoreInFile(step: ByteStep, before: seq<uint8>, records: seq<seq<uint8>>, data: seq<uint8>)
    ensures var w := LogFile(step, before, records);
            LogFile(step, before, records + [data]) == Goal(step, w.bytes, w.position, data, true)
  {
    var b := |before| % BLOCK;
    LogContinues(step, b, records, [data]);
    LogOfOne(step, WriteLog(step, b, records).position, data);
    Regroup(before, WriteLog(step, b, records).bytes,
            WriteLog(step, WriteLog(step, b, records).position, [data]).bytes);
  }

  lemma {:induction false} LogOfOne(step: ByteStep, b: nat, data: seq<uint8>)
    ensures WriteLog(step, b, [data]) == Frames(step, b, data, true)
  {
    var w := Frames(step, b, data, true);
    assert [data][1..] == [];
    Units(w.bytes);
  }

  /** A file read from front to back. */
  class SequentialFile {
    const contents: seq<uint8>
    var pos: nat

    constructor (contents: seq<uint8>)
      ensures this.contents == contents && pos == 0
    {
      this.contents, pos := contents, 0;
    }

    /** Up to `n` bytes, fewer only at the end of the file. */
    method Read(n: nat) returns (chunk: seq<uint8>)
      requires pos <= |contents|
      modifies this
      ensures pos == Min(old(pos) + n, |contents|) && chunk == contents[old(pos)..pos]
    {
      var end := Min(pos + n, |contents|);
      chunk := contents[pos..end];
      pos := end;
    }
  }

  class Reader {
    const file: SequentialFile
    const step: ByteStep
    const checksum: bool
    var buffer: seq<uint8>
    var eof: bool
    var endOfBufferOffset: nat
    /** The reports made to the `Reporter`: how many, of how many bytes. */
    var reports: nat
    var lost: nat

    /** The buffer is a tail of one block, and the file is positioned behind it. */
    ghost predicate Valid()
      reads this, file
    {
      && file.pos == endOfBufferOffset <= |file.contents|
      && |buffer| <= endOfBufferOffset
      && buffer == file.contents[endOfBufferOffset - |buffer|..endOfBufferOffset]
      && if eof then endOfBufferOffset == |file.contents| && |buffer| <= endOfBufferOffset % BLOCK
         else endOfBufferOffset % BLOCK == 0 && |buffer| <= BLOCK
    }

    /** The file offset of the next unread byte. */
    ghost function Position(): (o: nat)
      requires Valid()
      reads this, file
      ensures o <= |file.contents|
    {
      endOfBufferOffset - |buffer|
    }

    constructor (file: SequentialFile, step: ByteStep, checksum: bool)
      requires file.pos == 0
      ensures Valid() && Position() == 0 && reports == 0 && lost == 0
      ensures this.file == file && this.step == step && this.checksum == checksum
    {
      this.file, this.step, this.checksum := file, step, checksum;
      buffer, eof, endOfBufferOffset := [], false, 0;
      reports, lost := 0, 0;
    }

    method ReportCorruption(bytes: nat)
      modifies `reports, `lost
      ensures reports == old(reports) + 1 && lost == old(lost) + bytes
    {
      reports, lost := reports + 1, lost + bytes;
    }

    /** Makes sure that the buffer holds a header, reading the next block if there is one. */
    method Refill() returns (ok: bool)
      requires Valid()
      modifies `buffer, `eof, `endOfBufferOffset, file
      ensures Valid()
      ensures var s := old(Position()) + Padding(old(Position()) % BLOCK);
              if s + HEADER <= |file.contents| then ok && |buffer| >= HEADER && Position() == s
              else !ok && Position() == |file.contents|
    {
      InBlock(endOfBufferOffset, |buffer|, eof);
      ghost var refilled := false;
      while |buffer| < HEADER
        invariant Valid()
        invariant if refilled then !old(eof) && old(|buffer|) < HEADER && Position() == old(endOfBufferOffset)
                  else buffer == old(buffer) && eof == old(eof) && endOfBufferOffset == old(endOfBufferOffset)
        invariant refilled ==> eof || |buffer| == BLOCK
        decreases !eof, !refilled
      {
        if !eof {
          ReadBlock();
          refilled := true;
        } else {
          buffer := [];
          return false;
        }
      }
      return true;
    }

    method ReadBlock()
      requires Valid() && !eof
      modifies `buffer, `eof, `endOfBufferOffset, file
      ensures Valid() && Position() == old(endOfBufferOffset) && (eof || |buffer| == BLOCK)
    {
      buffer := file.Read(BLOCK);
      endOfBufferOffset := endOfBufferOffset + |buffer|;
      if |buffer| < BLOCK {
        eof := true;
      }
    }

    /** The next fragment and its type, or EOF, or BAD. */
    method ReadPhysicalRecord() returns (kind: nat, data: seq<uint8>)
      requires Valid()
      modifies `buffer, `eof, `endOfBufferOffset, `reports, `lost, file
      ensures Valid()
      ensures var f := NextFragment(step, checksum, file.contents, old(Position()));
              && kind == f.kind && data == f.data && Position() == f.next
              && reports == old(reports) + Count(f.damage) && lost == old(lost) + Bytes(f.damage)
    {
      ghost var o := Position();
      var ok := Refill();
      if !ok {
        return EOF, [];
      }
      InBlock(endOfBufferOffset, |buffer|, eof);
      BlockOfStart(o, Position());
      ghost var bytes, f := buffer, Fragment(EOF, [], 0, None);
      kind, data, f := ParseBuffer();
      InBuffer(step, checksum, file.contents, o, bytes, eof, endOfBufferOffset, f);
    }

    /** The next logical record, put together from its fragments; None at the end of the file. */
    method ReadRecord() returns (record: Option<seq<uint8>>)
      requires Valid()
      modifies `buffer, `eof, `endOfBufferOffset, `reports, `lost, file
      ensures Valid()
      ensures var r := WalFormat.ReadRecord(step, checksum, file.contents, old(Position()), None);
              && record == r.record && Position() == r.next
              && reports == old(reports) + r.reports && lost == old(lost) + r.lost
    {
      var partial: Partial := None;
      ghost var answer := Ahead(None);
      while true
        invariant Valid()
        invariant answer == Ahead(partial)
        decreases |file.contents| - Position()
      {
        ghost var f := NextFragment(step, checksum, file.contents, Position());
        OneFragment(step, checksum, file.contents, Position(), partial, f);
        var kind, fragment := ReadPhysicalRecord();
        var finished;
        finished, record, partial := Dispatch(kind, fragment, partial);
        if finished {
          return record;
        }
      }
    }

    /** The `switch` over the fragment's type. `partial` is `scratch` while a fragmented record is being read. */
    method Dispatch(kind: nat, fragment: seq<uint8>, partial: Partial)
      returns (finished: bool, record: Option<seq<uint8>>, partial': Partial)
      requires Valid()
      modifies `reports, `lost
      ensures Valid()
      ensures var complaint := Complain(partial, kind, fragment);
              reports == old(reports) + Count(complaint) && lost == old(lost) + Bytes(complaint)
      ensures finished <==> kind == EOF || kind == FULL as int || (kind == LAST as int && partial.Some?)
      ensures finished ==> record == if kind == EOF then None else Some(if kind == FULL as int then fragment
                                                                        else Join(partial, fragment))
      ensures !finished ==> partial' == Take(partial, kind, fragment)
    {
      finished, record, partial' := false, None, partial;
      if kind == FULL as int {
        if partial.Some? && partial.value != [] {
          ReportCorruption(|partial.value|);
        }
        finished, record := true, Some(fragment);
      } else if kind == FIRST as int {
        if partial.Some? && partial.value != [] {
          ReportCorruption(|partial.value|);
        }
        partial' := Some(fragment);
      } else if kind == MIDDLE as int {
        if partial.None? {
          ReportCorruption(|fragment|);
        } else {
          partial' := Some(partial.value + fragment);
        }
      } else if kind == LAST as int {
        if partial.None? {
          ReportCorruption(|fragment|);
        } else {
          finished, record := true, Some(partial.value + fragment);
        }
      } else if kind == EOF {
        finished := true;
      } else if kind == BAD {
        if partial.Some? {
          ReportCorruption(|partial.value|);
          partial' := None;
        }
      } else {
        ReportCorruption(|fragment| + if partial.Some? then |partial.value| else 0);
        partial' := None;
      }
    }

    /** What reading on from here will have returned and reported, counting what has been reported. */
    ghost function Ahead(partial: Partial): Reading
      requires Valid()
      reads this, file
    {
      var r := WalFormat.ReadRecord(step, checksum, file.contents, Position(), partial);
      Reading(r.record, r.next, reports + r.reports, lost + r.lost)
    }

    /** The part after the refill: header, length, type and checksum. */
    method ParseBuffer() returns (kind: nat, data: seq<uint8>, ghost f: Fragment)
      requires Valid() && |buffer| >= HEADER
      modifies `buffer, `reports, `lost
      ensures Valid() && IsFirst(step, checksum, old(buffer), eof, f)
      ensures kind == f.kind && data == f.data && Position() == old(Position()) + f.next
      ensures reports == old(reports) + Count(f.damage) && lost == old(lost) + Bytes(f.damage)
    {
      var length := HeaderLength(buffer[4], buffer[5]);
      var t := buffer[6];
      f := FirstCase(step, checksum, buffer, eof, length, t);
      if HEADER + length > |buffer| {
        kind, data := if eof then EOF else BAD, [];
        Drop(!eof);
      } else if t == 0 && length == 0 {
        kind, data := BAD, [];
        Drop(false);
      } else {
        var intact := Intact(length);
        if intact {
          kind := t as nat;
          data := TakeFragment(length);
        } else {
          kind, data := BAD, [];
          Drop(true);
        }
      }
    }

    method Intact(length: nat) returns (intact: bool)
      requires HEADER + length <= |buffer|
      ensures !intact <==> checksum && FixedVal(buffer[..4]) != Checksum(step, buffer[6..HEADER + length])
    {
      if !checksum {
        return true;
      }
      var expectedCrc := DecodeFixed32(buffer);
      var actualCrc := Checksum(step, buffer[6..HEADER + length]);
      return actualCrc == expectedCrc;
    }

    /** Gives up what is left of the block. */
    method Drop(report: bool)
      requires Valid()
      modifies `buffer, `reports, `lost
      ensures Valid() && Position() == old(Position()) + |old(buffer)|
      ensures reports == old(reports) + (if report then 1 else 0)
      ensures lost == old(lost) + if report then |old(buffer)| else 0
    {
      var dropSize := |buffer|;
      buffer := [];
      if report {
        ReportCorruption(dropSize);
      }
    }

    method TakeFragment(length: nat) returns (data: seq<uint8>)
      requires Valid() && HEADER + length <= |buffer|
      modifies `buffer
      ensures Valid() && Position() == old(Position()) + HEADER + length
      ensures data == old(buffer[HEADER..HEADER + length])
    {
      data := buffer[HEADER..HEADER + length];
      buffer := buffer[HEADER + length..];
    }
  }

  /** What a buffer yields. Quantified only to keep `FirstInBuffer` out of the methods' proofs. */
  ghost predicate IsFirst(step: ByteStep, verify: bool, buffer: seq<uint8>, eof: bool, f: Fragment) {
    |buffer| >= HEADER && forall bs :: bs == buffer ==> FirstInBuffer(step, verify, bs, eof) == f
  }

  lemma {:induction false} FirstCase(step: ByteStep, verify: bool, buffer: seq<uint8>, eof: bool, length: nat,
                                     t: uint8)
    returns (f: Fragment)
    requires |buffer| >= HEADER && length == Length(buffer[4], buffer[5]) && t == buffer[6]
    ensures IsFirst(step, verify, buffer, eof, f)
    ensures f == if HEADER + length > |buffer| then
                   if eof then Fragment(EOF, [], |buffer|, None) else Fragment(BAD, [], |buffer|, Some(|buffer|))
                 else if t == 0 && length == 0 then Fragment(BAD, [], |buffer|, None)
                 else if verify && FixedVal(buffer[..4]) != Checksum(step, buffer[6..HEADER + length]) then
                   Fragment(BAD, [], |buffer|, Some(|buffer|))
                 else Fragment(t, buffer[HEADER..HEADER + length], HEADER + length, None)
  {
    f := FirstInBuffer(step, verify, buffer, eof);
  }

  /** A buffer that starts where the next fragment does yields it. */
  lemma {:induction false} InBuffer(step: ByteStep, verify: bool, file: seq<uint8>, o: nat, buffer: seq<uint8>,
                                    eof: bool, end: nat, f: Fragment)
    requires o <= |file| && |buffer| <= end <= |file| && buffer == file[end - |buffer|..end]
    requires IsFirst(step, verify, buffer, eof, f)
    requires var s := o + Padding(o % BLOCK);
             && end - |buffer| == s && s % BLOCK == Begin(o % BLOCK)
             && (if eof then end == |file| && end < s - s % BLOCK + BLOCK else s - s % BLOCK + BLOCK == end)
    ensures NextFragment(step, verify, file, o) == Fragment(f.kind, f.data, end - |buffer| + f.next, f.damage)
  {
    assert f == FirstInBuffer(step, verify, buffer, eof);
  }

  /** One turn of the reader of logical records. */
  lemma {:induction false} OneFragment(step: ByteStep, verify: bool, file: seq<uint8>, o: nat, partial: Partial,
                                       f: Fragment)
    requires o <= |file| && f == NextFragment(step, verify, file, o)
    ensures var complaint := Complain(partial, f.kind, f.data);
            var reports, lost := Count(f.damage) + Count(complaint), Bytes(f.damage) + Bytes(complaint);
            var r := WalFormat.ReadRecord(step, verify, file, o, partial);
            if f.kind == EOF then r == Reading(None, f.next, reports, lost)
            else if f.kind == FULL || (f.kind == LAST && partial.Some?) then
              r == Reading(Some(if f.kind == FULL then f.data else Join(partial, f.data)), f.next, reports, lost)
            else
              var later := WalFormat.ReadRecord(step, verify, file, f.next, Take(partial, f.kind, f.data));
              r == Reading(later.record, later.next, reports + later.reports, lost + later.lost)
  {
  }

  lemma {:induction false} BlockOfStart(o: nat, s: nat)
    requires s == o + Padding(o % BLOCK)
    ensures s % BLOCK == Begin(o % BLOCK)
  {
  }

  /** The 16-bit length from its two bytes, put together as 32-bit words. */
  method HeaderLength(a: uint8, b: uint8) returns (length: nat)
    ensures length == Length(a, b)
  {
    LengthSums(a, b);
    length := Or(And(a, 0xff), Shl(And(b, 0xff), 8, 32));
  }

  lemma {:induction false} LengthSums(low: uint8, high: uint8)
    ensures Or(And(low, 0xff), Shl(And(high, 0xff), 8, 32)) == Length(low, high)
  {
    PowLiterals();
    AndMask(low, 8);
    AndMask(high, 8);
    LowBitsSmall(low, 8);
    LowBitsSmall(high, 8);
    OrShl(low, high, 8, 32);
    LowBitsSmall(low + high * 0x100, 32);
  }

  /** Where a buffer of `n` bytes that ends at `end` starts, and where its block ends. */
  lemma {:induction false} InBlock(end: nat, n: nat, eof: bool)
    requires n <= end && if eof then n <= end % BLOCK else end % BLOCK == 0 && n <= BLOCK
    ensures var p := end - n;
            && (n >= HEADER ==> Padding(p % BLOCK) == 0 && Begin(p % BLOCK) == p % BLOCK)
            && (n > 0 ==> if eof then end < p - p % BLOCK + BLOCK else p - p % BLOCK + BLOCK == end)
            && (!eof && n < HEADER ==> p + Padding(p % BLOCK) == end)
  {
  }
}
