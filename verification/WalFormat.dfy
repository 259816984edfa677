/**
 The write-ahead log: blocks of 32 KiB filled with physical records of a seven-byte header and a
 fragment. A logical record is split wherever a block ends; a block's last bytes, too few for a
 header, are zeros.

 `WriteLog` is what a writer leaves in a file, `ReadLog` what a reader makes of any file, both as
 functions of plain file offsets. The main result relates them when a crash cuts the file short.
 */
module WalFormat {
  import opened Words
  import opened FixedCoding
  import opened Leb128

  const BLOCK := 32768
  const HEADER := 7

  const FULL: uint8 := 1
  const FIRST: uint8 := 2
  const MIDDLE: uint8 := 3
  const LAST: uint8 := 4
  /** What the physical reader returns besides the types that occur in a file. */
  const EOF := 5
  const BAD := 6

  // The checksum, a parameter: any function that consumes one byte at a time

  type ByteStep = (uint32, uint8) -> uint32

  function Extend(step: ByteStep, crc: uint32, bs: seq<uint8>): uint32
    decreases |bs|
  {
    if bs == [] then crc else Extend(step, step(crc, bs[0]), bs[1..])
  }

  function Checksum(step: ByteStep, bs: seq<uint8>): uint32 {
    Extend(step, 0, bs)
  }

  /** It is consumed byte by byte, from the first to the last. */
  lemma {:induction false} ChecksumConsumes(step: ByteStep, crc: uint32, bs: seq<uint8>, b: uint8)
    ensures Extend(step, crc, []) == crc && Checksum(step, [b]) == step(0, b)
    ensures Extend(step, crc, bs + [b]) == step(Extend(step, crc, bs), b)
    decreases |bs|
  {
    assert Extend(step, 0, [b]) == Extend(step, step(0, b), []);
    if bs == [] {
      assert bs + [b] == [b];
      assert Extend(step, crc, [b]) == Extend(step, step(crc, b), []);
    } else {
      TailAppend(bs, [b]);
      ChecksumConsumes(step, step(crc, bs[0]), bs[1..], b);
    }
  }

  /** The writer's precomputed checksum of the type byte, continued over the fragment. */
  lemma {:induction false} ChecksumContinues(step: ByteStep, t: uint8, bs: seq<uint8>)
    ensures Extend(step, Checksum(step, [t]), bs) == Checksum(step, [t] + bs)
  {
    assert ([t] + bs)[1..] == bs;
    assert Extend(step, 0, [t]) == Extend(step, step(0, t), []);
    assert Extend(step, 0, [t] + bs) == Extend(step, step(0, t), bs);
  }

  // Layout

  // A position in a block is a number from 0 to BLOCK; the end of a block counts as the start of the
  // next one. Where no header fits any more, a physical record starts in the next block.

  function Padding(b: nat): (n: nat)
    ensures n < HEADER
  {
    if BLOCK - HEADER < b < BLOCK then BLOCK - b else 0
  }

  function Begin(b: nat): (r: nat)
    ensures r <= BLOCK - HEADER
  {
    if b <= BLOCK - HEADER then b else 0
  }

  /** How long a fragment may be whose header is written at `b`, or in the next block. */
  function Room(b: nat): (n: nat)
    ensures n < BLOCK
  {
    BLOCK - HEADER - Begin(b)
  }

  function Physical(step: ByteStep, t: uint8, data: seq<uint8>): (r: seq<uint8>)
    requires |data| < BLOCK
    ensures |r| == HEADER + |data|
  {
    Fixed(Checksum(step, [t] + data), 4) + [|data| % 0x100, |data| / 0x100, t] + data
  }

  function FragmentType(begin: bool, end: bool): (t: uint8)
    ensures FULL <= t <= LAST
  {
    if begin && end then FULL else if begin then FIRST else if end then LAST else MIDDLE
  }

  function Zeros(n: nat): (r: seq<uint8>)
    ensures |r| == n && forall i :: 0 <= i < n ==> r[i] == 0
  {
    seq(n, _ => 0)
  }

  /** What a writer appended, and its position in the block afterwards. */
  datatype Written = Written(bytes: seq<uint8>, position: nat)

  /** One logical record, or what is left of it, written at position `b`. */
  function Frames(step: ByteStep, b: nat, data: seq<uint8>, begin: bool): (w: Written)
    decreases |data|, if Room(b) == 0 then 1 else 0
    ensures |w.bytes| >= HEADER && w.position <= BLOCK
  {
    var n := Min(|data|, Room(b));
    var end := n == |data|;
    var head := Zeros(Padding(b)) + Physical(step, FragmentType(begin, end), data[..n]);
    var next := Begin(b) + HEADER + n;
    if end then Written(head, next)
    else
      var more := Frames(step, next, data[n..], false);
      Written(head + more.bytes, more.position)
  }

  /**
   In numbers: up to six zeros where the block, of 32768 bytes, has no room for a header of seven; a
   checksum, consumed from the type on; the length, its low byte first; the type; as much of the record
   as there is room for; and in the next block the rest, if there is any.
   */
  lemma {:induction false} RecordLayout(step: ByteStep, b: nat, data: seq<uint8>, begin: bool)
    returns (bytes: seq<uint8>, rest: seq<uint8>, pad: nat, n: nat, t: uint8)
    requires b <= 32768
    ensures bytes == Frames(step, b, data, begin).bytes
    ensures pad == if 32761 < b < 32768 then 32768 - b else 0
    ensures n == Min(|data|, if b <= 32761 then 32761 - b else 32761)
    ensures t == if n == |data| then if begin then 1 else 4 else if begin then 2 else 3
    ensures pad + 7 + n <= |bytes| && forall i :: 0 <= i < pad ==> bytes[i] == 0
    ensures FixedVal(bytes[pad..pad + 4]) == Extend(step, step(0, t), data[..n])
    ensures bytes[pad + 4] == n % 256 && bytes[pad + 5] == n / 256 && bytes[pad + 6] == t
    ensures bytes[pad + 7..pad + 7 + n] == data[..n] && bytes[pad + 7 + n..] == rest
    ensures rest == if n == |data| then [] else Frames(step, 32768, data[n..], false).bytes
  {
    var zeros, piece;
    pad, n := Padding(b), Min(|data|, Room(b));
    t := FragmentType(begin, n == |data|);
    bytes, zeros, piece, rest := Pieces(step, b, data, begin, n, t);
    InNumbers(step, t, data[..n], piece);
    Spread(bytes, zeros, piece, rest, n);
  }

  lemma {:induction false} Pieces(step: ByteStep, b: nat, data: seq<uint8>, begin: bool, n: nat, t: uint8)
    returns (bytes: seq<uint8>, zeros: seq<uint8>, piece: seq<uint8>, rest: seq<uint8>)
    requires n == Min(|data|, Room(b)) && t == FragmentType(begin, n == |data|)
    ensures bytes == Frames(step, b, data, begin).bytes && bytes == zeros + piece + rest
    ensures |zeros| == Padding(b) && forall i :: 0 <= i < |zeros| ==> zeros[i] == 0
    ensures piece == Physical(step, t, data[..n])
    ensures rest == if n == |data| then [] else Frames(step, 32768, data[n..], false).bytes
  {
    zeros := Zeros(Padding(b));
    bytes, piece := Frames(step, b, data, begin).bytes, Physical(step, t, data[..n]);
    rest := if n == |data| then [] else Frames(step, 32768, data[n..], false).bytes;
    Units(zeros + piece);
  }

  lemma {:induction false} Spread(bytes: seq<uint8>, zeros: seq<uint8>, piece: seq<uint8>, rest: seq<uint8>, n: nat)
    requires bytes == zeros + piece + rest && |piece| == 7 + n && forall i :: 0 <= i < |zeros| ==> zeros[i] == 0
    ensures var pad := |zeros|;
            && |bytes| == pad + 7 + n + |rest| && bytes[pad..pad + 4] == piece[..4]
            && bytes[pad + 4] == piece[4] && bytes[pad + 5] == piece[5] && bytes[pad + 6] == piece[6]
            && bytes[pad + 7..pad + 7 + n] == piece[7..] && bytes[pad + 7 + n..] == rest
            && forall i :: 0 <= i < pad ==> bytes[i] == 0
  {
  }

  lemma {:induction false} InNumbers(step: ByteStep, t: uint8, data: seq<uint8>, p: seq<uint8>)
    requires |data| < BLOCK && p == Physical(step, t, data)
    ensures FixedVal(p[..4]) == Extend(step, step(0, t), data)
    ensures p[4] == |data| % 256 && p[5] == |data| / 256 && p[6] == t && p[7..] == data
  {
    PhysicalParts(step, t, data);
    assert ([t] + data)[1..] == data;
  }

  /** A list of logical records, one after another. */
  function WriteLog(step: ByteStep, b: nat, records: seq<seq<uint8>>): Written
    decreases |records|
  {
    if records == [] then Written([], b)
    else
      var first := Frames(step, b, records[0], true);
      var later := WriteLog(step, first.position, records[1..]);
      Written(first.bytes + later.bytes, later.position)
  }

  // Reading

  /** One physical record: its type, its fragment, where the reader is then, how many bytes it reported as damaged. */
  datatype Fragment = Fragment(kind: nat, data: seq<uint8>, next: nat, damage: Option<nat>)

  /** The 16-bit length in a header */
  function Length(low: uint8, high: uint8): nat {
    low as int + 0x100 * (high as int)
  }

  /** What the reader makes of a buffer that ends with a block or, if `eof`, before; `next` counts from its start. */
  function FirstInBuffer(step: ByteStep, verify: bool, buffer: seq<uint8>, eof: bool): (r: Fragment)
    requires |buffer| >= HEADER
    ensures HEADER <= r.next <= |buffer|
  {
    var length, t := Length(buffer[4], buffer[5]), buffer[6];
    if HEADER + length > |buffer| then
      if eof then Fragment(EOF, [], |buffer|, None) else Fragment(BAD, [], |buffer|, Some(|buffer|))
    else if t == 0 && length == 0 then Fragment(BAD, [], |buffer|, None)
    else if verify && FixedVal(buffer[..4]) != Checksum(step, buffer[6..HEADER + length]) then
      Fragment(BAD, [], |buffer|, Some(|buffer|))
    else Fragment(t, buffer[HEADER..HEADER + length], HEADER + length, None)
  }

  /** The next physical record at or behind offset `o`. */
  function NextFragment(step: ByteStep, verify: bool, file: seq<uint8>, o: nat): (r: Fragment)
    requires o <= |file|
    ensures o <= r.next <= |file| && (r.kind != EOF ==> o < r.next)
  {
    var s := o + Padding(o % BLOCK);
    if s + HEADER > |file| then Fragment(EOF, [], |file|, None)
    else
      var blockEnd := s - Begin(o % BLOCK) + BLOCK;
      var bufferEnd := Min(blockEnd, |file|);
      var f := FirstInBuffer(step, verify, file[s..bufferEnd], bufferEnd < blockEnd);
      Fragment(f.kind, f.data, s + f.next, f.damage)
  }

  /** The fragments of an unfinished record seen so far, if one has begun. */
  type Partial = Option<seq<uint8>>

  function Join(partial: Partial, data: seq<uint8>): seq<uint8> {
    if partial.Some? then partial.value + data else data
  }

  function Size(partial: Partial): nat {
    if partial.Some? then |partial.value| else 0
  }

  /** What becomes of the unfinished record when the next fragment does not complete one. */
  function Take(partial: Partial, kind: nat, data: seq<uint8>): Partial {
    if kind == FIRST then Some(data)
    else if kind == MIDDLE && partial.Some? then Some(partial.value + data)
    else None
  }

  /** What the reader of logical records reports as lost when it meets a fragment. */
  function Complain(partial: Partial, kind: nat, data: seq<uint8>): Option<nat> {
    if kind == EOF then None
    else if kind == FULL || kind == FIRST then if Size(partial) > 0 then Some(Size(partial)) else None
    else if kind == MIDDLE || kind == LAST then if partial.None? then Some(|data|) else None
    else if kind == BAD then if partial.Some? then Some(Size(partial)) else None
    else Some(|data| + Size(partial))
  }

  function Count(report: Option<nat>): nat {
    if report.Some? then 1 else 0
  }

  function Bytes(report: Option<nat>): nat {
    if report.Some? then report.value else 0
  }

  /** One logical record, or None at the end of the file; how many reports of damage, of how many bytes. */
  datatype Reading = Reading(record: Option<seq<uint8>>, next: nat, reports: nat, lost: nat)

  /** Reads on from `o` until a record is complete or the file ends. */
  function ReadRecord(step: ByteStep, verify: bool, file: seq<uint8>, o: nat, partial: Partial): (r: Reading)
    requires o <= |file|
    decreases |file| - o
    ensures o <= r.next <= |file| && (r.record.Some? ==> o < r.next)
  {
    var f := NextFragment(step, verify, file, o);
    var complaint := Complain(partial, f.kind, f.data);
    var reports, lost := Count(f.damage) + Count(complaint), Bytes(f.damage) + Bytes(complaint);
    if f.kind == EOF then Reading(None, f.next, reports, lost)
    else if f.kind == FULL then Reading(Some(f.data), f.next, reports, lost)
    else if f.kind == LAST && partial.Some? then Reading(Some(partial.value + f.data), f.next, reports, lost)
    else
      var later := ReadRecord(step, verify, file, f.next, Take(partial, f.kind, f.data));
      Reading(later.record, later.next, reports + later.reports, lost + later.lost)
  }

  /** Every record a reader returns until it first meets the end, and what it reported. */
  datatype Log = Log(records: seq<seq<uint8>>, reports: nat, lost: nat)

  function ReadLog(step: ByteStep, verify: bool, file: seq<uint8>, o: nat): Log
    requires o <= |file|
    decreases |file| - o
  {
    var r := ReadRecord(step, verify, file, o, None);
    match r.record
    case None => Log([], r.reports, r.lost)
    case Some(record) =>
      var later := ReadLog(step, verify, file, r.next);
      Log([record] + later.records, r.reports + later.reports, r.lost + later.lost)
  }

  // What a file holds at an offset

  predicate Holds(file: seq<uint8>, o: nat, bs: seq<uint8>) {
    o + |bs| <= |file| && file[o..o + |bs|] == bs
  }

  /** From `o` on, the file holds as much of `bs` as there is of the file. */
  predicate HoldsCut(file: seq<uint8>, o: nat, bs: seq<uint8>) {
    o <= |file| <= o + |bs| && file[o..] == bs[..|file| - o]
  }

  lemma {:induction false} CutConcat(file: seq<uint8>, o: nat, a: seq<uint8>, b: seq<uint8>)
    requires HoldsCut(file, o, a + b)
    ensures o + |a| <= |file| ==> Holds(file, o, a) && HoldsCut(file, o + |a|, b)
    ensures |file| < o + |a| ==> HoldsCut(file, o, a)
  {
    var here := file[o..];
    assert here == (a + b)[..|here|];
    if o + |a| <= |file| {
      assert file[o..o + |a|] == here[..|a|] == a;
      assert file[o + |a|..] == here[|a|..] == b[..|here| - |a|];
    } else {
      assert here == a[..|here|];
    }
  }

  // One fragment

  lemma {:induction false} PhysicalParts(step: ByteStep, t: uint8, data: seq<uint8>)
    requires |data| < BLOCK
    ensures var p := Physical(step, t, data);
            && FixedVal(p[..4]) == Checksum(step, [t] + data)
            && Length(p[4], p[5]) == |data| && p[6] == t
            && p[HEADER..] == data && p[6..] == [t] + data
  {
    PowLiterals();
    FixedInverts(Checksum(step, [t] + data), 4);
    assert Physical(step, t, data)[..4] == Fixed(Checksum(step, [t] + data), 4);
  }

  /** A buffer that starts with a physical record yields it. */
  lemma {:induction false} PhysicalInBuffer(step: ByteStep, verify: bool, buffer: seq<uint8>, eof: bool, t: uint8,
                                            data: seq<uint8>)
    requires |data| < BLOCK && FULL <= t && HEADER + |data| <= |buffer|
    requires buffer[..HEADER + |data|] == Physical(step, t, data)
    ensures FirstInBuffer(step, verify, buffer, eof) == Fragment(t, data, HEADER + |data|, None)
  {
    var p := buffer[..HEADER + |data|];
    PhysicalParts(step, t, data);
    assert buffer[..4] == p[..4];
    assert buffer[4] == p[4] && buffer[5] == p[5] && buffer[6] == p[6];
    assert buffer[6..HEADER + |data|] == p[6..];
    assert buffer[HEADER..HEADER + |data|] == p[HEADER..];
  }

  /** A fragment that is wholly in the file is read back, whatever comes before or after it. */
  lemma {:induction false} FragmentReadBack(step: ByteStep, verify: bool, file: seq<uint8>, o: nat, t: uint8,
                                            data: seq<uint8>)
    requires o <= |file| && FULL <= t <= LAST && |data| <= Room(o % BLOCK)
    requires Holds(file, o + Padding(o % BLOCK), Physical(step, t, data))
    ensures NextFragment(step, verify, file, o)
         == Fragment(t, data, o + Padding(o % BLOCK) + HEADER + |data|, None)
  {
    var s := o + Padding(o % BLOCK);
    var blockEnd := s - Begin(o % BLOCK) + BLOCK;
    var buffer := file[s..Min(blockEnd, |file|)];
    assert buffer[..HEADER + |data|] == file[s..s + HEADER + |data|];
    PhysicalInBuffer(step, verify, buffer, Min(blockEnd, |file|) < blockEnd, t, data);
  }

  /** A fragment whose end is missing reads as the end of the file, without a report. */
  lemma {:induction false} FragmentTorn(step: ByteStep, verify: bool, file: seq<uint8>, o: nat, t: uint8,
                                        data: seq<uint8>)
    requires |data| <= Room(o % BLOCK) && o <= |file| < o + Padding(o % BLOCK) + HEADER + |data|
    requires var s := o + Padding(o % BLOCK); s <= |file| ==> HoldsCut(file, s, Physical(step, t, data))
    ensures NextFragment(step, verify, file, o) == Fragment(EOF, [], |file|, None)
  {
    var s := o + Padding(o % BLOCK);
    if s + HEADER <= |file| {
      var p, buffer := Physical(step, t, data), file[s..];
      PhysicalParts(step, t, data);
      assert buffer[4] == p[4] && buffer[5] == p[5];
      assert FirstInBuffer(step, verify, buffer, true) == Fragment(EOF, [], |buffer|, None);
      assert file[s..|file|] == buffer;
    }
  }

  // One logical record

  /** How the reader of logical records takes an intact fragment of each type. */
  lemma {:induction false} ReadStep(step: ByteStep, verify: bool, file: seq<uint8>, o: nat, partial: Partial,
                                    end: bool, f: Fragment)
    requires o <= |file| && f == NextFragment(step, verify, file, o) && f.damage == None
    requires f.kind == FragmentType(partial.None?, end)
    ensures ReadRecord(step, verify, file, o, partial)
         == if end then Reading(Some(Join(partial, f.data)), f.next, 0, 0)
            else ReadRecord(step, verify, file, f.next, Some(Join(partial, f.data)))
  {
  }

  /** File offset `o` is at position `b` of its block. */
  predicate Aligned(o: nat, b: nat) {
    o % BLOCK == if b == BLOCK then 0 else b
  }

  lemma {:induction false} AlignedNext(o: nat, b: nat, n: nat)
    requires b <= BLOCK && Aligned(o, b) && n <= Room(b)
    ensures Padding(o % BLOCK) == Padding(b) && Room(o % BLOCK) == Room(b)
    ensures Aligned(o + Padding(b) + HEADER + n, Begin(b) + HEADER + n)
  {
  }

  /** Writing keeps file offset and block position in step. */
  lemma {:induction false} FramesAligned(step: ByteStep, o: nat, b: nat, data: seq<uint8>, begin: bool)
    requires b <= BLOCK && Aligned(o, b)
    ensures Aligned(o + |Frames(step, b, data, begin).bytes|, Frames(step, b, data, begin).position)
    decreases |data|, if Room(b) == 0 then 1 else 0
  {
    var n := Min(|data|, Room(b));
    AlignedNext(o, b, n);
    if n < |data| {
      FramesAligned(step, o + Padding(b) + HEADER + n, Begin(b) + HEADER + n, data[n..], false);
    }
  }

  lemma {:induction false} CutConcat3(file: seq<uint8>, o: nat, a: seq<uint8>, b: seq<uint8>, c: seq<uint8>)
    requires HoldsCut(file, o, a + (b + c))
    ensures o + |a| <= |file| < o + |a| + |b| ==> HoldsCut(file, o + |a|, b)
    ensures o + |a| + |b| <= |file| ==> Holds(file, o + |a|, b) && HoldsCut(file, o + |a| + |b|, c)
  {
    CutConcat(file, o, a, b + c);
    if o + |a| <= |file| {
      CutConcat(file, o + |a|, b, c);
    }
  }

  /** The bytes are those of a record, or of what is left of it. Quantified only to keep `Frames` out of proofs. */
  ghost predicate Spells(step: ByteStep, b: nat, data: seq<uint8>, begin: bool, bytes: seq<uint8>) {
    forall at: nat :: at == b ==> Frames(step, at, data, begin).bytes == bytes
  }

  /** They are a first fragment, and if that is not the last, fragments from the end of the block on. */
  lemma {:induction false} FirstFragment(step: ByteStep, b: nat, data: seq<uint8>, begin: bool, bytes: seq<uint8>)
    returns (some: seq<uint8>, rest: seq<uint8>, head: seq<uint8>, later: seq<uint8>)
    requires b <= BLOCK && Spells(step, b, data, begin, bytes)
    ensures data == some + rest && |some| <= Room(b) && (rest != [] ==> |some| == Room(b))
    ensures head == Zeros(Padding(b)) + Physical(step, FragmentType(begin, rest == []), some)
    ensures bytes == head + later && if rest == [] then later == [] else Spells(step, BLOCK, rest, false, later)
    ensures rest != [] ==> |rest| < |data| || (|rest| == |data| && Room(b) == 0)
  {
    assert bytes == Frames(step, b, data, begin).bytes;
    var n := Min(|data|, Room(b));
    some, rest := data[..n], data[n..];
    SplitAt(data, n);
    head := Zeros(Padding(b)) + Physical(step, FragmentType(begin, rest == []), some);
    later := if rest == [] then [] else Frames(step, BLOCK, rest, false).bytes;
    Units(head);
  }

  /** From `o`, position `b` in its block, the file holds a record that ends at `last`, or part of it. */
  ghost predicate FramesCut(step: ByteStep, file: seq<uint8>, o: nat, b: nat, data: seq<uint8>, begin: bool,
                            bytes: seq<uint8>, tail: seq<uint8>, last: nat) {
    && b <= BLOCK && Aligned(o, b) && Spells(step, b, data, begin, bytes)
    && HoldsCut(file, o, bytes + tail) && last == o + |bytes|
  }

  /** What the physical reader makes of the first fragment, and what the file holds behind it. */
  lemma {:induction false} NextOfRecord(step: ByteStep, verify: bool, file: seq<uint8>, o: nat, b: nat,
                                        data: seq<uint8>, begin: bool, bytes: seq<uint8>, tail: seq<uint8>, last: nat)
    returns (next: nat, some: seq<uint8>, rest: seq<uint8>, later: seq<uint8>)
    requires FramesCut(step, file, o, b, data, begin, bytes, tail, last)
    ensures data == some + rest && next <= last && (rest == [] ==> some == data && next == last)
    ensures NextFragment(step, verify, file, o)
         == if next <= |file| then Fragment(FragmentType(begin, rest == []), some, next, None)
            else Fragment(EOF, [], |file|, None)
    ensures next <= |file| && rest != [] ==>
              && FramesCut(step, file, next, BLOCK, rest, false, later, tail, last)
              && (|rest| < |data| || (|rest| == |data| && Room(b) == 0))
  {
    var head;
    some, rest, head, later := FirstFragment(step, b, data, begin, bytes);
    next := o + |head|;
    var pad, piece := Zeros(Padding(b)), Physical(step, FragmentType(begin, rest == []), some);
    Regroup(head, later, tail);
    Regroup(pad, piece, later + tail);
    FragmentCut(step, verify, file, o, b, FragmentType(begin, rest == []), some, later + tail);
    Units(some);
  }

  lemma {:induction false} FragmentCut(step: ByteStep, verify: bool, file: seq<uint8>, o: nat, b: nat, t: uint8,
                                       data: seq<uint8>, later: seq<uint8>)
    requires b <= BLOCK && Aligned(o, b) && FULL <= t <= LAST && |data| <= Room(b)
    requires HoldsCut(file, o, Zeros(Padding(b)) + (Physical(step, t, data) + later))
    ensures var next := o + Padding(b) + HEADER + |data|;
            && Aligned(next, Begin(b) + HEADER + |data|)
            && (next <= |file| ==> HoldsCut(file, next, later))
            && NextFragment(step, verify, file, o)
               == if next <= |file| then Fragment(t, data, next, None) else Fragment(EOF, [], |file|, None)
  {
    AlignedNext(o, b, |data|);
    CutConcat3(file, o, Zeros(Padding(b)), Physical(step, t, data), later);
    if o + Padding(b) + HEADER + |data| <= |file| {
      FragmentReadBack(step, verify, file, o, t, data);
    } else {
      FragmentTorn(step, verify, file, o, t, data);
    }
  }

  /** The reader's answer in a file that may end before a record does. */
  function CutReading(file: seq<uint8>, record: seq<uint8>, last: nat): Reading {
    if last <= |file| then Reading(Some(record), last, 0, 0) else Reading(None, |file|, 0, 0)
  }

  /** What is left of a record, in a file that may end in the middle of it, behind the part the reader holds. */
  lemma {:induction false} FramesRead(step: ByteStep, verify: bool, file: seq<uint8>, o: nat, b: nat, data: seq<uint8>,
                                      partial: Partial, bytes: seq<uint8>, tail: seq<uint8>, last: nat)
    requires FramesCut(step, file, o, b, data, partial.None?, bytes, tail, last)
    ensures ReadRecord(step, verify, file, o, partial) == CutReading(file, Join(partial, data), last)
    decreases |data|, if Room(b) == 0 then 1 else 0
  {
    var next, some, rest, later := NextOfRecord(step, verify, file, o, b, data, partial.None?, bytes, tail, last);
    if next <= |file| {
      ReadStep(step, verify, file, o, partial, rest == [], NextFragment(step, verify, file, o));
      if rest != [] {
        FramesRead(step, verify, file, next, BLOCK, rest, Some(Join(partial, some)), later, tail, last);
        JoinMore(partial, some, rest);
      }
    }
  }

  lemma {:induction false} JoinMore(partial: Partial, some: seq<uint8>, rest: seq<uint8>)
    ensures Join(Some(Join(partial, some)), rest) == Join(partial, some + rest)
  {
    assert partial.Some? ==> partial.value + some + rest == partial.value + (some + rest);
  }

  // A whole log

  /** How many of the records, written from offset `o` on, lie wholly before the offset `cut`. */
  function Complete(step: ByteStep, o: nat, b: nat, records: seq<seq<uint8>>, cut: nat): (n: nat)
    decreases |records|
    ensures n <= |records|
  {
    if records == [] then 0
    else
      var first := Frames(step, b, records[0], true);
      var next := o + |first.bytes|;
      if cut < next then 0 else 1 + Complete(step, next, first.position, records[1..], cut)
  }

  /** `Complete` is the longest prefix of the list whose log ends at or before the cut. */
  lemma {:induction false} CompleteIsLongest(step: ByteStep, o: nat, b: nat, records: seq<seq<uint8>>, cut: nat, n: nat)
    requires n <= |records| && o <= cut
    ensures n <= Complete(step, o, b, records, cut) <==> o + |WriteLog(step, b, records[..n]).bytes| <= cut
    decreases n
  {
    if n > 0 {
      var first := Frames(step, b, records[0], true);
      assert records[..n][0] == records[0] && records[..n][1..] == records[1..][..n - 1];
      if o + |first.bytes| <= cut {
        CompleteIsLongest(step, o + |first.bytes|, first.position, records[1..], cut, n - 1);
      }
    }
  }

  /** From `o`, position `b` in its block, the file holds as much of the log as there is of the file. */
  predicate LogCut(step: ByteStep, file: seq<uint8>, o: nat, b: nat, records: seq<seq<uint8>>) {
    b <= BLOCK && Aligned(o, b) && HoldsCut(file, o, WriteLog(step, b, records).bytes)
  }

  /** The reader's answer for the first record of a log, and what the file holds behind it. */
  lemma {:induction false} FirstRecord(step: ByteStep, verify: bool, file: seq<uint8>, o: nat, b: nat,
                                       records: seq<seq<uint8>>)
    returns (next: nat, position: nat, others: nat, n: nat)
    requires records != [] && LogCut(step, file, o, b, records)
    ensures o < next && ReadRecord(step, verify, file, o, None) == CutReading(file, records[0], next)
    ensures next <= |file| ==>
              LogCut(step, file, next, position, records[1..])
              && others == Complete(step, next, position, records[1..], |file|)
    ensures n == Complete(step, o, b, records, |file|) && n == if next <= |file| then 1 + others else 0
  {
    var w, later := FirstAndRest(step, o, b, records, |file|);
    next, position := FirstRead(step, verify, file, o, b, records[0], later, w);
    n, others := CountFirst(step, o, b, records, |file|, w, next);
  }

  lemma {:induction false} CountFirst(step: ByteStep, o: nat, b: nat, records: seq<seq<uint8>>, cut: nat, w: Written,
                                      next: nat)
    returns (n: nat, others: nat)
    requires records != [] && w == Frames(step, b, records[0], true) && next == o + |w.bytes|
    ensures n == Complete(step, o, b, records, cut) && n == if next <= cut then 1 + others else 0
    ensures others == if next <= cut then Complete(step, next, w.position, records[1..], cut) else 0
  {
    n := Complete(step, o, b, records, cut);
    others := if next <= cut then Complete(step, next, w.position, records[1..], cut) else 0;
  }

  lemma {:induction false} FirstRead(step: ByteStep, verify: bool, file: seq<uint8>, o: nat, b: nat, record: seq<uint8>,
                                     later: seq<uint8>, w: Written)
    returns (next: nat, position: nat)
    requires b <= BLOCK && Aligned(o, b) && w == Frames(step, b, record, true)
    requires HoldsCut(file, o, w.bytes + later)
    ensures o < next == o + |w.bytes| && position == w.position
    ensures ReadRecord(step, verify, file, o, None) == CutReading(file, record, next)
    ensures next <= |file| ==> position <= BLOCK && Aligned(next, position) && HoldsCut(file, next, later)
  {
    RecordCut(step, verify, file, o, b, record, later, w);
    next, position := o + |w.bytes|, w.position;
  }

  lemma {:induction false} FirstAndRest(step: ByteStep, o: nat, b: nat, records: seq<seq<uint8>>, cut: nat)
    returns (w: Written, later: seq<uint8>)
    requires records != []
    ensures w == Frames(step, b, records[0], true) && later == WriteLog(step, w.position, records[1..]).bytes
    ensures WriteLog(step, b, records).bytes == w.bytes + later
    ensures Complete(step, o, b, records, cut)
         == if o + |w.bytes| <= cut then 1 + Complete(step, o + |w.bytes|, w.position, records[1..], cut) else 0
  {
    w := Frames(step, b, records[0], true);
    later := WriteLog(step, w.position, records[1..]).bytes;
  }

  /**
   A file that ends somewhere in or behind a logical record: the record comes back if all its
   fragments are there, and otherwise the reader meets the end of the file and reports no damage.
   */
  lemma {:induction false} RecordCut(step: ByteStep, verify: bool, file: seq<uint8>, o: nat, b: nat,
                                     record: seq<uint8>, later: seq<uint8>, w: Written)
    requires b <= BLOCK && Aligned(o, b) && w == Frames(step, b, record, true)
    requires HoldsCut(file, o, w.bytes + later)
    ensures ReadRecord(step, verify, file, o, None) == CutReading(file, record, o + |w.bytes|)
    ensures o + |w.bytes| <= |file| ==> HoldsCut(file, o + |w.bytes|, later)
    ensures w.position <= BLOCK && Aligned(o + |w.bytes|, w.position)
  {
    FramesRead(step, verify, file, o, b, record, None, w.bytes, later, o + |w.bytes|);
    CutConcat(file, o, w.bytes, later);
    FramesAligned(step, o, b, record, true);
  }

  /**
   A file that holds a log from `o` on, up to an arbitrary end: the reader returns exactly the
   records written completely, in order, and reports no corruption.
   */
  lemma {:induction false} CrashRecovery(step: ByteStep, verify: bool, file: seq<uint8>, o: nat, b: nat,
                                         records: seq<seq<uint8>>)
    requires LogCut(step, file, o, b, records)
    ensures ReadLog(step, verify, file, o) == Log(records[..Complete(step, o, b, records, |file|)], 0, 0)
    decreases |records|
  {
    if records == [] {
      LogEnds(step, verify, file, o);
    } else {
      var next, position, others, n := FirstRecord(step, verify, file, o, b, records);
      if next <= |file| {
        CrashRecovery(step, verify, file, next, position, records[1..]);
        LogGoesOn(step, verify, file, o, records, next, others);
      }
    }
  }

  lemma {:induction false} LogEnds(step: ByteStep, verify: bool, file: seq<uint8>, o: nat)
    requires o == |file|
    ensures ReadLog(step, verify, file, o) == Log([], 0, 0)
  {
    assert NextFragment(step, verify, file, o) == Fragment(EOF, [], o, None);
  }

  lemma {:induction false} LogGoesOn(step: ByteStep, verify: bool, file: seq<uint8>, o: nat, records: seq<seq<uint8>>,
                                     next: nat, n: nat)
    requires n < |records| && o < next <= |file|
    requires ReadRecord(step, verify, file, o, None) == Reading(Some(records[0]), next, 0, 0)
    requires ReadLog(step, verify, file, next) == Log(records[1..][..n], 0, 0)
    ensures ReadLog(step, verify, file, o) == Log(records[..n + 1], 0, 0)
  {
    PrefixOf(records, n);
  }

  /** In particular, nothing is lost while the file is whole. */
  lemma {:induction false} LogRoundTrip(step: ByteStep, verify: bool, records: seq<seq<uint8>>)
    ensures ReadLog(step, verify, WriteLog(step, 0, records).bytes, 0) == Log(records, 0, 0)
  {
    var file := WriteLog(step, 0, records).bytes;
    assert file[0..] == file;
    CrashRecovery(step, verify, file, 0, 0, records);
    assert records[..|records|] == records;
    CompleteIsLongest(step, 0, 0, records, |file|, |records|);
  }

  /** A log continued by another writer is the log of both runs. */
  lemma {:induction false} LogContinues(step: ByteStep, b: nat, before: seq<seq<uint8>>, after: seq<seq<uint8>>)
    ensures var w := WriteLog(step, b, before);
            var more := WriteLog(step, w.position, after);
            WriteLog(step, b, before + after) == Written(w.bytes + more.bytes, more.position)
    decreases |before|
  {
    if before == [] {
      assert before + after == after;
    } else {
      assert (before + after)[0] == before[0] && (before + after)[1..] == before[1..] + after;
      LogContinues(step, Frames(step, b, before[0], true).position, before[1..], after);
    }
  }
}
