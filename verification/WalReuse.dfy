/**
 What is read of a log file that a second writer continued, behind a whole record or a torn one. The
 database does so with the last log file if its options say so.
 */
module WalReuse {
  import opened Words
  import opened Leb128
  import opened WalFormat

  // Going on in front of other bytes

  /** A record that is wholly in the file is read, whatever comes behind it. */
  lemma {:induction false} RecordWhole(step: ByteStep, verify: bool, file: seq<uint8>, o: nat, b: nat,
                                       data: seq<uint8>)
    requires b <= BLOCK && Aligned(o, b) && Holds(file, o, Frames(step, b, data, true).bytes)
    ensures var w := Frames(step, b, data, true);
            && ReadRecord(step, verify, file, o, None) == Reading(Some(data), o + |w.bytes|, 0, 0)
            && w.position <= BLOCK && Aligned(o + |w.bytes|, w.position)
  {
    var w := Frames(step, b, data, true);
    WithTail(file, o, w.bytes);
    RecordCut(step, verify, file, o, b, data, file[o + |w.bytes|..], w);
  }

  lemma {:induction false} WithTail(file: seq<uint8>, o: nat, bs: seq<uint8>)
    requires Holds(file, o, bs)
    ensures HoldsCut(file, o, bs + file[o + |bs|..])
  {
    assert file[o..] == bs + file[o + |bs|..];
  }

  lemma {:induction false} HoldsParts(file: seq<uint8>, o: nat, a: seq<uint8>, b: seq<uint8>)
    requires Holds(file, o, a + b)
    ensures Holds(file, o, a) && Holds(file, o + |a|, b)
  {
    var here := file[o..o + |a| + |b|];
    assert file[o..o + |a|] == here[..|a|] == a;
    assert file[o + |a|..o + |a| + |b|] == here[|a|..] == b;
  }

  function Prepend(records: seq<seq<uint8>>, log: Log): Log {
    Log(records + log.records, log.reports, log.lost)
  }

  /** A log in front of other bytes: its records, then whatever is read behind it. */
  lemma {:induction false} LogThenMore(step: ByteStep, verify: bool, file: seq<uint8>, o: nat, b: nat,
                                       records: seq<seq<uint8>>, end: nat)
    requires b <= BLOCK && Aligned(o, b) && Holds(file, o, WriteLog(step, b, records).bytes)
    requires end == o + |WriteLog(step, b, records).bytes|
    ensures ReadLog(step, verify, file, o) == Prepend(records, ReadLog(step, verify, file, end))
    decreases |records|
  {
    if records == [] {
      NothingPrepended(ReadLog(step, verify, file, o));
    } else {
      var next, position := FirstWhole(step, verify, file, o, b, records, end);
      LogThenMore(step, verify, file, next, position, records[1..], end);
      OneRead(step, verify, file, o, records, next, ReadLog(step, verify, file, end));
    }
  }

  lemma {:induction false} FirstWhole(step: ByteStep, verify: bool, file: seq<uint8>, o: nat, b: nat,
                                      records: seq<seq<uint8>>, end: nat)
    returns (next: nat, position: nat)
    requires records != []
    requires b <= BLOCK && Aligned(o, b) && Holds(file, o, WriteLog(step, b, records).bytes)
    requires end == o + |WriteLog(step, b, records).bytes|
    ensures o < next <= end && position <= BLOCK && Aligned(next, position)
    ensures ReadRecord(step, verify, file, o, None) == Reading(Some(records[0]), next, 0, 0)
    ensures Holds(file, next, WriteLog(step, position, records[1..]).bytes)
    ensures end == next + |WriteLog(step, position, records[1..]).bytes|
  {
    var first, later := FirstAndRest(step, o, b, records, 0);
    HoldsParts(file, o, first.bytes, later);
    RecordWhole(step, verify, file, o, b, records[0]);
    next, position := o + |first.bytes|, first.position;
  }

  lemma {:induction false} NothingPrepended(log: Log)
    ensures Prepend([], log) == log
  {
  }

  lemma {:induction false} OneRead(step: ByteStep, verify: bool, file: seq<uint8>, o: nat, records: seq<seq<uint8>>,
                                   next: nat, behind: Log)
    requires records != [] && o < next <= |file|
    requires ReadRecord(step, verify, file, o, None) == Reading(Some(records[0]), next, 0, 0)
    requires ReadLog(step, verify, file, next) == Prepend(records[1..], behind)
    ensures ReadLog(step, verify, file, o) == Prepend(records, behind)
  {
    ConsAppend(records, behind.records);
  }

  lemma {:induction false} LogAligned(step: ByteStep, o: nat, b: nat, records: seq<seq<uint8>>)
    requires b <= BLOCK && Aligned(o, b)
    ensures var w := WriteLog(step, b, records); w.position <= BLOCK && Aligned(o + |w.bytes|, w.position)
    decreases |records|
  {
    if records != [] {
      var first := Frames(step, b, records[0], true);
      FramesAligned(step, o, b, records[0], true);
      LogAligned(step, o + |first.bytes|, first.position, records[1..]);
    }
  }

  // A log file that is reused. The second writer only knows the length of the file.

  /** The padding that is still missing is all a writer adds that starts behind some of it. */
  lemma {:induction false} FramesInPadding(step: ByteStep, b: nat, n: nat, data: seq<uint8>, begin: bool)
    requires b <= BLOCK && n <= Padding(b)
    ensures var w := Frames(step, b, data, begin);
            && n <= |w.bytes| && w.bytes[..n] == Zeros(n)
            && Frames(step, (b + n) % BLOCK, data, begin) == Written(w.bytes[n..], w.position)
  {
    var b' := (b + n) % BLOCK;
    assert Padding(b') == Padding(b) - n && Begin(b') == Begin(b);
    var rest := AfterPadding(step, b, b', data, begin);
    DropZeros(Padding(b), n, rest);
  }

  lemma {:induction false} AfterPadding(step: ByteStep, b: nat, b': nat, data: seq<uint8>, begin: bool)
    returns (rest: seq<uint8>)
    requires Begin(b') == Begin(b)
    ensures Frames(step, b, data, begin).bytes == Zeros(Padding(b)) + rest
    ensures Frames(step, b', data, begin)
         == Written(Zeros(Padding(b')) + rest, Frames(step, b, data, begin).position)
  {
    var n := Min(|data|, Room(b));
    var piece := Physical(step, FragmentType(begin, n == |data|), data[..n]);
    if n == |data| {
      rest := piece;
    } else {
      var more := Frames(step, Begin(b) + HEADER + n, data[n..], false).bytes;
      rest := piece + more;
      Regroup(Zeros(Padding(b)), piece, more);
      Regroup(Zeros(Padding(b')), piece, more);
    }
  }

  lemma {:induction false} DropZeros(m: nat, n: nat, rest: seq<uint8>)
    requires n <= m
    ensures (Zeros(m) + rest)[n..] == Zeros(m - n) + rest && (Zeros(m) + rest)[..n] == Zeros(n)
  {
  }

  lemma {:induction false} LogInPadding(step: ByteStep, b: nat, n: nat, records: seq<seq<uint8>>)
    requires b <= BLOCK && n <= Padding(b) && records != []
    ensures WriteLog(step, b, records).bytes == Zeros(n) + WriteLog(step, (b + n) % BLOCK, records).bytes
  {
    FramesInPadding(step, b, n, records[0], true);
    var w := Frames(step, b, records[0], true);
    Rejoin(w.bytes, n, Zeros(n), WriteLog(step, w.position, records[1..]).bytes);
  }

  lemma {:induction false} Rejoin(s: seq<uint8>, n: nat, front: seq<uint8>, later: seq<uint8>)
    requires n <= |s| && s[..n] == front
    ensures s + later == front + (s[n..] + later)
  {
    assert s == front + s[n..];
    Regroup(front, s[n..], later);
  }

  /**
   The new writer's position is the file's length in blocks. That is where the log goes on, if the
   file ends with its last record or in the padding behind it.
   */
  lemma {:induction false} LengthIsEnough(step: ByteStep, before: seq<seq<uint8>>, n: nat, after: seq<seq<uint8>>)
    requires n <= Padding(WriteLog(step, 0, before).position) && after != []
    ensures var file := WriteLog(step, 0, before).bytes + Zeros(n);
            WriteLog(step, 0, before + after).bytes == file + WriteLog(step, |file| % BLOCK, after).bytes
  {
    LogContinues(step, 0, before, after);
    LogAligned(step, 0, 0, before);
    var w := WriteLog(step, 0, before);
    SamePosition(|w.bytes|, w.position, n);
    LengthOf(step, w, n, after, (w.position + n) % BLOCK);
  }

  lemma {:induction false} LengthOf(step: ByteStep, w: Written, n: nat, after: seq<seq<uint8>>, position: nat)
    requires w.position <= BLOCK && n <= Padding(w.position) && after != [] && position == (w.position + n) % BLOCK
    ensures w.bytes + WriteLog(step, w.position, after).bytes
         == w.bytes + Zeros(n) + WriteLog(step, position, after).bytes
  {
    LogInPadding(step, w.position, n, after);
    Regroup(w.bytes, Zeros(n), WriteLog(step, position, after).bytes);
  }

  lemma {:induction false} SamePosition(o: nat, b: nat, n: nat)
    requires b <= BLOCK && Aligned(o, b)
    ensures (o + n) % BLOCK == (b + n) % BLOCK
  {
  }

  /** So a log that was continued there is read as the log of both runs. */
  lemma {:induction false} ReusedLog(step: ByteStep, verify: bool, before: seq<seq<uint8>>, n: nat,
                                     after: seq<seq<uint8>>)
    requires n <= Padding(WriteLog(step, 0, before).position)
    ensures var file := WriteLog(step, 0, before).bytes + Zeros(n);
            ReadLog(step, verify, file + WriteLog(step, |file| % BLOCK, after).bytes, 0) == Log(before + after, 0, 0)
  {
    var file := WriteLog(step, 0, before).bytes + Zeros(n);
    if after == [] {
      assert file + WriteLog(step, |file| % BLOCK, after).bytes == file && before + after == before;
      OnlyPadding(step, verify, before, n, file);
    } else {
      LengthIsEnough(step, before, n, after);
      LogRoundTrip(step, verify, before + after);
    }
  }

  lemma {:induction false} OnlyPadding(step: ByteStep, verify: bool, before: seq<seq<uint8>>, n: nat, file: seq<uint8>)
    requires n < HEADER && file == WriteLog(step, 0, before).bytes + Zeros(n)
    ensures ReadLog(step, verify, file, 0) == Log(before, 0, 0)
  {
    var end := |WriteLog(step, 0, before).bytes|;
    HoldsFront(WriteLog(step, 0, before).bytes, Zeros(n), file);
    LogThenMore(step, verify, file, 0, 0, before, end);
    assert NextFragment(step, verify, file, end) == Fragment(EOF, [], |file|, None);
    NothingBehind(before);
  }

  lemma {:induction false} HoldsFront(a: seq<uint8>, b: seq<uint8>, file: seq<uint8>)
    requires file == a + b
    ensures Holds(file, 0, a) && Holds(file, |a|, b)
  {
  }

  lemma {:induction false} NothingBehind(records: seq<seq<uint8>>)
    ensures Prepend(records, Log([], 0, 0)) == Log(records, 0, 0)
  {
    assert records + [] == records;
  }

  // A record up to the end of a block

  /** The only block boundary in front of a fragment's end is where its header is. */
  lemma {:induction false} BoundaryInFront(o: nat, b: nat, n: nat, c: nat)
    requires b <= BLOCK && Aligned(o, b) && n <= Room(b) && (o + c) % BLOCK == 0 && c < Padding(b) + HEADER + n
    ensures c == Padding(b) == Padding(o % BLOCK) && (b + c) % BLOCK == 0
  {
  }

  /** Reading on from `o` gives `r`. Quantified as `Spells` is. */
  ghost predicate Gives(step: ByteStep, verify: bool, file: seq<uint8>, o: nat, partial: Partial, r: Reading) {
    o <= |file| && forall at: nat :: at == o ==> ReadRecord(step, verify, file, at, partial) == r
  }

  /** Reading on from a block's padding is reading on from the next block. */
  lemma {:induction false} SameRecord(step: ByteStep, verify: bool, file: seq<uint8>, o: nat, e: nat, partial: Partial,
                                      r: Reading)
    requires Gives(step, verify, file, o, partial, r)
    requires e == o + Padding(o % BLOCK) <= |file| && e % BLOCK == 0
    ensures Gives(step, verify, file, e, partial, r)
  {
    SameFragment(step, verify, file, o, e);
    SameReading(step, verify, file, o, e, partial);
  }

  lemma {:induction false} SameReading(step: ByteStep, verify: bool, file: seq<uint8>, o: nat, e: nat, partial: Partial)
    requires o <= |file| && e <= |file|
    requires NextFragment(step, verify, file, o) == NextFragment(step, verify, file, e)
    ensures ReadRecord(step, verify, file, o, partial) == ReadRecord(step, verify, file, e, partial)
  {
  }

  lemma {:induction false} SameFragment(step: ByteStep, verify: bool, file: seq<uint8>, o: nat, e: nat)
    requires e == o + Padding(o % BLOCK) <= |file| && e % BLOCK == 0
    ensures NextFragment(step, verify, file, o) == NextFragment(step, verify, file, e)
  {
    assert Padding(e % BLOCK) == 0 && Begin(e % BLOCK) == 0 == Begin(o % BLOCK);
  }

  lemma {:induction false} BehindPadding(step: ByteStep, b: nat, data: seq<uint8>, begin: bool, bytes: seq<uint8>)
    requires b <= BLOCK && Spells(step, b, data, begin, bytes) && (b + Padding(b)) % BLOCK == 0
    ensures Padding(b) <= |bytes| && Spells(step, 0, data, begin, bytes[Padding(b)..])
  {
    assert bytes == Frames(step, b, data, begin).bytes;
    FramesInPadding(step, b, Padding(b), data, begin);
  }

  /**
   The reader at the end of a block in the middle of a record: what it holds of the record, and what
   remains of it. The file need not go on with that.
   */
  lemma {:induction false} UpToBlock(step: ByteStep, verify: bool, file: seq<uint8>, o: nat, b: nat, data: seq<uint8>,
                                     partial: Partial, bytes: seq<uint8>, c: nat, r: Reading)
    returns (held: Partial, some: seq<uint8>, rest: seq<uint8>)
    requires b <= BLOCK && Aligned(o, b) && (o + c) % BLOCK == 0 && Spells(step, b, data, partial.None?, bytes)
    requires c < |bytes| && Holds(file, o, bytes[..c]) && Gives(step, verify, file, o, partial, r)
    ensures data == some + rest && Gives(step, verify, file, o + c, held, r)
    ensures if c <= Padding(b) then held == partial && some == [] else held == Some(Join(partial, some))
    ensures Spells(step, 0, rest, held.None?, bytes[c..])
    decreases |data|, if Room(b) == 0 then 1 else 0
  {
    var first, more, head, later := FirstFragment(step, b, data, partial.None?, bytes);
    if c < |head| {
      BoundaryInFront(o, b, |first|, c);
      held, some, rest := partial, [], data;
      Units(data);
      SameRecord(step, verify, file, o, o + c, partial, r);
      BehindPadding(step, b, data, partial.None?, bytes);
    } else {
      CutBehindHead(file, o, head, later, c);
      HeadRead(step, verify, file, o, b, partial, first, more, r);
      var now := Some(Join(partial, first));
      held, some, rest := UpToBlock(step, verify, file, o + |head|, BLOCK, more, now, later, c - |head|, r);
      Units(first);
      JoinMore(partial, first, some);
      Regroup(first, some, rest);
      some := first + some;
    }
  }

  /** The same of a record from its start on. */
  lemma {:induction false} HeldAtBlock(step: ByteStep, verify: bool, file: seq<uint8>, o: nat, b: nat, data: seq<uint8>,
                                       bytes: seq<uint8>, c: nat)
    returns (held: Partial, some: seq<uint8>, rest: seq<uint8>)
    requires b <= BLOCK && Aligned(o, b) && (o + c) % BLOCK == 0 && bytes == Frames(step, b, data, true).bytes
    requires c < |bytes| && Holds(file, o, bytes[..c])
    ensures ReadRecord(step, verify, file, o, None) == ReadRecord(step, verify, file, o + c, held)
    ensures data == some + rest && held == if c <= Padding(b) then None else Some(some)
    ensures bytes[c..] == Frames(step, 0, rest, held.None?).bytes && (held.None? ==> some == [])
  {
    var r := ReadRecord(step, verify, file, o, None);
    held, some, rest := UpToBlock(step, verify, file, o, b, data, None, bytes, c, r);
    assert r == ReadRecord(step, verify, file, o + c, held);
    assert bytes[c..] == Frames(step, 0, rest, held.None?).bytes;
  }

  lemma {:induction false} CutBehindHead(file: seq<uint8>, o: nat, head: seq<uint8>, bytes: seq<uint8>, c: nat)
    requires |head| <= c <= |head + bytes| && Holds(file, o, (head + bytes)[..c])
    ensures Holds(file, o, head) && Holds(file, o + |head|, bytes[..c - |head|])
    ensures (head + bytes)[c..] == bytes[c - |head|..]
  {
    assert (head + bytes)[..c] == head + bytes[..c - |head|];
    HoldsParts(file, o, head, bytes[..c - |head|]);
  }

  /** One fragment that is not the last. */
  lemma {:induction false} HeadRead(step: ByteStep, verify: bool, file: seq<uint8>, o: nat, b: nat, partial: Partial,
                                    some: seq<uint8>, more: seq<uint8>, r: Reading)
    requires b <= BLOCK && Aligned(o, b) && more != [] && |some| == Room(b)
    requires Holds(file, o, Zeros(Padding(b)) + Physical(step, FragmentType(partial.None?, more == []), some))
    requires Gives(step, verify, file, o, partial, r)
    ensures var next := o + Padding(b) + HEADER + |some|;
            Aligned(next, BLOCK) && Gives(step, verify, file, next, Some(Join(partial, some)), r)
  {
    var t := FragmentType(partial.None?, more == []);
    AlignedNext(o, b, |some|);
    HoldsParts(file, o, Zeros(Padding(b)), Physical(step, t, some));
    FragmentReadBack(step, verify, file, o, t, some);
    Held(step, verify, file, o, partial, NextFragment(step, verify, file, o), r);
  }

  lemma {:induction false} Held(step: ByteStep, verify: bool, file: seq<uint8>, o: nat, partial: Partial, f: Fragment,
                                r: Reading)
    requires Gives(step, verify, file, o, partial, r)
    requires f == NextFragment(step, verify, file, o) && f.damage == None
    requires f.kind == FragmentType(partial.None?, false)
    ensures Gives(step, verify, file, f.next, Some(Join(partial, f.data)), r)
  {
    assert r == ReadRecord(step, verify, file, o, partial);
    ReadStep(step, verify, file, o, partial, false, f);
  }

  // A log that is reused behind fragments of a record

  function Reported(r: Reading, n: nat): Reading {
    Reading(r.record, r.next, r.reports + if n > 0 then 1 else 0, r.lost + n)
  }

  function ReportedLog(log: Log, n: nat): Log {
    Log(log.records, log.reports + if n > 0 then 1 else 0, log.lost + n)
  }

  /** A new record makes the reader drop, and report, what it holds of an unfinished one. */
  lemma {:induction false} Dropped(step: ByteStep, verify: bool, file: seq<uint8>, o: nat, held: Partial, r: Reading)
    requires Gives(step, verify, file, o, held, r)
    requires NextFragment(step, verify, file, o).kind in {FULL as int, FIRST as int}
    ensures r == Reported(ReadRecord(step, verify, file, o, None), Size(held))
  {
    assert r == ReadRecord(step, verify, file, o, held);
  }

  lemma {:induction false} NewRecord(step: ByteStep, verify: bool, file: seq<uint8>, o: nat, b: nat,
                                     records: seq<seq<uint8>>)
    requires records != [] && LogCut(step, file, o, b, records)
    requires |file| == o + |WriteLog(step, b, records).bytes|
    ensures NextFragment(step, verify, file, o).kind in {FULL as int, FIRST as int}
  {
    var w, later := FirstAndRest(step, o, b, records, 0);
    var next, some, rest, more :=
      NextOfRecord(step, verify, file, o, b, records[0], true, w.bytes, later, o + |w.bytes|);
  }

  lemma {:induction false} DropThenMore(step: ByteStep, verify: bool, file: seq<uint8>, o: nat, e: nat, held: Partial,
                                        r: Reading)
    requires o <= |file| && r == ReadRecord(step, verify, file, o, None) && Gives(step, verify, file, e, held, r)
    requires NextFragment(step, verify, file, e).kind in {FULL as int, FIRST as int}
    ensures ReadLog(step, verify, file, o) == ReportedLog(ReadLog(step, verify, file, e), Size(held))
  {
    Dropped(step, verify, file, e, held, r);
  }

  /** A log that reaches to the end of the file. */
  lemma {:induction false} LogToEnd(step: ByteStep, verify: bool, file: seq<uint8>, o: nat, b: nat,
                                    records: seq<seq<uint8>>)
    requires b <= BLOCK && Aligned(o, b) && Holds(file, o, WriteLog(step, b, records).bytes)
    requires |file| == o + |WriteLog(step, b, records).bytes|
    ensures ReadLog(step, verify, file, o) == Log(records, 0, 0)
  {
    LogThenMore(step, verify, file, o, b, records, |file|);
    LogEnds(step, verify, file, |file|);
    NothingBehind(records);
  }

  /** What is read where a crash has left a record up to a block boundary, and a new log follows. */
  lemma {:induction false} BehindBlock(step: ByteStep, verify: bool, file: seq<uint8>, o: nat, e: nat, held: Partial,
                                       r: Reading, after: seq<seq<uint8>>)
    requires Gives(step, verify, file, o, None, r) && Gives(step, verify, file, e, held, r)
    requires e % BLOCK == 0 && Holds(file, e, WriteLog(step, 0, after).bytes)
    requires |file| == e + |WriteLog(step, 0, after).bytes|
    ensures ReadLog(step, verify, file, o)
         == if after == [] then Log([], 0, 0) else ReportedLog(Log(after, 0, 0), Size(held))
  {
    assert r == ReadRecord(step, verify, file, o, None);
    if after == [] {
      assert NextFragment(step, verify, file, e) == Fragment(EOF, [], e, None);
      assert r == ReadRecord(step, verify, file, e, held);
    } else {
      ToTheEnd(file, e, WriteLog(step, 0, after).bytes);
      NewRecord(step, verify, file, e, 0, after);
      DropThenMore(step, verify, file, o, e, held, r);
      LogToEnd(step, verify, file, e, 0, after);
    }
  }

  lemma {:induction false} ToTheEnd(file: seq<uint8>, o: nat, bs: seq<uint8>)
    requires Holds(file, o, bs) && |file| == o + |bs|
    ensures HoldsCut(file, o, bs)
  {
    assert file[o..] == file[o..o + |bs|] && bs[..|bs|] == bs;
  }

  /** What is read from `o` on. Quantified as `Spells` is. */
  ghost predicate Reads(step: ByteStep, verify: bool, file: seq<uint8>, o: nat, log: Log) {
    o <= |file| && forall at: nat :: at == o ==> ReadLog(step, verify, file, at) == log
  }

  lemma {:induction false} BehindRecord(step: ByteStep, verify: bool, file: seq<uint8>, o: nat, b: nat,
                                        data: seq<uint8>, bytes: seq<uint8>, front: seq<uint8>,
                                        after: seq<seq<uint8>>)
    returns (some: seq<uint8>, rest: seq<uint8>, log: Log)
    requires b <= BLOCK && Aligned(o, b) && (o + |front|) % BLOCK == 0 && Spells(step, b, data, true, bytes)
    requires |front| < |bytes| && front == bytes[..|front|]
    requires Holds(file, o, front) && Holds(file, o + |front|, WriteLog(step, 0, after).bytes)
    requires |file| == o + |front| + |WriteLog(step, 0, after).bytes|
    ensures Reads(step, verify, file, o, log)
    ensures log == if after == [] then Log([], 0, 0) else ReportedLog(Log(after, 0, 0), |some|)
    ensures data == some + rest && (|front| <= Padding(b) ==> some == [])
    ensures Spells(step, 0, rest, |front| <= Padding(b), bytes[|front|..])
  {
    var r := ReadRecord(step, verify, file, o, None);
    var held;
    held, some, rest := UpToBlock(step, verify, file, o, b, data, None, bytes, |front|, r);
    BehindBlock(step, verify, file, o, o + |front|, held, r, after);
    log := ReadLog(step, verify, file, o);
  }

  /**
   A file can also be reused that ends at a block boundary in the middle of a record: all records
   of the new run are read, and one report says how much of the unfinished record is dropped.
   */
  lemma {:induction false} ReusedAtBlock(step: ByteStep, verify: bool, before: seq<seq<uint8>>, w: Written,
                                         data: seq<uint8>, bytes: seq<uint8>, front: seq<uint8>,
                                         after: seq<seq<uint8>>)
    returns (some: seq<uint8>, rest: seq<uint8>)
    requires w == WriteLog(step, 0, before) && bytes == Frames(step, w.position, data, true).bytes
    requires |front| < |bytes| && front == bytes[..|front|] && |w.bytes + front| % BLOCK == 0
    ensures ReadLog(step, verify, w.bytes + front + WriteLog(step, 0, after).bytes, 0)
         == Prepend(before, if after == [] then Log([], 0, 0) else ReportedLog(Log(after, 0, 0), |some|))
    ensures data == some + rest && (|front| <= Padding(w.position) ==> some == [])
    ensures bytes[|front|..] == Frames(step, 0, rest, |front| <= Padding(w.position)).bytes
  {
    var log;
    some, rest, log := ReadBehind(step, verify, before, w, data, bytes, front, after, WriteLog(step, 0, after).bytes);
    assert log == ReadLog(step, verify, w.bytes + front + WriteLog(step, 0, after).bytes, 0);
    assert bytes[|front|..] == Frames(step, 0, rest, |front| <= Padding(w.position)).bytes;
  }

  lemma {:induction false} ReadBehind(step: ByteStep, verify: bool, before: seq<seq<uint8>>, w: Written,
                                      data: seq<uint8>, bytes: seq<uint8>, front: seq<uint8>, after: seq<seq<uint8>>,
                                      more: seq<uint8>)
    returns (some: seq<uint8>, rest: seq<uint8>, log: Log)
    requires w == WriteLog(step, 0, before) && Spells(step, w.position, data, true, bytes)
    requires |front| < |bytes| && front == bytes[..|front|] && |w.bytes + front| % BLOCK == 0
    requires more == WriteLog(step, 0, after).bytes
    ensures Reads(step, verify, w.bytes + front + more, 0, log)
    ensures log == Prepend(before, if after == [] then Log([], 0, 0) else ReportedLog(Log(after, 0, 0), |some|))
    ensures data == some + rest && (|front| <= Padding(w.position) ==> some == [])
    ensures Spells(step, 0, rest, |front| <= Padding(w.position), bytes[|front|..])
  {
    var file, behind := w.bytes + front + more, Log([], 0, 0);
    ThreeParts(w.bytes, front, more, file);
    LogAligned(step, 0, 0, before);
    some, rest, behind := BehindRecord(step, verify, file, |w.bytes|, w.position, data, bytes, front, after);
    log := FrontRead(step, verify, file, before, w, behind);
  }

  lemma {:induction false} FrontRead(step: ByteStep, verify: bool, file: seq<uint8>, records: seq<seq<uint8>>,
                                     w: Written, behind: Log)
    returns (log: Log)
    requires w == WriteLog(step, 0, records) && Holds(file, 0, w.bytes) && Reads(step, verify, file, |w.bytes|, behind)
    ensures Reads(step, verify, file, 0, log) && log == Prepend(records, behind)
  {
    LogThenMore(step, verify, file, 0, 0, records, |w.bytes|);
    log := ReadLog(step, verify, file, 0);
  }

  lemma {:induction false} ThreeParts(a: seq<uint8>, b: seq<uint8>, c: seq<uint8>, file: seq<uint8>)
    requires file == a + b + c
    ensures Holds(file, 0, a) && Holds(file, |a|, b) && Holds(file, |a| + |b|, c) && |file| == |a| + |b| + |c|
  {
  }

  /**
   A file that ends elsewhere is a different matter. Behind the first byte of a torn record, whatever
   it is, a short record that is written completely is not read, and no report is made of it.
   */
  lemma {:induction false} TornLogReused(step: ByteStep, verify: bool, before: seq<seq<uint8>>, w: Written,
                                         torn: uint8, data: seq<uint8>)
    requires w == WriteLog(step, 0, before) && 1 <= |data| <= 0xff
    requires |w.bytes| % BLOCK + 1 + HEADER + |data| < BLOCK
    ensures var file := w.bytes + [torn];
            && ReadLog(step, verify, file + WriteLog(step, |file| % BLOCK, [data]).bytes, 0) == Log(before, 0, 0)
  {
    var file := TornFile(step, verify, w.bytes, torn, data);
    LogAligned(step, 0, 0, before);
    var log := FrontRead(step, verify, file, before, w, Log([], 0, 0));
    NothingBehind(before);
    assert log == ReadLog(step, verify, file, 0);
  }

  /** The file with the short record: behind the whole ones, the reader finds its end. */
  lemma {:induction false} TornFile(step: ByteStep, verify: bool, bytes: seq<uint8>, torn: uint8, data: seq<uint8>)
    returns (file: seq<uint8>)
    requires 1 <= |data| <= 0xff && |bytes| % BLOCK + 1 + HEADER + |data| < BLOCK
    ensures file == bytes + [torn] + WriteLog(step, |bytes + [torn]| % BLOCK, [data]).bytes
    ensures |bytes| <= |file| && Holds(file, 0, bytes)
    ensures ReadRecord(step, verify, file, |bytes|, None) == Reading(None, |file|, 0, 0)
  {
    var more := WriteLog(step, |bytes + [torn]| % BLOCK, [data]).bytes;
    file := bytes + [torn] + more;
    ThreeParts(bytes, [torn], more, file);
    TornRead(step, verify, file, |bytes|, torn, data, more);
  }

  lemma {:induction false} TornRead(step: ByteStep, verify: bool, file: seq<uint8>, o: nat, torn: uint8,
                                    data: seq<uint8>, more: seq<uint8>)
    requires 1 <= |data| <= 0xff && o % BLOCK + 1 + HEADER + |data| < BLOCK
    requires more == WriteLog(step, (o + 1) % BLOCK, [data]).bytes && |file| == o + 1 + |more|
    requires Holds(file, o, [torn]) && Holds(file, o + 1, more)
    ensures ReadRecord(step, verify, file, o, None) == Reading(None, |file|, 0, 0)
  {
    var same := ShortRecord(step, (o + 1) % BLOCK, data);
    TornHeader(step, verify, file, o, torn, data);
  }

  lemma {:induction false} ShortRecord(step: ByteStep, b: nat, data: seq<uint8>) returns (bytes: seq<uint8>)
    requires b + HEADER + |data| <= BLOCK && data != []
    ensures bytes == WriteLog(step, b, [data]).bytes == Physical(step, FULL, data)
  {
    var records := [data];
    var w := Frames(step, b, data, true);
    assert data[..|data|] == data && Zeros(0) == [];
    Units(Physical(step, FULL, data));
    assert w.bytes == Physical(step, FULL, data);
    assert records[1..] == [];
    Units(w.bytes);
    bytes := WriteLog(step, b, records).bytes;
  }

  /** The header the reader sees is out of step by a byte, and claims a length the file does not have. */
  lemma {:induction false} TornHeader(step: ByteStep, verify: bool, file: seq<uint8>, o: nat, torn: uint8,
                                      data: seq<uint8>)
    requires 1 <= |data| <= 0xff && o % BLOCK + 1 + HEADER + |data| < BLOCK
    requires |file| == o + 1 + HEADER + |data|
    requires Holds(file, o, [torn]) && Holds(file, o + 1, Physical(step, FULL, data))
    ensures NextFragment(step, verify, file, o) == Fragment(EOF, [], |file|, None)
  {
    var p, buffer := Physical(step, FULL, data), file[o..|file|];
    assert file[o + 1..o + 1 + |p|] == p;
    assert buffer[5] == p[4] == |data| as uint8;
    assert FirstInBuffer(step, verify, buffer, true) == Fragment(EOF, [], |buffer|, None);
  }
}
