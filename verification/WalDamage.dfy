/**
 What is read of a log of which blocks were damaged. The reader gives up the rest of a block in
 which it finds damage, and so comes back into step with the writer at the next one.
 */
module WalDamage {
  import opened Words
  import opened Leb128
  import opened WalFormat
  import opened WalReuse

  /** The records read from `o` on, of which the first may have begun. */
  function Records(step: ByteStep, verify: bool, file: seq<uint8>, o: nat, partial: Partial): seq<seq<uint8>>
    requires o <= |file|
  {
    var r := ReadRecord(step, verify, file, o, partial);
    if r.record == None then [] else [r.record.value] + ReadLog(step, verify, file, r.next).records
  }

  /** The records returned from `o` on, when the reader holds `partial`. Quantified as `Spells` is. */
  ghost predicate Returns(step: ByteStep, verify: bool, file: seq<uint8>, o: nat, partial: Partial,
                          rs: seq<seq<uint8>>) {
    o <= |file| && forall at: nat :: at == o ==> Records(step, verify, file, at, partial) == rs
  }

  /** What becomes of the unfinished record when a fragment is read. */
  function Holding(partial: Partial, kind: nat, data: seq<uint8>): Partial {
    if kind == FULL as int then None else Take(partial, kind, data)
  }

  /** Whatever fragment is read, unless it ends the reading: at most one record, then those behind it. */
  lemma {:induction false} OneTurn(step: ByteStep, verify: bool, file: seq<uint8>, o: nat, partial: Partial,
                                   f: Fragment, rs: seq<seq<uint8>>)
    returns (some: seq<seq<uint8>>, later: seq<seq<uint8>>)
    requires Returns(step, verify, file, o, partial, rs)
    requires f == NextFragment(step, verify, file, o) && f.kind != EOF
    ensures rs == some + later && |some| <= 1
    ensures some != [] ==> f.kind == FULL as int || (f.kind == LAST as int && partial.Some?)
    ensures Returns(step, verify, file, f.next, Holding(partial, f.kind, f.data), later)
  {
    assert rs == Records(step, verify, file, o, partial);
    later := Records(step, verify, file, f.next, Holding(partial, f.kind, f.data));
    if f.kind == FULL as int {
      some := [f.data];
    } else if f.kind == LAST as int && partial.Some? {
      some := [partial.value + f.data];
    } else {
      some := [];
      Units(rs);
    }
  }

  /**
   Reading fragment by fragment from `o` on, one comes to `e`, the end of a block. One does not where
   a fragment has the type by which the physical reader itself reports the end of the file, 5.
   */
  predicate Passes(step: ByteStep, verify: bool, file: seq<uint8>, o: nat, e: nat)
    requires o <= |file|
    decreases if o < e then e - o else 0
  {
    || o + Padding(o % BLOCK) >= e
    || var f := NextFragment(step, verify, file, o); f.kind != EOF && Passes(step, verify, file, f.next, e)
  }

  lemma {:induction false} BeforeBoundary(step: ByteStep, verify: bool, file: seq<uint8>, o: nat, e: nat)
    requires o <= e <= |file| && e % BLOCK == 0
    ensures o + Padding(o % BLOCK) >= e ==> o + Padding(o % BLOCK) == e
    ensures o + Padding(o % BLOCK) < e ==> o < NextFragment(step, verify, file, o).next <= e
  {
    BlockBefore(o, e);
  }

  lemma {:induction false} BlockBefore(o: nat, e: nat)
    requires o <= e && e % BLOCK == 0
    ensures var s := o + Padding(o % BLOCK); if s < e then s - Begin(o % BLOCK) + BLOCK <= e else s == e
  {
  }

  lemma {:induction false} Across(step: ByteStep, verify: bool, file: seq<uint8>, o: nat, e: nat, partial: Partial,
                                  rs: seq<seq<uint8>>)
    returns (forged: seq<seq<uint8>>, held: Partial, later: seq<seq<uint8>>)
    requires o <= e <= |file| && e % BLOCK == 0 && Returns(step, verify, file, o, partial, rs)
    ensures rs == forged + later
    ensures if Passes(step, verify, file, o, e) then Returns(step, verify, file, e, held, later) else later == []
    ensures o + Padding(o % BLOCK) < e && NextFragment(step, verify, file, o).kind == EOF ==>
              forged == [] && !Passes(step, verify, file, o, e)
    decreases e - o
  {
    BeforeBoundary(step, verify, file, o, e);
    if o + Padding(o % BLOCK) >= e {
      forged, held, later := [], partial, rs;
      Units(rs);
      SameRecords(step, verify, file, o, e, partial, rs);
    } else {
      var f := NextFragment(step, verify, file, o);
      if f.kind == EOF {
        forged, held, later := [], None, [];
        EndReturns(step, verify, file, o, partial, rs);
      } else {
        var some, more := OneTurn(step, verify, file, o, partial, f, rs);
        forged, held, later := Across(step, verify, file, f.next, e, Holding(partial, f.kind, f.data), more);
        Regroup(some, forged, later);
        forged := some + forged;
      }
    }
  }

  lemma {:induction false} EndReturns(step: ByteStep, verify: bool, file: seq<uint8>, o: nat, partial: Partial,
                                      rs: seq<seq<uint8>>)
    requires Returns(step, verify, file, o, partial, rs) && NextFragment(step, verify, file, o).kind == EOF
    ensures rs == []
  {
    assert rs == Records(step, verify, file, o, partial);
  }

  /** Whatever is in the blocks in front of `e`: the reader comes into step at `e`, or returns nothing from there. */
  lemma {:induction false} AcrossBlocks(step: ByteStep, verify: bool, file: seq<uint8>, o: nat, e: nat,
                                        partial: Partial)
    returns (forged: seq<seq<uint8>>, held: Partial)
    requires o <= e <= |file| && e % BLOCK == 0
    ensures Records(step, verify, file, o, partial)
         == forged + if Passes(step, verify, file, o, e) then Records(step, verify, file, e, held) else []
  {
    var rs, later := Records(step, verify, file, o, partial), [];
    forged, held, later := Across(step, verify, file, o, e, partial, rs);
    assert Passes(step, verify, file, o, e) ==> later == Records(step, verify, file, e, held);
  }

  lemma {:induction false} SameRecords(step: ByteStep, verify: bool, file: seq<uint8>, o: nat, e: nat, partial: Partial,
                                       rs: seq<seq<uint8>>)
    requires Returns(step, verify, file, o, partial, rs)
    requires e == o + Padding(o % BLOCK) <= |file| && e % BLOCK == 0
    ensures Returns(step, verify, file, e, partial, rs)
  {
    assert rs == Records(step, verify, file, o, partial);
    var r := ReadRecord(step, verify, file, o, partial);
    SameRecord(step, verify, file, o, e, partial, r);
  }

  /** Where a record goes on at a block boundary: not from its first fragment, if its header is in front. */
  lemma {:induction false} RestOfRecord(step: ByteStep, o: nat, b: nat, data: seq<uint8>, begin: bool,
                                        bytes: seq<uint8>, c: nat)
    returns (rest: seq<uint8>)
    requires b <= BLOCK && Aligned(o, b) && (o + c) % BLOCK == 0 && Spells(step, b, data, begin, bytes)
    requires c < |bytes|
    ensures Spells(step, 0, rest, begin && c <= Padding(b), bytes[c..])
    decreases |data|, if Room(b) == 0 then 1 else 0
  {
    var first, more, head, later := FirstFragment(step, b, data, begin, bytes);
    if c < |head| {
      BoundaryInFront(o, b, |first|, c);
      BehindPadding(step, b, data, begin, bytes);
      rest := data;
      assert c == Padding(b);
    } else {
      AlignedNext(o, b, |first|);
      assert bytes[c..] == later[c - |head|..];
      rest := RestOfRecord(step, o + |head|, BLOCK, more, false, later, c - |head|);
    }
  }

  lemma {:induction false} RestReturns(step: ByteStep, verify: bool, file: seq<uint8>, o: nat, b: nat, data: seq<uint8>,
                                    bytes: seq<uint8>, partial: Partial, rs: seq<seq<uint8>>)
    returns (forged: seq<seq<uint8>>, later: seq<seq<uint8>>)
    requires b <= BLOCK && Aligned(o, b) && Spells(step, b, data, false, bytes)
    requires Holds(file, o, bytes) && Returns(step, verify, file, o, partial, rs)
    ensures rs == forged + later && |forged| <= if partial.Some? then 1 else 0
    ensures Returns(step, verify, file, o + |bytes|, None, later)
    decreases |data|, if Room(b) == 0 then 1 else 0
  {
    var first, more, head, tail := FirstFragment(step, b, data, false, bytes);
    HoldsParts(file, o, head, tail);
    var t := FragmentType(false, more == []);
    var f := HeadFragment(step, verify, file, o, b, t, first, head);
    forged, later := OneTurn(step, verify, file, o, partial, f, rs);
    if more != [] {
      var others;
      var now := Holding(partial, t as int, first);
      others, later := RestReturns(step, verify, file, o + |head|, BLOCK, more, tail, now, later);
      Regroup(forged, others, later);
      Units(others);
      forged := forged + others;
    }
  }

  /**
   The rest of a record is read without its front: it yields at most one record, and none if the
   reader does not hold the front of another, and then those behind it.
   */
  lemma {:induction false} RestRead(step: ByteStep, verify: bool, file: seq<uint8>, o: nat, b: nat, data: seq<uint8>,
                                    bytes: seq<uint8>, partial: Partial)
    returns (forged: seq<seq<uint8>>)
    requires b <= BLOCK && Aligned(o, b) && bytes == Frames(step, b, data, false).bytes && Holds(file, o, bytes)
    ensures |forged| <= if partial.Some? then 1 else 0
    ensures Records(step, verify, file, o, partial) == forged + Records(step, verify, file, o + |bytes|, None)
  {
    var rs, later := Records(step, verify, file, o, partial), [];
    forged, later := RestReturns(step, verify, file, o, b, data, bytes, partial, rs);
    assert later == Records(step, verify, file, o + |bytes|, None);
  }

  lemma {:induction false} HeadFragment(step: ByteStep, verify: bool, file: seq<uint8>, o: nat, b: nat, t: uint8,
                                        data: seq<uint8>, head: seq<uint8>)
    returns (f: Fragment)
    requires b <= BLOCK && Aligned(o, b) && FULL <= t <= LAST && |data| <= Room(b)
    requires head == Zeros(Padding(b)) + Physical(step, t, data) && Holds(file, o, head)
    ensures f == NextFragment(step, verify, file, o) == Fragment(t as int, data, o + |head|, None)
    ensures Aligned(o + |head|, Begin(b) + HEADER + |data|)
  {
    AlignedNext(o, b, |data|);
    HoldsParts(file, o, Zeros(Padding(b)), Physical(step, t, data));
    FragmentReadBack(step, verify, file, o, t, data);
    f := NextFragment(step, verify, file, o);
  }

  /** How many of the records have their first header in front of offset `e`. */
  function Begun(step: ByteStep, o: nat, b: nat, records: seq<seq<uint8>>, e: nat): (n: nat)
    decreases |records|
    ensures n <= |records|
  {
    if records == [] || o + Padding(b) >= e then 0
    else
      var first := Frames(step, b, records[0], true);
      1 + Begun(step, o + |first.bytes|, first.position, records[1..], e)
  }

  /** These are the records whose header is in front of `e`, where the log of those before them and its padding end. */
  lemma {:induction false} BegunExactly(step: ByteStep, o: nat, b: nat, records: seq<seq<uint8>>, e: nat, i: nat)
    requires i < |records|
    ensures var w := WriteLog(step, b, records[..i]);
            i < Begun(step, o, b, records, e) <==> o + |w.bytes| + Padding(w.position) < e
    decreases i
  {
    if i > 0 {
      BehindFirst(records, i);
      var first := Frames(step, b, records[0], true);
      BegunExactly(step, o + |first.bytes|, first.position, records[1..], e, i - 1);
    }
  }

  /** The bytes are those of a log. Quantified as `Spells` is. */
  ghost predicate LogSpells(step: ByteStep, b: nat, records: seq<seq<uint8>>, bytes: seq<uint8>) {
    forall at: nat :: at == b ==> WriteLog(step, at, records).bytes == bytes
  }

  /** The records whose first header is at or behind `e`. Quantified as `Spells` is. */
  ghost predicate BeginBehind(step: ByteStep, o: nat, b: nat, records: seq<seq<uint8>>, e: nat, rest: seq<seq<uint8>>) {
    forall at: nat :: at == o ==> records[Begun(step, at, b, records, e)..] == rest
  }

  /** The records that end at or before `cut`. Quantified as `Spells` is. */
  ghost predicate EndBefore(step: ByteStep, o: nat, b: nat, records: seq<seq<uint8>>, cut: nat,
                            front: seq<seq<uint8>>) {
    forall at: nat :: at == o ==> records[..Complete(step, at, b, records, cut)] == front
  }

  /** A log is its first record and a log of the others, and a record is in front of a damaged block or not. */
  lemma {:induction false} FirstOfLog(step: ByteStep, o: nat, b: nat, records: seq<seq<uint8>>, bytes: seq<uint8>)
    returns (first: seq<uint8>, position: nat, later: seq<uint8>)
    requires b <= BLOCK && Aligned(o, b) && records != [] && LogSpells(step, b, records, bytes)
    ensures bytes == first + later && |first| > Padding(b) && position <= BLOCK && Aligned(o + |first|, position)
    ensures Spells(step, b, records[0], true, first) && LogSpells(step, position, records[1..], later)
    ensures forall e: nat, rest |
              o + Padding(b) < e && BeginBehind(step, o + |first|, position, records[1..], e, rest) ::
              BeginBehind(step, o, b, records, e, rest)
    ensures forall cut: nat, front |
              o + |first| <= cut && EndBefore(step, o + |first|, position, records[1..], cut, front) ::
              EndBefore(step, o, b, records, cut, [records[0]] + front)
    ensures forall cut: nat | cut < o + |first| :: EndBefore(step, o, b, records, cut, [])
  {
    assert bytes == WriteLog(step, b, records).bytes;
    var w, others := FirstAndRest(step, o, b, records, 0);
    FramesAligned(step, o, b, records[0], true);
    first, position, later := w.bytes, w.position, others;
    forall e: nat, rest | o + Padding(b) < e && BeginBehind(step, o + |first|, position, records[1..], e, rest)
      ensures BeginBehind(step, o, b, records, e, rest)
    {
      OneBegun(step, o, b, records, e, w, rest);
    }
    forall cut: nat, front | o + |first| <= cut && EndBefore(step, o + |first|, position, records[1..], cut, front)
      ensures EndBefore(step, o, b, records, cut, [records[0]] + front)
    {
      OneComplete(step, o, b, records, cut, w, front);
    }
  }

  lemma {:induction false} OneComplete(step: ByteStep, o: nat, b: nat, records: seq<seq<uint8>>, cut: nat, w: Written,
                                       front: seq<seq<uint8>>)
    requires records != [] && o + |w.bytes| <= cut && w == Frames(step, b, records[0], true)
    requires EndBefore(step, o + |w.bytes|, w.position, records[1..], cut, front)
    ensures EndBefore(step, o, b, records, cut, [records[0]] + front)
  {
    var n := Complete(step, o + |w.bytes|, w.position, records[1..], cut);
    assert front == records[1..][..n];
    PrefixOf(records, n);
  }

  lemma {:induction false} OneBegun(step: ByteStep, o: nat, b: nat, records: seq<seq<uint8>>, e: nat, w: Written,
                                    rest: seq<seq<uint8>>)
    requires records != [] && o + Padding(b) < e && w == Frames(step, b, records[0], true)
    requires BeginBehind(step, o + |w.bytes|, w.position, records[1..], e, rest)
    ensures BeginBehind(step, o, b, records, e, rest)
  {
    var n := Begun(step, o + |w.bytes|, w.position, records[1..], e);
    assert rest == records[1..][n..];
    assert records[1..][n..] == records[n + 1..];
  }

  lemma {:induction false} AllBehind(step: ByteStep, o: nat, b: nat, records: seq<seq<uint8>>, e: nat)
    requires records == [] || o + Padding(b) >= e
    ensures BeginBehind(step, o, b, records, e, records)
  {
  }

  /** From the end of the damaged block on: the records that begin there, behind at most one more. */
  lemma {:induction false} BehindDamage(step: ByteStep, verify: bool, file: seq<uint8>, o: nat, b: nat,
                                        records: seq<seq<uint8>>, bytes: seq<uint8>, e: nat, held: Partial,
                                        rs: seq<seq<uint8>>)
    returns (forged: seq<seq<uint8>>, behind: seq<seq<uint8>>)
    requires b <= BLOCK && Aligned(o, b) && LogSpells(step, b, records, bytes) && |file| == o + |bytes|
    requires o <= e <= |file| && e % BLOCK == 0 && Holds(file, e, bytes[e - o..])
    requires Returns(step, verify, file, e, held, rs)
    ensures rs == forged + behind && BeginBehind(step, o, b, records, e, behind) && (held.None? ==> forged == [])
    decreases |records|
  {
    if records == [] || o + Padding(b) >= e {
      forged, behind := [], records;
      Units(records);
      AllBehind(step, o, b, records, e);
      FromNext(step, verify, file, o, b, records, bytes, e, held, rs);
    } else {
      var first, position, later := FirstOfLog(step, o, b, records, bytes);
      var next := o + |first|;
      if next <= e {
        assert bytes[e - o..] == later[e - next..];
        forged, behind := BehindDamage(step, verify, file, next, position, records[1..], later, e, held, rs);
      } else {
        behind := records[1..];
        AllBehind(step, next, position, behind, e);
        forged := FromMiddle(step, verify, file, o, b, records[0], first, position, behind, later, e, held, rs);
      }
    }
  }

  lemma {:induction false} NothingLeft(step: ByteStep, verify: bool, file: seq<uint8>, e: nat, held: Partial,
                                       rs: seq<seq<uint8>>)
    requires e == |file| && Returns(step, verify, file, e, held, rs)
    ensures rs == []
  {
    assert NextFragment(step, verify, file, e) == Fragment(EOF, [], e, None);
    assert rs == Records(step, verify, file, e, held);
  }

  lemma {:induction false} FromNext(step: ByteStep, verify: bool, file: seq<uint8>, o: nat, b: nat,
                                    records: seq<seq<uint8>>, bytes: seq<uint8>, e: nat, held: Partial,
                                    rs: seq<seq<uint8>>)
    requires b <= BLOCK && Aligned(o, b) && LogSpells(step, b, records, bytes) && |file| == o + |bytes|
    requires records == [] || o + Padding(b) >= e
    requires o <= e <= |file| && e % BLOCK == 0 && Holds(file, e, bytes[e - o..])
    requires Returns(step, verify, file, e, held, rs)
    ensures rs == records
  {
    if records == [] {
      EmptyLog(step, b, bytes);
      NothingLeft(step, verify, file, e, held, rs);
    } else {
      FromNextRecord(step, verify, file, o, b, records, bytes, e, held, rs);
    }
  }

  /** A record begins at the boundary, or its padding ends there: what the reader holds does not matter. */
  lemma {:induction false} FromNextRecord(step: ByteStep, verify: bool, file: seq<uint8>, o: nat, b: nat,
                                          records: seq<seq<uint8>>, bytes: seq<uint8>, e: nat, held: Partial,
                                          rs: seq<seq<uint8>>)
    requires b <= BLOCK && Aligned(o, b) && LogSpells(step, b, records, bytes) && |file| == o + |bytes|
    requires records != [] && o + Padding(b) >= e
    requires o <= e <= |file| && e % BLOCK == 0 && Holds(file, e, bytes[e - o..])
    requires Returns(step, verify, file, e, held, rs)
    ensures rs == records
  {
    BehindItsPadding(step, o, b, records, bytes, e);
    FromStart(step, verify, file, e, records, bytes[e - o..], held, rs);
  }

  lemma {:induction false} BehindItsPadding(step: ByteStep, o: nat, b: nat, records: seq<seq<uint8>>, bytes: seq<uint8>,
                                            e: nat)
    requires b <= BLOCK && Aligned(o, b) && records != [] && LogSpells(step, b, records, bytes)
    requires o <= e <= o + Padding(b) && e % BLOCK == 0
    ensures e - o <= |bytes| && LogSpells(step, 0, records, bytes[e - o..])
  {
    var n := e - o;
    SamePosition(o, b, n);
    assert (b + n) % BLOCK == 0 && bytes == WriteLog(step, b, records).bytes;
    LogInPadding(step, b, n, records);
    DropFront(Zeros(n), WriteLog(step, 0, records).bytes, bytes);
  }

  lemma {:induction false} FromStart(step: ByteStep, verify: bool, file: seq<uint8>, e: nat, records: seq<seq<uint8>>,
                                     bytes: seq<uint8>, held: Partial, rs: seq<seq<uint8>>)
    requires records != [] && e % BLOCK == 0 && LogSpells(step, 0, records, bytes) && Holds(file, e, bytes)
    requires |file| == e + |bytes| && Returns(step, verify, file, e, held, rs)
    ensures rs == records
  {
    assert bytes == WriteLog(step, 0, records).bytes;
    ToTheEnd(file, e, bytes);
    NewRecord(step, verify, file, e, 0, records);
    LogToEnd(step, verify, file, e, 0, records);
    DroppedRecords(step, verify, file, e, held, rs);
  }

  lemma {:induction false} DropFront(front: seq<uint8>, rest: seq<uint8>, all: seq<uint8>)
    requires all == front + rest
    ensures all[|front|..] == rest && |all| == |front| + |rest|
  {
  }

  lemma {:induction false} DroppedRecords(step: ByteStep, verify: bool, file: seq<uint8>, e: nat, held: Partial,
                                          rs: seq<seq<uint8>>)
    requires Returns(step, verify, file, e, held, rs)
    requires NextFragment(step, verify, file, e).kind in {FULL as int, FIRST as int}
    ensures rs == ReadLog(step, verify, file, e).records
  {
    assert rs == Records(step, verify, file, e, held);
    Dropped(step, verify, file, e, held, ReadRecord(step, verify, file, e, held));
  }

  /** The boundary is in the middle of a record. */
  lemma {:induction false} FromMiddle(step: ByteStep, verify: bool, file: seq<uint8>, o: nat, b: nat, data: seq<uint8>,
                                      first: seq<uint8>, position: nat, behind: seq<seq<uint8>>, later: seq<uint8>,
                                      e: nat, held: Partial, rs: seq<seq<uint8>>)
    returns (forged: seq<seq<uint8>>)
    requires b <= BLOCK && Aligned(o, b) && Spells(step, b, data, true, first)
    requires position <= BLOCK && Aligned(o + |first|, position) && LogSpells(step, position, behind, later)
    requires o + Padding(b) < e < o + |first| && e % BLOCK == 0 && |file| == o + |first| + |later|
    requires Holds(file, e, (first + later)[e - o..]) && Returns(step, verify, file, e, held, rs)
    ensures rs == forged + behind && (held.None? ==> forged == [])
  {
    var tail;
    var rest := RestOfRecord(step, o, b, data, true, first, e - o);
    assert (first + later)[e - o..] == first[e - o..] + later;
    HoldsParts(file, e, first[e - o..], later);
    forged, tail := RestReturns(step, verify, file, e, 0, rest, first[e - o..], held, rs);
    RecordsToEnd(step, verify, file, o + |first|, position, behind, later, tail);
  }

  lemma {:induction false} RecordsToEnd(step: ByteStep, verify: bool, file: seq<uint8>, o: nat, b: nat,
                                        records: seq<seq<uint8>>, bytes: seq<uint8>, rs: seq<seq<uint8>>)
    requires b <= BLOCK && Aligned(o, b) && LogSpells(step, b, records, bytes) && Holds(file, o, bytes)
    requires |file| == o + |bytes| && Returns(step, verify, file, o, None, rs)
    ensures rs == records
  {
    assert bytes == WriteLog(step, b, records).bytes;
    LogToEnd(step, verify, file, o, b, records);
    assert rs == Records(step, verify, file, o, None);
  }

  lemma {:induction false} IntactReading(step: ByteStep, verify: bool, file: seq<uint8>, o: nat, b: nat,
                                         data: seq<uint8>, first: seq<uint8>)
    requires b <= BLOCK && Aligned(o, b) && Spells(step, b, data, true, first) && Holds(file, o, first)
    ensures Gives(step, verify, file, o, None, Reading(Some(data), o + |first|, 0, 0))
  {
    assert first == Frames(step, b, data, true).bytes;
    RecordWhole(step, verify, file, o, b, data);
  }

  lemma {:induction false} IntactRecord(step: ByteStep, verify: bool, file: seq<uint8>, o: nat, data: seq<uint8>,
                                        next: nat, rs: seq<seq<uint8>>)
    returns (later: seq<seq<uint8>>)
    requires Gives(step, verify, file, o, None, Reading(Some(data), next, 0, 0)) && next <= |file|
    requires Returns(step, verify, file, o, None, rs)
    ensures rs == [data] + later && Returns(step, verify, file, next, None, later)
  {
    assert rs == Records(step, verify, file, o, None);
    later := Records(step, verify, file, next, None);
  }

  /** The next record reaches over the boundary. */
  lemma {:induction false} OverBoundary(step: ByteStep, verify: bool, file: seq<uint8>, o: nat, b: nat,
                                        data: seq<uint8>, first: seq<uint8>, start: nat, rs: seq<seq<uint8>>)
    returns (held: Partial)
    requires b <= BLOCK && Aligned(o, b) && Spells(step, b, data, true, first)
    requires o <= start < o + |first| && start % BLOCK == 0 && Holds(file, o, first[..start - o])
    requires Returns(step, verify, file, o, None, rs)
    ensures Returns(step, verify, file, start, held, rs)
  {
    assert rs == Records(step, verify, file, o, None);
    var r := ReadRecord(step, verify, file, o, None);
    var some, rest;
    held, some, rest := UpToBlock(step, verify, file, o, b, data, None, first, start - o, r);
  }

  /** Up to a block boundary the file is a log: the records that end there, then what the reader makes of the rest. */
  lemma {:induction false} InFront(step: ByteStep, verify: bool, file: seq<uint8>, o: nat, b: nat,
                                   records: seq<seq<uint8>>, bytes: seq<uint8>, start: nat, rs: seq<seq<uint8>>)
    returns (front: seq<seq<uint8>>, held: Partial, later: seq<seq<uint8>>)
    requires b <= BLOCK && Aligned(o, b) && LogSpells(step, b, records, bytes)
    requires o <= start <= o + |bytes| && start % BLOCK == 0 && Holds(file, o, bytes[..start - o])
    requires Returns(step, verify, file, o, None, rs)
    ensures rs == front + later && Returns(step, verify, file, start, held, later)
    ensures EndBefore(step, o, b, records, start, front)
    decreases |records|
  {
    if records == [] {
      EmptyLog(step, b, bytes);
      front, held, later := [], None, rs;
      Units(rs);
    } else {
      var first, position, more := FirstOfLog(step, o, b, records, bytes);
      var next := o + |first|;
      if next <= start {
        assert bytes[..start - o] == first + more[..start - next];
        HoldsParts(file, o, first, more[..start - next]);
        IntactReading(step, verify, file, o, b, records[0], first);
        var others := IntactRecord(step, verify, file, o, records[0], next, rs);
        front, held, later := InFront(step, verify, file, next, position, records[1..], more, start, others);
        Regroup([records[0]], front, later);
        front := [records[0]] + front;
      } else {
        assert bytes[..start - o] == first[..start - o];
        held := OverBoundary(step, verify, file, o, b, records[0], first, start, rs);
        front, later := [], rs;
        Units(rs);
      }
    }
  }

  lemma {:induction false} EmptyLog(step: ByteStep, b: nat, bytes: seq<uint8>)
    requires LogSpells(step, b, [], bytes)
    ensures bytes == []
  {
    assert bytes == WriteLog(step, b, []).bytes;
  }

  /** The file is as long as the log, and the same but for the blocks from `start` to `e`. */
  predicate Damaged(file: seq<uint8>, bytes: seq<uint8>, start: nat, e: nat) {
    && start <= e <= |file| == |bytes| && start % BLOCK == 0 && e % BLOCK == 0
    && file[..start] == bytes[..start] && file[e..] == bytes[e..]
  }

  /**
   A log of which any blocks in a row are damaged, with any bytes. All records that end in front of
   them are returned first. All that begin behind them are returned last, exactly if the reader
   passes the damage; otherwise it ends there. Whatever is made of the damage comes between them.
   */
  lemma {:induction false} BlocksDamaged(step: ByteStep, verify: bool, records: seq<seq<uint8>>, file: seq<uint8>,
                                         start: nat, e: nat)
    returns (forged: seq<seq<uint8>>)
    requires Damaged(file, WriteLog(step, 0, records).bytes, start, e)
    ensures ReadLog(step, verify, file, 0).records
         == records[..Complete(step, 0, 0, records, start)] + forged
            + if Passes(step, verify, file, start, e) then records[Begun(step, 0, 0, records, e)..] else []
    ensures start < e && NextFragment(step, verify, file, start).kind == EOF ==>
              forged == [] && !Passes(step, verify, file, start, e)
  {
    var bytes, rs := WriteLog(step, 0, records).bytes, Records(step, verify, file, 0, None);
    var front, more, behind;
    front, forged, more, behind := AroundDamage(step, verify, records, bytes, file, start, e, rs);
    assert front == records[..Complete(step, 0, 0, records, start)];
    assert Passes(step, verify, file, start, e) ==> behind == records[Begun(step, 0, 0, records, e)..];
    Regroup(front, forged, more);
  }

  lemma {:induction false} AroundDamage(step: ByteStep, verify: bool, records: seq<seq<uint8>>, bytes: seq<uint8>,
                                        file: seq<uint8>, start: nat, e: nat, rs: seq<seq<uint8>>)
    returns (front: seq<seq<uint8>>, forged: seq<seq<uint8>>, more: seq<seq<uint8>>, behind: seq<seq<uint8>>)
    requires LogSpells(step, 0, records, bytes) && Damaged(file, bytes, start, e)
    requires Returns(step, verify, file, 0, None, rs)
    ensures rs == front + (forged + more) && EndBefore(step, 0, 0, records, start, front)
    ensures if Passes(step, verify, file, start, e) then more == behind && BeginBehind(step, 0, 0, records, e, behind)
            else more == []
    ensures start < e && NextFragment(step, verify, file, start).kind == EOF ==>
              forged == [] && !Passes(step, verify, file, start, e)
  {
    assert file[0..start] == file[..start];
    assert file[e..|file|] == file[e..];
    var held, later, still;
    front, held, later := InFront(step, verify, file, 0, 0, records, bytes, start, rs);
    forged, still, more := Across(step, verify, file, start, e, held, later);
    behind := more;
    if Passes(step, verify, file, start, e) {
      var others;
      others, behind := BehindDamage(step, verify, file, 0, 0, records, bytes, e, still, more);
      Regroup(forged, others, behind);
      forged, more := forged + others, behind;
    }
  }

  // When the reader passes

  lemma {:induction false} PassesRecord(step: ByteStep, verify: bool, file: seq<uint8>, o: nat, b: nat,
                                        data: seq<uint8>, begin: bool, bytes: seq<uint8>, e: nat)
    requires b <= BLOCK && Aligned(o, b) && Spells(step, b, data, begin, bytes) && Holds(file, o, bytes)
    requires Passes(step, verify, file, o + |bytes|, e)
    ensures Passes(step, verify, file, o, e)
  {
    WithTail(file, o, bytes);
    PassesFrames(step, verify, file, o, b, data, begin, bytes, file[o + |bytes|..], o + |bytes|, e);
  }

  lemma {:induction false} PassesFrames(step: ByteStep, verify: bool, file: seq<uint8>, o: nat, b: nat,
                                        data: seq<uint8>, begin: bool, bytes: seq<uint8>, tail: seq<uint8>,
                                        last: nat, e: nat)
    requires FramesCut(step, file, o, b, data, begin, bytes, tail, last) && last <= |file|
    requires Passes(step, verify, file, last, e)
    ensures Passes(step, verify, file, o, e)
    decreases |data|, if Room(b) == 0 then 1 else 0
  {
    var next, some, rest, later := NextOfRecord(step, verify, file, o, b, data, begin, bytes, tail, last);
    if rest != [] {
      PassesFrames(step, verify, file, next, BLOCK, rest, false, later, tail, last, e);
    }
    PassesFragment(step, verify, file, o, e, next);
  }

  lemma {:induction false} PassesFragment(step: ByteStep, verify: bool, file: seq<uint8>, o: nat, e: nat, next: nat)
    requires o <= |file| && next <= |file| && Passes(step, verify, file, next, e)
    requires NextFragment(step, verify, file, o).kind != EOF && NextFragment(step, verify, file, o).next == next
    ensures Passes(step, verify, file, o, e)
  {
  }

  lemma {:induction false} PassesLog(step: ByteStep, verify: bool, file: seq<uint8>, o: nat, b: nat,
                                     records: seq<seq<uint8>>, bytes: seq<uint8>, e: nat)
    requires b <= BLOCK && Aligned(o, b) && LogSpells(step, b, records, bytes) && Holds(file, o, bytes)
    requires e <= o + |bytes|
    ensures Passes(step, verify, file, o, e)
    decreases |records|
  {
    if records == [] {
      EmptyLog(step, b, bytes);
    } else {
      var first, position, later := FirstOfLog(step, o, b, records, bytes);
      HoldsParts(file, o, first, later);
      PassesLog(step, verify, file, o + |first|, position, records[1..], later, e);
      PassesRecord(step, verify, file, o, b, records[0], true, first, e);
    }
  }

  lemma {:induction false} PassesFrom(step: ByteStep, verify: bool, file: seq<uint8>, o: nat, b: nat,
                                      records: seq<seq<uint8>>, bytes: seq<uint8>, start: nat, e: nat)
    requires b <= BLOCK && Aligned(o, b) && LogSpells(step, b, records, bytes) && Holds(file, o, bytes)
    requires o <= start <= e <= o + |bytes| && start % BLOCK == 0
    ensures Passes(step, verify, file, start, e)
    decreases |records|
  {
    if records == [] {
      EmptyLog(step, b, bytes);
    } else {
      var first, position, later := FirstOfLog(step, o, b, records, bytes);
      HoldsParts(file, o, first, later);
      var next := o + |first|;
      if next <= start {
        PassesFrom(step, verify, file, next, position, records[1..], later, start, e);
      } else {
        var rest := RestOfRecord(step, o, b, records[0], true, first, start - o);
        SplitAt(first, start - o);
        HoldsParts(file, o, first[..start - o], first[start - o..]);
        PassesLog(step, verify, file, next, position, records[1..], later, e);
        PassesRecord(step, verify, file, start, 0, rest, start - o <= Padding(b), first[start - o..], e);
      }
    }
  }

  /** A log passes where it is not damaged. */
  lemma {:induction false} UndamagedPasses(step: ByteStep, verify: bool, records: seq<seq<uint8>>, start: nat, e: nat)
    requires start <= e <= |WriteLog(step, 0, records).bytes| && start % BLOCK == 0
    ensures Passes(step, verify, WriteLog(step, 0, records).bytes, start, e)
  {
    var bytes := WriteLog(step, 0, records).bytes;
    assert bytes[0..|bytes|] == bytes;
    PassesFrom(step, verify, bytes, 0, 0, records, bytes, start, e);
  }

  /** A fragment of that type at the start of a block ends the reading: all records behind it are lost. */
  lemma {:induction false} ForgedEnd(step: ByteStep, verify: bool, records: seq<seq<uint8>>, file: seq<uint8>,
                                     start: nat, e: nat, data: seq<uint8>)
    requires Damaged(file, WriteLog(step, 0, records).bytes, start, e) && start < e
    requires |data| <= BLOCK - HEADER && Holds(file, start, Physical(step, EOF as uint8, data))
    ensures !Passes(step, verify, file, start, e)
    ensures ReadLog(step, verify, file, 0).records == records[..Complete(step, 0, 0, records, start)]
  {
    EndInBlock(step, verify, file, start, data);
    var forged := BlocksDamaged(step, verify, records, file, start, e);
    Units(records[..Complete(step, 0, 0, records, start)]);
  }

  lemma {:induction false} EndInBlock(step: ByteStep, verify: bool, file: seq<uint8>, start: nat, data: seq<uint8>)
    requires start % BLOCK == 0 && start + BLOCK <= |file| && |data| <= BLOCK - HEADER
    requires Holds(file, start, Physical(step, EOF as uint8, data))
    ensures NextFragment(step, verify, file, start).kind == EOF
  {
    var buffer := file[start..start + BLOCK];
    assert buffer[..HEADER + |data|] == file[start..start + HEADER + |data|];
    PhysicalInBuffer(step, verify, buffer, false, EOF as uint8, data);
  }
}
