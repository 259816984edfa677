/**
 Write batches as objects: building one, appending one to another, and handing its operations to a
 memtable inserter one by one.
 */
module WriteBatches {
  import opened Words
  import opened Memory
  import opened FixedCoding
  import opened SliceCoding
  import opened BatchFormat

  /** What the memtable receives: an operation under its sequence number. */
  datatype Entry = Entry(sequence: uint64, op: Op)

  const SEQUENCES := 0x1_0000_0000_0000_0000

  function Numbered(sequence: nat, ops: seq<Op>): (es: seq<Entry>)
    decreases |ops|
    ensures |es| == |ops|
  {
    if ops == [] then [] else [Entry(sequence % SEQUENCES, ops[0])] + Numbered(sequence + 1, ops[1..])
  }

  /** Operation `i` has the batch's sequence number plus `i`. */
  lemma {:induction false} NumberedAt(sequence: nat, ops: seq<Op>, i: nat)
    requires i < |ops|
    ensures Numbered(sequence, ops)[i] == Entry((sequence + i) % SEQUENCES, ops[i])
    decreases i
  {
    if i > 0 {
      NumberedAt(sequence + 1, ops[1..], i - 1);
    }
  }

  lemma {:induction false} NumberedSnoc(sequence: nat, ops: seq<Op>, op: Op)
    ensures Numbered(sequence, ops + [op])
         == Numbered(sequence, ops) + [Entry((sequence + |ops|) % SEQUENCES, op)]
    decreases |ops|
  {
    if ops != [] {
      assert (ops + [op])[0] == ops[0] && (ops + [op])[1..] == ops[1..] + [op];
      NumberedSnoc(sequence + 1, ops[1..], op);
    }
  }

  lemma {:induction false} NumberedInjective(sequence: nat, a: seq<Op>, b: seq<Op>)
    requires Numbered(sequence, a) == Numbered(sequence, b)
    ensures a == b
  {
    assert |a| == |b|;
    forall i: nat | i < |a|
      ensures a[i] == b[i]
    {
      NumberedAt(sequence, a, i);
      NumberedAt(sequence, b, i);
    }
  }

  /** A batch is entered as a whole, and without an error, exactly if all of it fits and can be counted. */
  lemma {:induction false} EnteredWhole(sequence: uint64, ops: seq<Op>)
    ensures var r := Replay(Rep(sequence, ops));
            r.status == Ok && Numbered(sequence, r.ops) == Numbered(sequence, ops)
            <==> AllOpsFit(ops) && |ops| < 0x8000_0000
  {
    ReplayBack(sequence, ops);
    var r := Replay(Rep(sequence, ops));
    if Numbered(sequence, r.ops) == Numbered(sequence, ops) {
      NumberedInjective(sequence, r.ops, ops);
    }
  }

  /** `MemTableInserter` with the memtable it fills: every operation takes the next sequence number. */
  class Inserter {
    var sequence: uint64
    var entries: seq<Entry>

    constructor (sequence: uint64)
      ensures this.sequence == sequence && entries == []
    {
      this.sequence, entries := sequence, [];
    }

    method Add(op: Op)
      modifies this
      ensures entries == old(entries) + [Entry(old(sequence), op)]
      ensures sequence == (old(sequence) + 1) % SEQUENCES
    {
      entries := entries + [Entry(sequence, op)];
      sequence := (sequence + 1) % SEQUENCES;
    }
  }

  class WriteBatch {
    const rep: StringBuffer

    constructor ()
      ensures fresh(rep) && rep.bytes == Rep(0, [])
    {
      rep := new StringBuffer();
      new;
      Clear();
    }

    method Clear()
      modifies rep
      ensures rep.bytes == Rep(0, [])
    {
      EmptyRep();
      rep.bytes := seq(HEADER_SIZE, _ => 0);
    }

    method CountOf() returns (n: int)
      requires |rep.bytes| >= HEADER_SIZE
      ensures n == Count(rep.bytes)
    {
      assert rep.bytes[8..][..4] == rep.bytes[8..HEADER_SIZE];
      var word := DecodeFixed32(rep.bytes[8..]);
      n := if word < 0x8000_0000 then word else word - SIZE_LIMIT;
    }

    method SequenceOf() returns (sequence: uint64)
      requires |rep.bytes| >= HEADER_SIZE
      ensures sequence == Sequence(rep.bytes)
    {
      sequence := DecodeFixed64(rep.bytes);
    }

    /** Encodes the count, as a 32-bit word, into the header. */
    method SetCount(n: int)
      requires |rep.bytes| >= HEADER_SIZE
      modifies rep
      ensures rep.bytes == Overwrite(old(rep.bytes), 8, Fixed(n % SIZE_LIMIT, 4))
    {
      var buf := new uint8[4];
      EncodeFixed32(buf, 0, n % SIZE_LIMIT);
      assert buf[..] == Fixed(n % SIZE_LIMIT, 4);
      rep.bytes := Overwrite(rep.bytes, 8, buf[..]);
    }

    method SetSequence(sequence: uint64)
      requires |rep.bytes| >= HEADER_SIZE
      modifies rep
      ensures rep.bytes == Overwrite(old(rep.bytes), 0, Fixed(sequence, 8))
    {
      var buf := new uint8[8];
      EncodeFixed64(buf, 0, sequence);
      assert buf[..] == Fixed(sequence, 8);
      rep.bytes := Overwrite(rep.bytes, 0, buf[..]);
    }

    method SetContents(contents: seq<uint8>)
      requires |contents| >= HEADER_SIZE
      modifies rep
      ensures rep.bytes == contents
    {
      rep.bytes := contents;
    }

    method PushBack(byte: uint8)
      modifies rep
      ensures rep.bytes == old(rep.bytes) + [byte]
    {
      rep.bytes := rep.bytes + [byte];
    }

    /** The count is a signed number; incrementing the largest one is undefined. */
    method Put(key: StringView, value: StringView)
      requires |rep.bytes| >= HEADER_SIZE && Count(rep.bytes) < 0x7fff_ffff
      requires key.Valid() && value.Valid()
      modifies rep
      ensures rep.bytes
           == Extended(old(rep.bytes), 1, OpBytes(Op.Put(old(key.View()), old(value.View()))))
      ensures |old(rep.bytes)| < |rep.bytes| && rep.bytes[|old(rep.bytes)|] == 1
    {
      ghost var k, v := PutSlice(key.View()), PutSlice(value.View());
      var count := CountOf();
      SetCount(count + 1);
      ghost var counted := rep.bytes;
      PushBack(VALUE);
      PutLengthPrefixedSlice(rep, key);
      PutLengthPrefixedSlice(rep, value);
      Regroup(counted + [VALUE], k, v);
      Regroup(counted, [VALUE], k + v);
      CountedIsExtended(old(rep.bytes), counted, 1, [VALUE] + (k + v));
    }

    method Delete(key: StringView)
      requires |rep.bytes| >= HEADER_SIZE && Count(rep.bytes) < 0x7fff_ffff
      requires key.Valid()
      modifies rep
      ensures rep.bytes == Extended(old(rep.bytes), 1, OpBytes(Op.Delete(old(key.View()))))
      ensures |old(rep.bytes)| < |rep.bytes| && rep.bytes[|old(rep.bytes)|] == 0
    {
      ghost var k := PutSlice(key.View());
      var count := CountOf();
      SetCount(count + 1);
      ghost var counted := rep.bytes;
      PushBack(DELETION);
      PutLengthPrefixedSlice(rep, key);
      assert rep.bytes == counted + ([DELETION] + k);
      CountedIsExtended(old(rep.bytes), counted, 1, [DELETION] + k);
    }

    /** The other batch's operations, without its header. */
    method Append(source: WriteBatch)
      requires rep != source.rep
      requires |rep.bytes| >= HEADER_SIZE && |source.rep.bytes| >= HEADER_SIZE
      requires -0x8000_0000 <= Count(rep.bytes) + Count(source.rep.bytes) < 0x8000_0000
      modifies rep
      ensures rep.bytes
           == Extended(old(rep.bytes), Count(source.rep.bytes), source.rep.bytes[HEADER_SIZE..])
    {
      var count := CountOf();
      var more := source.CountOf();
      SetCount(count + more);
      ghost var counted := rep.bytes;
      rep.bytes := rep.bytes + source.rep.bytes[HEADER_SIZE..];
      CountedIsExtended(old(rep.bytes), counted, more, source.rep.bytes[HEADER_SIZE..]);
    }

    /** Enters the operations under the batch's own sequence numbers. */
    method InsertInto(table: Inserter) returns (status: Status)
      requires |rep.bytes| >= HEADER_SIZE
      modifies table
      ensures status == Replay(rep.bytes).status
      ensures table.entries == old(table.entries) + Numbered(Sequence(rep.bytes), Replay(rep.bytes).ops)
    {
      table.sequence := SequenceOf();
      status := Iterate(table);
    }

    /** Hands every operation to the inserter until the end, or until something is malformed. */
    method Iterate(handler: Inserter) returns (status: Status)
      modifies handler
      ensures var r := Replay(rep.bytes);
              && status == r.status
              && handler.entries == old(handler.entries) + Numbered(old(handler.sequence), r.ops)
    {
      if |rep.bytes| < HEADER_SIZE {
        return TooSmall;
      }
      var data := new uint8[|rep.bytes|](i requires 0 <= i < |rep.bytes| reads rep => rep.bytes[i]);
      assert data[..] == rep.bytes;
      var input := new StringView(data, 0, data.Length);
      input.RemovePrefix(HEADER_SIZE);
      ghost var body := input.View();
      assert body == rep.bytes[HEADER_SIZE..];
      var found;
      status, found := IterateOps(input, handler, ReplayOps(body));
      var count := CountOf();
      if status == Ok && found != count {
        status := WrongCount;
      }
    }

    /** The loop over the tagged records behind the header. */
    method IterateOps(input: StringView, handler: Inserter, ghost whole: Replayed) returns (status: Status, found: nat)
      requires input.Valid() && Replays(input.View(), whole)
      modifies input, handler
      ensures status == whole.status && found == |whole.ops|
      ensures handler.entries == old(handler.entries) + Numbered(old(handler.sequence), whole.ops)
    {
      ghost var s, toCome, seen: seq<Op> := input.View(), whole, [];
      ghost var entries, sequence := handler.entries, handler.sequence;
      found := 0;
      NothingSeen(whole, entries, sequence);
      while input.size > 0
        invariant input.Valid() && input.View() == s && found == |seen|
        invariant Replays(s, toCome)
        invariant Halfway(whole, toCome, seen, entries, sequence, handler.entries, handler.sequence)
        decreases input.size
      {
        ghost var now, number := handler.entries, handler.sequence;
        var next, later := HandOver(input, handler, s, toCome);
        if next.Bad? {
          AllSeen(whole, next.status, seen, entries, sequence, now, number);
          return next.status, found;
        }
        found := found + 1;
        OneMoreSeen(whole, next.op, later, seen, entries, sequence, now, number);
        s, toCome, seen := next.rest, later, seen + [next.op];
      }
      NothingToCome(s, toCome);
      AllSeen(whole, Ok, seen, entries, sequence, handler.entries, handler.sequence);
      status := Ok;
    }

    /** One turn of the loop: the callback for the next tagged record, if it is well formed. */
    method HandOver(input: StringView, handler: Inserter, ghost s: seq<uint8>, ghost toCome: Replayed)
      returns (next: Parsed, ghost later: Replayed)
      requires input.Valid() && input.size > 0 && s == input.View() && Replays(s, toCome)
      modifies input, handler
      ensures input.Valid()
      ensures next.Bad? ==> toCome == Replayed([], next.status)
      ensures next.Bad? ==> handler.entries == old(handler.entries) && handler.sequence == old(handler.sequence)
      ensures next.Record? ==> toCome == Replayed([next.op] + later.ops, later.status) && Replays(next.rest, later)
      ensures next.Record? ==> input.View() == next.rest && input.size < old(input.size)
      ensures next.Record? ==>
                && handler.entries == old(handler.entries) + [Entry(old(handler.sequence), next.op)]
                && handler.sequence == (old(handler.sequence) + 1) % SEQUENCES
    {
      next := ReadOp(input, s);
      later := ReplayStep(s, next, toCome);
      if next.Record? {
        handler.Add(next.op);
      }
    }

    /** One tagged record from the front of the input. */
    method ReadOp(input: StringView, ghost s: seq<uint8>) returns (next: Parsed)
      requires input.Valid() && input.size > 0 && s == input.View()
      modifies input
      ensures input.Valid() && next == NextOp(s)
      ensures next.Record? ==> input.View() == next.rest && input.size < old(input.size)
    {
      var tag := input.data[input.start];
      input.RemovePrefix(1);
      if tag == VALUE {
        next := ReadPut(input, s[1..]);
      } else if tag == DELETION {
        next := ReadDelete(input, s[1..]);
      } else {
        next := Bad(UnknownTag);
      }
    }

    method ReadPut(input: StringView, ghost s: seq<uint8>) returns (next: Parsed)
      requires input.Valid() && s == input.View()
      modifies input
      ensures input.Valid() && next == NextPut(s)
      ensures next.Record? ==> input.View() == next.rest && input.size <= old(input.size)
    {
      var key := new StringView(input.data, 0, 0);
      var ok := GetLengthPrefixedSlice(input, key);
      if !ok {
        return Bad(BadPut);
      }
      next := ReadValue(input, key, key.View(), input.View());
    }

    /** The rest of a `Put`, whose key has been read. */
    method ReadValue(input: StringView, key: StringView, ghost k: seq<uint8>, ghost s: seq<uint8>)
      returns (next: Parsed)
      requires input.Valid() && key.Valid() && input != key && s == input.View() && k == key.View()
      modifies input
      ensures input.Valid() && next == NextValue(k, s)
      ensures next.Record? ==> input.View() == next.rest && input.size <= old(input.size)
    {
      var value := new StringView(input.data, 0, 0);
      var ok := GetLengthPrefixedSlice(input, value);
      if !ok {
        return Bad(BadPut);
      }
      return Record(Op.Put(key.View(), value.View()), input.View());
    }

    method ReadDelete(input: StringView, ghost s: seq<uint8>) returns (next: Parsed)
      requires input.Valid() && s == input.View()
      modifies input
      ensures input.Valid() && next == NextDelete(s)
      ensures next.Record? ==> input.View() == next.rest && input.size <= old(input.size)
    {
      var key := new StringView(input.data, 0, 0);
      var ok := GetLengthPrefixedSlice(input, key);
      if !ok {
        return Bad(BadDelete);
      }
      return Record(Op.Delete(key.View()), input.View());
    }
  }

  lemma {:induction false} EmptyRep()
    ensures Rep(0, []) == seq(HEADER_SIZE, _ => 0)
  {
    FixedZero(8);
    FixedZero(4);
  }

  lemma {:induction false} FixedZero(n: nat)
    ensures forall i :: 0 <= i < n ==> Fixed(0, n)[i] == 0
  {
    if n > 0 {
      FixedZero(n - 1);
    }
  }

  lemma {:induction false} CountedIsExtended(rep: seq<uint8>, counted: seq<uint8>, n: int, bytes: seq<uint8>)
    requires |rep| >= HEADER_SIZE && counted == Overwrite(rep, 8, Fixed((Count(rep) + n) % SIZE_LIMIT, 4))
    ensures counted + bytes == Extended(rep, n, bytes)
  {
  }

  /** Iterating over `s` gives `r`. Quantified, so that proofs see inside it only where they mention `ReplayOps`. */
  ghost predicate Replays(s: seq<uint8>, r: Replayed) {
    forall t :: t == s ==> ReplayOps(t) == r
  }

  lemma {:induction false} ReplayStep(s: seq<uint8>, next: Parsed, r: Replayed) returns (later: Replayed)
    requires s != [] && NextOp(s) == next && Replays(s, r)
    ensures next.Bad? ==> r == Replayed([], next.status)
    ensures next.Record? ==> r == Replayed([next.op] + later.ops, later.status) && Replays(next.rest, later)
  {
    assert r == ReplayOps(s);
    later := if next.Record? then ReplayOps(next.rest) else r;
  }

  lemma {:induction false} NothingToCome(s: seq<uint8>, r: Replayed)
    requires s == [] && Replays(s, r)
    ensures r == Replayed([], Ok)
  {
    assert r == ReplayOps(s);
  }

  /** Part way through an iteration: what has been seen and entered, and what is still to come. */
  ghost predicate Halfway(whole: Replayed, toCome: Replayed, seen: seq<Op>, entries: seq<Entry>, sequence: nat,
                          now: seq<Entry>, number: nat) {
    && whole == Replayed(seen + toCome.ops, toCome.status)
    && now == entries + Numbered(sequence, seen)
    && number == (sequence + |seen|) % SEQUENCES
  }

  lemma {:induction false} NothingSeen(whole: Replayed, entries: seq<Entry>, sequence: uint64)
    ensures Halfway(whole, whole, [], entries, sequence, entries, sequence)
  {
    assert [] + whole.ops == whole.ops && entries + [] == entries;
  }

  lemma {:induction false} OneMoreSeen(whole: Replayed, op: Op, later: Replayed, seen: seq<Op>, entries: seq<Entry>,
                                       sequence: nat, now: seq<Entry>, number: uint64)
    requires Halfway(whole, Replayed([op] + later.ops, later.status), seen, entries, sequence, now, number)
    ensures Halfway(whole, later, seen + [op], entries, sequence, now + [Entry(number, op)],
                    (number + 1) % SEQUENCES)
  {
    assert seen + ([op] + later.ops) == seen + [op] + later.ops;
    OneMoreEntry(entries, sequence, seen, op);
  }

  lemma {:induction false} OneMoreEntry(entries: seq<Entry>, sequence: nat, seen: seq<Op>, op: Op)
    ensures entries + Numbered(sequence, seen) + [Entry((sequence + |seen|) % SEQUENCES, op)]
         == entries + Numbered(sequence, seen + [op])
  {
    NumberedSnoc(sequence, seen, op);
    var es, e := Numbered(sequence, seen), [Entry((sequence + |seen|) % SEQUENCES, op)];
    assert entries + (es + e) == entries + es + e;
  }

  lemma {:induction false} AllSeen(whole: Replayed, status: Status, seen: seq<Op>, entries: seq<Entry>,
                                   sequence: nat, now: seq<Entry>, number: nat)
    requires Halfway(whole, Replayed([], status), seen, entries, sequence, now, number)
    ensures whole == Replayed(seen, status) && now == entries + Numbered(sequence, whole.ops)
  {
    assert seen + [] == seen;
  }
}
