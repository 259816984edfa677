/**
 The writing side of the database: batches are numbered, logged and then entered into the memtable.
 At every moment the memtable is what replaying the log would restore, whatever has been committed.
 */
module Stores {
  import opened Words
  import opened Memory
  import opened FixedCoding
  import opened SliceCoding
  import opened WalFormat
  import opened BatchFormat
  import opened WriteBatches
  import opened Recovery
  import WalLog

  class Store {
    const log: WalLog.Writer
    const table: Inserter
    var lastSequence: uint64

    /** The sequence number it started from, and the batches committed since. */
    ghost const start: nat
    ghost var committed: seq<seq<Op>>

    /** The log holds every commit, and the memtable what replaying the log would restore. */
    ghost predicate Valid()
      reads this, log, log.dest, log.typeCrc, table
    {
      && log.Valid() && log.before == []
      && Committable(start, committed) && lastSequence == start + |Flatten(committed)|
      && AreCommits(start, committed, log.records)
      && EndsIn(false, Recovered([], start, true), log.records, Recovered(table.entries, lastSequence, true))
    }

    constructor (step: ByteStep, last: uint64)
      requires last < SEQUENCES - 1
      ensures Valid() && start == last && committed == [] && log.step == step && table.entries == []
      ensures fresh(log) && fresh(log.dest) && fresh(log.typeCrc) && fresh(table)
    {
      var file := new StringBuffer();
      log := new WalLog.Writer(step, file, 0);
      table := new Inserter(0);
      lastSequence, start, committed := last, last, [];
    }

    /**
     Numbers the batch, adds it to the log, and then enters it into the memtable. It is entered as
     a whole, and without an error, exactly if all its keys and values fit; it is logged anyway.
     */
    method Write(batch: WriteBatch, ghost sequence: uint64, ghost ops: seq<Op>)
      returns (status: Status, ghost handed: Replayed)
      requires Valid() && batch.rep != log.dest
      requires batch.rep.bytes == Rep(sequence, ops) && |ops| < 0x8000_0000
      requires lastSequence + |ops| < SEQUENCES - 1
      modifies `lastSequence, `committed, log, log.dest, table, batch.rep
      ensures Valid() && committed == old(committed) + [ops]
      ensures handed == HandedOver(ops) && status == handed.status
      ensures table.entries == old(table.entries) + Numbered(old(lastSequence) + 1, handed.ops)
      ensures status == Ok && table.entries == old(table.entries) + Numbered(old(lastSequence) + 1, ops)
              <==> AllOpsFit(ops)
    {
      ghost var last, entries := lastSequence, table.entries;
      status, handed := Commit(batch, sequence, ops);
      Outcome(entries, last, ops, handed, table.entries);
    }

    method Commit(batch: WriteBatch, ghost sequence: uint64, ghost ops: seq<Op>)
      returns (status: Status, ghost handed: Replayed)
      requires Valid() && batch.rep != log.dest
      requires batch.rep.bytes == Rep(sequence, ops) && |ops| < 0x8000_0000
      requires lastSequence + |ops| < SEQUENCES - 1
      modifies `lastSequence, `committed, log, log.dest, table, batch.rep
      ensures Valid() && committed == old(committed) + [ops]
      ensures HandsOver(ops, handed) && status == handed.status
      ensures table.entries == old(table.entries) + Numbered(old(lastSequence) + 1, handed.ops)
    {
      ghost var last, before, records, entries := lastSequence, committed, log.records, table.entries;
      OneMoreBatch(start, before, ops, last);
      ghost var record := LogBatch(batch, sequence, ops);
      var count;
      status, count, handed := Insert(batch, last, ops);
      lastSequence := lastSequence + count;
      committed := committed + [ops];
      CommitsSnoc(start, before, records, ops, record);
      OneMoreReplayed(start, records, entries, last, ops, record, handed);
    }

    /** The numbered batch, in the log. */
    method LogBatch(batch: WriteBatch, ghost sequence: uint64, ghost ops: seq<Op>) returns (ghost record: seq<uint8>)
      requires log.Valid() && batch.rep != log.dest
      requires batch.rep.bytes == Rep(sequence, ops) && lastSequence < SEQUENCES - 1
      modifies log, log.dest, batch.rep
      ensures IsCommit(lastSequence, ops, record) && batch.rep.bytes == record
      ensures log.Valid() && log.records == old(log.records) + [record]
    {
      Number(batch, sequence, ops);
      record := batch.rep.bytes;
      AddRecord(batch.rep.bytes);
    }

    method Number(batch: WriteBatch, ghost sequence: uint64, ghost ops: seq<Op>)
      requires batch.rep.bytes == Rep(sequence, ops) && lastSequence < SEQUENCES - 1
      modifies batch.rep
      ensures IsCommit(lastSequence, ops, batch.rep.bytes)
    {
      ghost var before := batch.rep.bytes;
      batch.SetSequence(lastSequence + 1);
      Renumbered(before, sequence, ops, lastSequence, batch.rep.bytes);
    }

    method AddRecord(contents: seq<uint8>)
      requires log.Valid()
      modifies log, log.dest
      ensures log.Valid() && log.records == old(log.records) + [contents]
    {
      var data := new uint8[|contents|](i requires 0 <= i < |contents| => contents[i]);
      assert data[..] == contents;
      var slice := new StringView(data, 0, data.Length);
      assert slice.View() == contents;
      log.AddRecord(slice);
    }

    method Insert(batch: WriteBatch, ghost last: nat, ghost ops: seq<Op>)
      returns (status: Status, count: nat, ghost handed: Replayed)
      requires IsCommit(last, ops, batch.rep.bytes) && |ops| < 0x8000_0000 && last + |ops| < SEQUENCES - 1
      modifies table
      ensures HandsOver(ops, handed) && status == handed.status && count == |ops|
      ensures table.entries == old(table.entries) + Numbered(last + 1, handed.ops)
    {
      handed := CommitReadBack(last, ops, batch.rep.bytes);
      status := batch.InsertInto(table);
      count := batch.CountOf();
    }
  }

  lemma {:induction false} CommitReadBack(last: nat, ops: seq<Op>, record: seq<uint8>) returns (handed: Replayed)
    requires IsCommit(last, ops, record) && |ops| < 0x8000_0000 && last + |ops| < SEQUENCES - 1
    ensures |record| >= HEADER_SIZE && HandsOver(ops, handed) && Replay(record) == handed
    ensures Sequence(record) == last + 1 && BatchFormat.Count(record) == |ops|
  {
    assert (last + 1) % SEQUENCES == last + 1;
    assert record == Rep(last + 1, ops);
    handed := HandedOver(ops);
    CommitBack(last, ops, record, handed);
  }

  lemma {:induction false} Renumbered(rep: seq<uint8>, sequence: uint64, ops: seq<Op>, last: nat, record: seq<uint8>)
    requires rep == Rep(sequence, ops) && last + 1 < SEQUENCES && record == Overwrite(rep, 0, Fixed(last + 1, 8))
    ensures IsCommit(last, ops, record)
  {
    Resequenced(sequence, last + 1, ops);
    NextNumber(last, ops, record);
  }

  lemma {:induction false} NextNumber(last: nat, ops: seq<Op>, record: seq<uint8>)
    requires last + 1 < SEQUENCES && record == Rep(last + 1, ops)
    ensures IsCommit(last, ops, record)
  {
    assert (last + 1) % SEQUENCES == last + 1;
  }

  lemma {:induction false} Resequenced(before: uint64, after: uint64, ops: seq<Op>)
    ensures Overwrite(Rep(before, ops), 0, Fixed(after, 8)) == Rep(after, ops)
  {
    HeaderReplaced(Fixed(before, 8), Fixed(after, 8), Fixed(|ops| % SIZE_LIMIT, 4), OpsBytes(ops));
  }

  lemma {:induction false} HeaderReplaced(a: seq<uint8>, b: seq<uint8>, count: seq<uint8>, rest: seq<uint8>)
    requires |a| == |b|
    ensures Overwrite(a + count + rest, 0, b) == b + count + rest
  {
  }

  lemma {:induction false} OneMoreBatch(start: nat, committed: seq<seq<Op>>, ops: seq<Op>, last: nat)
    requires Committable(start, committed) && last == start + |Flatten(committed)|
    requires |ops| < 0x8000_0000 && last + |ops| < SEQUENCES - 1
    ensures Committable(start, committed + [ops]) && last + |ops| == start + |Flatten(committed + [ops])|
  {
    FlattenConcat(committed, [ops]);
    FlattenOne(ops);
    assert (committed + [ops])[|committed|] == ops;
  }

  lemma {:induction false} FlattenOne(ops: seq<Op>)
    ensures Flatten([ops]) == ops
  {
    assert ops + Flatten([]) == ops;
  }

  /** Replaying a list of records and then another. */
  lemma {:induction false} EndsConcat(paranoid: bool, r: Recovered, a: seq<seq<uint8>>, m: Recovered,
                                      b: seq<seq<uint8>>, goal: Recovered)
    requires EndsIn(paranoid, r, a, m) && EndsIn(paranoid, m, b, goal) && m.ok
    ensures EndsIn(paranoid, r, a + b, goal)
    decreases |a|
  {
    if a == [] {
      Units(b);
      NothingApplied(paranoid, r, m);
    } else {
      var next := FirstApplied(paranoid, r, a, m);
      EndsConcat(paranoid, next, a[1..], m, b, goal);
      TailAppend(a, b);
      ApplyOneMore(paranoid, r, a + b, next, goal);
    }
  }

  lemma {:induction false} NothingApplied(paranoid: bool, r: Recovered, m: Recovered)
    requires EndsIn(paranoid, r, [], m)
    ensures r == m
  {
    assert m == ApplyAll(paranoid, r, []);
  }

  lemma {:induction false} FirstApplied(paranoid: bool, r: Recovered, a: seq<seq<uint8>>, m: Recovered)
    returns (next: Recovered)
    requires a != [] && EndsIn(paranoid, r, a, m) && m.ok
    ensures r.ok && next == Apply(paranoid, r, a[0]) && EndsIn(paranoid, next, a[1..], m)
  {
    assert m == ApplyAll(paranoid, r, a);
    next := Apply(paranoid, r, a[0]);
  }

  lemma {:induction false} ApplyOneMore(paranoid: bool, r: Recovered, records: seq<seq<uint8>>, next: Recovered,
                                        goal: Recovered)
    requires r.ok && records != [] && next == Apply(paranoid, r, records[0])
    requires EndsIn(paranoid, next, records[1..], goal)
    ensures EndsIn(paranoid, r, records, goal)
  {
  }

  lemma {:induction false} EndsSnoc(paranoid: bool, r: Recovered, records: seq<seq<uint8>>, m: Recovered,
                                    record: seq<uint8>, goal: Recovered)
    requires EndsIn(paranoid, r, records, m) && m.ok && goal == Apply(paranoid, m, record)
    ensures EndsIn(paranoid, r, records + [record], goal)
  {
    assert ApplyAll(paranoid, goal, [record][1..]) == goal;
    EndsConcat(paranoid, r, records, m, [record], goal);
  }

  lemma {:induction false} OneMoreReplayed(start: nat, records: seq<seq<uint8>>, entries: seq<Entry>, last: nat,
                                           ops: seq<Op>, record: seq<uint8>, handed: Replayed)
    requires |ops| < 0x8000_0000 && last + |ops| < SEQUENCES - 1
    requires EndsIn(false, Recovered([], start, true), records, Recovered(entries, last, true))
    requires IsCommit(last, ops, record) && HandsOver(ops, handed)
    ensures EndsIn(false, Recovered([], start, true), records + [record],
                   Recovered(entries + Numbered(last + 1, handed.ops), last + |ops|, true))
  {
    var m := Recovered(entries, last, true);
    CommitApplied(false, m, last, ops, record, handed);
    EndsSnoc(false, Recovered([], start, true), records, m, record, Apply(false, m, record));
  }

  lemma {:induction false} Outcome(entries: seq<Entry>, last: nat, ops: seq<Op>, handed: Replayed, now: seq<Entry>)
    requires |ops| < 0x8000_0000 && HandsOver(ops, handed) && now == entries + Numbered(last + 1, handed.ops)
    ensures handed == HandedOver(ops)
    ensures handed.status == Ok && now == entries + Numbered(last + 1, ops) <==> AllOpsFit(ops)
  {
    WholeExactly(entries, last, ops, handed);
  }

  lemma {:induction false} WholeExactly(entries: seq<Entry>, last: nat, ops: seq<Op>, handed: Replayed)
    requires |ops| < 0x8000_0000 && HandsOver(ops, handed)
    ensures handed.status == Ok && entries + Numbered(last + 1, handed.ops) == entries + Numbered(last + 1, ops)
            <==> AllOpsFit(ops)
  {
    HandsOverWhole(ops, handed);
    SameBehind(entries, Numbered(last + 1, handed.ops), Numbered(last + 1, ops));
    if Numbered(last + 1, handed.ops) == Numbered(last + 1, ops) {
      NumberedInjective(last + 1, handed.ops, ops);
    }
  }

  lemma {:induction false} SameBehind<T>(a: seq<T>, b: seq<T>, c: seq<T>)
    ensures a + b == a + c <==> b == c
  {
    assert (a + b)[|a|..] == b && (a + c)[|a|..] == c;
  }

  // Crashes

  /** What committing these batches enters into a memtable: of each batch, all that it hands over. */
  function EnteredBy(last: nat, batches: seq<seq<Op>>): seq<Entry>
    decreases |batches|
  {
    if batches == [] then []
    else Numbered(last + 1, HandedOver(batches[0]).ops) + EnteredBy(last + |batches[0]|, batches[1..])
  }

  /** These are the entries. Quantified as `IsCommit` is. */
  ghost predicate Enters(last: nat, batches: seq<seq<Op>>, entries: seq<Entry>) {
    forall bs :: bs == batches ==> EnteredBy(last, bs) == entries
  }

  lemma {:induction false} FirstEntered(last: nat, batches: seq<seq<Op>>, handed: Replayed, later: seq<Entry>)
    requires batches != [] && HandsOver(batches[0], handed) && Enters(last + |batches[0]|, batches[1..], later)
    ensures Enters(last, batches, Numbered(last + 1, handed.ops) + later)
  {
    assert EnteredBy(last + |batches[0]|, batches[1..]) == later && HandedOver(batches[0]) == handed;
  }

  /** Replaying any commits enters what their batches hand over, and counts all their operations. */
  lemma {:induction false} CommitsCounted(entries: seq<Entry>, last: nat, batches: seq<seq<Op>>,
                                          records: seq<seq<uint8>>)
    returns (more: seq<Entry>)
    requires Committable(last, batches) && AreCommits(last, batches, records)
    ensures Enters(last, batches, more)
    ensures EndsIn(false, Recovered(entries, last, true), records,
                   Recovered(entries + more, last + |Flatten(batches)|, true))
    decreases |batches|
  {
    if batches == [] {
      more := [];
      Units(entries);
    } else {
      CommittableTail(last, batches);
      FirstOfCommits(last, batches, records);
      var handed, now := FirstCounted(entries, last, batches[0], records);
      var later := CommitsCounted(now, last + |batches[0]|, batches[1..], records[1..]);
      more := Numbered(last + 1, handed.ops) + later;
      FirstEntered(last, batches, handed, later);
      Regroup(entries, Numbered(last + 1, handed.ops), later);
    }
  }

  lemma {:induction false} CommittableTail(last: nat, batches: seq<seq<Op>>)
    requires Committable(last, batches) && batches != []
    ensures Committable(last + |batches[0]|, batches[1..]) && |batches[0]| < 0x8000_0000
    ensures |Flatten(batches)| == |batches[0]| + |Flatten(batches[1..])|
  {
    var others := batches[1..];
    FlattenFirst(batches);
    assert forall i :: 0 <= i < |others| ==> others[i] == batches[i + 1];
  }

  lemma {:induction false} FirstCounted(entries: seq<Entry>, last: nat, ops: seq<Op>, records: seq<seq<uint8>>)
    returns (handed: Replayed, now: seq<Entry>)
    requires |ops| < 0x8000_0000 && last + |ops| < SEQUENCES - 1 && records != [] && IsCommit(last, ops, records[0])
    ensures HandsOver(ops, handed) && now == entries + Numbered(last + 1, handed.ops)
    ensures forall goal | EndsIn(false, Recovered(now, last + |ops|, true), records[1..], goal) ::
              EndsIn(false, Recovered(entries, last, true), records, goal)
  {
    handed := HandedOver(ops);
    now := entries + Numbered(last + 1, handed.ops);
    var r, next := Recovered(entries, last, true), Recovered(now, last + |ops|, true);
    CommitApplied(false, r, last, ops, records[0], handed);
    forall goal | EndsIn(false, next, records[1..], goal)
      ensures EndsIn(false, r, records, goal)
    {
      ApplyOneMore(false, r, records, next, goal);
    }
  }

  lemma {:induction false} SameEnd(r: Recovered, records: seq<seq<uint8>>, a: Recovered, b: Recovered)
    requires EndsIn(false, r, records, a) && EndsIn(false, r, records, b)
    ensures a == b
  {
    assert a == ApplyAll(false, r, records);
  }

  /** Replaying the first `n` commits gives a part of what replaying all of them gives. */
  lemma {:induction false} FirstCommits(start: nat, batches: seq<seq<Op>>, records: seq<seq<uint8>>, n: nat,
                                        all: Recovered)
    returns (part: Recovered)
    requires Committable(start, batches) && AreCommits(start, batches, records) && n <= |batches|
    requires EndsIn(false, Recovered([], start, true), records, all)
    ensures EndsIn(false, Recovered([], start, true), records[..n], part) && Enters(start, batches[..n], part.entries)
    ensures part.ok && part.maxSequence == start + |Flatten(batches[..n])| && part.entries <= all.entries
    ensures n == |batches| ==> part == all
  {
    var init := Recovered([], start, true);
    CommittablePrefix(start, batches, n);
    CommitsCut(start, batches, records, n);
    var first := CommitsCounted([], start, batches[..n], records[..n]);
    Units(first);
    part := Recovered(first, start + |Flatten(batches[..n])|, true);
    CommittableSuffix(start, batches, n, part.maxSequence);
    var more := CommitsCounted(part.entries, part.maxSequence, batches[n..], records[n..]);
    var whole := Recovered(part.entries + more, part.maxSequence + |Flatten(batches[n..])|, true);
    SplitAt(records, n);
    EndsConcat(false, init, records[..n], part, records[n..], whole);
    SameEnd(init, records, whole, all);
    if n == |batches| {
      NothingApplied(false, part, whole);
    }
  }

  lemma {:induction false} CommittableSuffix(start: nat, batches: seq<seq<Op>>, n: nat, last: nat)
    requires Committable(start, batches) && n <= |batches| && last == start + |Flatten(batches[..n])|
    ensures Committable(last, batches[n..])
  {
    SplitAt(batches, n);
    FlattenConcat(batches[..n], batches[n..]);
  }

  /**
   What every store keeps: its log consists of the records of its commits, its memtable is what they
   enter, and that is what replaying the log restores.
   */
  lemma {:induction false} StoreReplays(store: Store)
    requires store.Valid()
    ensures store.log.records == Commits(store.start, store.committed)
    ensures store.table.entries == EnteredBy(store.start, store.committed)
    ensures ApplyAll(false, Recovered([], store.start, true), store.log.records)
         == Recovered(store.table.entries, store.lastSequence, true)
  {
    var records, all := store.log.records, Recovered(store.table.entries, store.lastSequence, true);
    var init := Recovered([], store.start, true);
    var entries := CommitsCounted([], store.start, store.committed, records);
    Units(entries);
    SameEnd(init, records, Recovered(entries, store.lastSequence, true), all);
    assert all == ApplyAll(false, init, records);
  }

  /**
   Whatever batches a store has committed, and wherever a crash cuts its log: without paranoid checks
   recovery restores the memtable as it was after the last commit whose record is complete, and the
   number of that commit.
   */
  lemma {:induction false} StoreSurvives(store: Store, k: nat) returns (n: nat, r: Recovered)
    requires store.Valid() && k <= |store.log.dest.bytes|
    ensures n == Complete(store.log.step, 0, 0, store.log.records, k) <= |store.committed|
    ensures r == Recover(store.log.step, false, store.log.dest.bytes[..k], 0, Recovered([], store.start, true))
    ensures r.entries == EnteredBy(store.start, store.committed[..n]) && r.entries <= store.table.entries && r.ok
    ensures r.maxSequence == store.start + |Flatten(store.committed[..n])|
    ensures k == |store.log.dest.bytes| ==> r == Recovered(store.table.entries, store.lastSequence, true)
  {
    WholeLog(store);
    var all := Recovered(store.table.entries, store.lastSequence, true);
    n, r := LogSurvives(store.log.step, store.log.dest.bytes, store.start, store.committed, store.log.records, all, k);
    assert r.entries == EnteredBy(store.start, store.committed[..n]);
  }

  lemma {:induction false} LogSurvives(step: ByteStep, bytes: seq<uint8>, start: nat, batches: seq<seq<Op>>,
                                       records: seq<seq<uint8>>, all: Recovered, k: nat)
    returns (n: nat, r: Recovered)
    requires bytes == WriteLog(step, 0, records).bytes && k <= |bytes|
    requires Committable(start, batches) && AreCommits(start, batches, records)
    requires EndsIn(false, Recovered([], start, true), records, all)
    ensures n == Complete(step, 0, 0, records, k) <= |batches|
    ensures r == Recover(step, false, bytes[..k], 0, Recovered([], start, true))
    ensures Enters(start, batches[..n], r.entries) && r.entries <= all.entries && r.ok
    ensures r.maxSequence == start + |Flatten(batches[..n])|
    ensures k == |bytes| ==> r == all
  {
    n := Complete(step, 0, 0, records, k);
    CutOfLog(step, records, bytes, k);
    r := FirstCommits(start, batches, records, n, all);
    RecoverLog(step, false, bytes[..k], 0, 0, records, Recovered([], start, true));
  }

  lemma {:induction false} WholeLog(store: Store)
    requires store.Valid()
    ensures store.log.dest.bytes == WriteLog(store.log.step, 0, store.log.records).bytes
    ensures |store.log.records| == |store.committed|
  {
    var w := WriteLog(store.log.step, 0, store.log.records);
    var now := Written(store.log.dest.bytes, store.log.blockOffset);
    assert WalLog.LogFile(store.log.step, [], store.log.records) == now;
    Units(w.bytes);
  }

  /**
   If all keys and values fit that were committed, recovery restores a prefix of the commits, each of
   them whole, whether or not it makes paranoid checks.
   */
  lemma {:induction false} BatchesSurvive(store: Store, paranoid: bool, k: nat) returns (n: nat)
    requires store.Valid() && Readable(store.committed) && k <= |store.log.dest.bytes|
    ensures n == Complete(store.log.step, 0, 0, store.log.records, k) <= |store.committed|
    ensures Recover(store.log.step, paranoid, store.log.dest.bytes[..k], 0, Recovered([], store.start, true))
         == Restored([], store.start, store.start, store.committed[..n])
    ensures k == |store.log.dest.bytes| ==> n == |store.committed|
  {
    var step, records, bytes := store.log.step, store.log.records, store.log.dest.bytes;
    n := Complete(step, 0, 0, records, k);
    WholeLog(store);
    CutOfLog(step, records, bytes, k);
    CommitsSurvive(step, paranoid, bytes[..k], [], store.start, store.start, store.committed, records);
  }

  /**
   A batch that a store logs, but does not enter as it is: operations that fit, and the deletion of a
   key of 2^32 bytes. The operations are entered with a deletion of the empty key, and paranoid
   checks later refuse to recover the log.
   */
  lemma {:induction false} UnreadableCommit(r: Recovered, last: nat, ops: seq<Op>, key: seq<uint8>)
    requires AllOpsFit(ops) && |ops| < 0x7fff_ffff && last + |ops| + 1 < SEQUENCES - 1 && r.maxSequence <= last
    requires |key| == SIZE_LIMIT && key[0] != VALUE && key[0] != DELETION
    ensures var record := Rep(last + 1, ops + [Delete(key)]);
            var entries := r.entries + Numbered(last + 1, ops + [Delete([])]);
            && Apply(false, r, record) == Recovered(entries, last + |ops| + 1, true)
            && Apply(true, r, record) == Recovered(entries, r.maxSequence, false)
  {
    var all := ops + [Delete(key)];
    PartlyEntered(last + 1, ops, key);
    ReplayBack(last + 1, all);
    Unreadable(r, last, all, Replayed(ops + [Delete([])], UnknownTag));
  }

  lemma {:induction false} Unreadable(r: Recovered, last: nat, ops: seq<Op>, handed: Replayed)
    requires |ops| < 0x8000_0000 && last + |ops| < SEQUENCES - 1 && r.maxSequence <= last
    requires handed == HandedOver(ops) && handed.status != Ok
    ensures var record, entries := Rep(last + 1, ops), r.entries + Numbered(last + 1, handed.ops);
            && Apply(false, r, record) == Recovered(entries, last + |ops|, true)
            && Apply(true, r, record) == Recovered(entries, r.maxSequence, false)
  {
    ApplyCommit(false, r, last, ops);
    ApplyCommit(true, r, last, ops);
  }
}
