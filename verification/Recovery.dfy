/**
 Committing batches and recovering them: what a database writes to its log before it fills the
 memtable, and what replaying a log file of which a crash has left only the front brings back.
 */
module Recovery {
  import opened Words
  import opened Leb128
  import opened FixedCoding
  import opened WalFormat
  import opened BatchFormat
  import opened WriteBatches
  import WalLog
  import WalReading

  /** The rebuilt memtable, the largest sequence number seen, and whether the recovery may go on. */
  datatype Recovered = Recovered(entries: seq<Entry>, maxSequence: nat, ok: bool)

  function Max(a: nat, b: nat): nat {
    if a < b then b else a
  }

  /** The number of the batch's last operation, in the 64 bits it is computed in. */
  function LastSequence(rep: seq<uint8>): nat
    requires |rep| >= HEADER_SIZE
  {
    (Sequence(rep) + BatchFormat.Count(rep) - 1) % SEQUENCES
  }

  /** One turn of the recovery loop; only under paranoid checks does a bad record stop it. */
  function Apply(paranoid: bool, r: Recovered, record: seq<uint8>): Recovered {
    if |record| < HEADER_SIZE then r.(ok := !paranoid)
    else Enter(paranoid, r, Replay(record), Sequence(record), LastSequence(record))
  }

  function Enter(paranoid: bool, r: Recovered, batch: Replayed, first: nat, last: nat): Recovered {
    var entries := r.entries + Numbered(first, batch.ops);
    if paranoid && batch.status != Ok then Recovered(entries, r.maxSequence, false)
    else Recovered(entries, Max(r.maxSequence, last), true)
  }

  /** Replaying a log file from offset `o` on. */
  function Recover(step: ByteStep, paranoid: bool, file: seq<uint8>, o: nat, r: Recovered): Recovered
    requires o <= |file|
    decreases |file| - o
  {
    var reading := ReadRecord(step, true, file, o, None);
    if paranoid && reading.reports > 0 then r.(ok := false)
    else if !r.ok || reading.record == None then r
    else Recover(step, paranoid, file, reading.next, Apply(paranoid, r, reading.record.value))
  }

  /** `RecoverWalFile`, as far as the memtable and the sequence number go. */
  method RecoverWalFile(file: WalLog.SequentialFile, step: ByteStep, paranoid: bool, table: Inserter, before: uint64)
    returns (maxSequence: uint64, ok: bool)
    requires file.pos == 0
    modifies file, table
    ensures Recovered(table.entries, maxSequence, ok)
         == Recover(step, paranoid, file.contents, 0, Recovered(old(table.entries), before, true))
  {
    maxSequence, ok := before, true;
    var reader := new WalLog.Reader(file, step, true);
    var batch := new WriteBatch();
    ghost var goal := Recover(step, paranoid, file.contents, 0, Recovered(table.entries, before, true));
    while true
      invariant reader.Valid() && fresh(reader) && fresh(batch) && fresh(batch.rep)
      invariant reader.file == file && reader.step == step && reader.checksum
      invariant Ahead(step, paranoid, file.contents, reader.Position(), Recovered(table.entries, maxSequence, ok), goal)
      decreases |file.contents| - reader.Position()
    {
      var reports := reader.reports;
      ghost var o, now := reader.Position(), Recovered(table.entries, maxSequence, ok);
      var record := reader.ReadRecord();
      NextTurn(step, paranoid, file.contents, o, now, goal);
      if paranoid && reader.reports > reports {
        return maxSequence, false;
      }
      if record == None || !ok {
        return maxSequence, ok;
      }
      var stop;
      maxSequence, ok, stop := ApplyRecord(record.value, batch, table, paranoid, maxSequence);
      if stop {
        Stopped(step, paranoid, file.contents, reader.Position(), Recovered(table.entries, maxSequence, ok), goal);
        return maxSequence, ok;
      }
    }
  }

  /** The body of that loop; a batch that cannot be replayed leaves the loop at once. */
  method ApplyRecord(record: seq<uint8>, batch: WriteBatch, table: Inserter, paranoid: bool, before: uint64)
    returns (maxSequence: uint64, ok: bool, stop: bool)
    modifies batch.rep, table
    ensures Recovered(table.entries, maxSequence, ok)
         == Apply(paranoid, Recovered(old(table.entries), before, true), record)
    ensures stop <==> paranoid && |record| >= HEADER_SIZE && Replay(record).status != Ok
    ensures stop ==> !ok
  {
    maxSequence := before;
    if |record| < HEADER_SIZE {
      return maxSequence, !paranoid, false;
    }
    batch.SetContents(record);
    var status := batch.InsertInto(table);
    if paranoid && status != Ok {
      return maxSequence, false, true;
    }
    maxSequence := Advance(batch, before);
    return maxSequence, true, false;
  }

  method Advance(batch: WriteBatch, before: uint64) returns (maxSequence: uint64)
    requires |batch.rep.bytes| >= HEADER_SIZE
    ensures maxSequence == Max(before, LastSequence(batch.rep.bytes))
  {
    maxSequence := before;
    var sequence := batch.SequenceOf();
    var count := batch.CountOf();
    var last := (sequence + count - 1) % SEQUENCES;
    if last > maxSequence {
      maxSequence := last;
    }
  }

  /** From offset `o` on, the recovery will end in `goal`. */
  ghost predicate Ahead(step: ByteStep, paranoid: bool, file: seq<uint8>, o: nat, r: Recovered, goal: Recovered) {
    o <= |file| && forall from :: o == from ==> Recover(step, paranoid, file, from, r) == goal
  }

  lemma {:induction false} NextTurn(step: ByteStep, paranoid: bool, file: seq<uint8>, o: nat, r: Recovered,
                                    goal: Recovered)
    requires Ahead(step, paranoid, file, o, r, goal)
    ensures var reading := ReadRecord(step, true, file, o, None);
            if paranoid && reading.reports > 0 then goal == r.(ok := false)
            else if !r.ok || reading.record == None then goal == r
            else Ahead(step, paranoid, file, reading.next, Apply(paranoid, r, reading.record.value), goal)
  {
    assert Recover(step, paranoid, file, o, r) == goal;
  }

  lemma {:induction false} Stopped(step: ByteStep, paranoid: bool, file: seq<uint8>, o: nat, r: Recovered,
                                   goal: Recovered)
    requires Ahead(step, paranoid, file, o, r, goal) && !r.ok
    ensures goal == r
  {
    assert Recover(step, paranoid, file, o, r) == goal;
  }

  // One record, in numbers

  /** A record that is too short for a batch is passed over, or under paranoid checks an error. */
  lemma {:induction false} ShortRecord(r: Recovered, record: seq<uint8>)
    requires |record| < 12
    ensures Apply(true, r, record) == Recovered(r.entries, r.maxSequence, false)
    ensures Apply(false, r, record) == Recovered(r.entries, r.maxSequence, true)
  {
  }

  /** What a batch counts as its last number, whatever it holds. */
  function LastNumber(record: seq<uint8>): nat
    requires |record| >= 12
  {
    (FixedVal(record[..8]) + Signed(FixedVal(record[8..12])) - 1) % 0x1_0000_0000_0000_0000
  }

  /**
   Whatever the records are, without paranoid checks the recovery goes through all of them. The number it
   ends with is the largest there is: none of a batch is larger, and it is that of a batch or the first.
   */
  lemma {:induction false} LargestNumber(r: Recovered, records: seq<seq<uint8>>) returns (all: Recovered)
    requires r.ok
    ensures all == ApplyAll(false, r, records) && all.ok && all.maxSequence >= r.maxSequence
    ensures forall i :: 0 <= i < |records| && |records[i]| >= 12 ==> all.maxSequence >= LastNumber(records[i])
    ensures all.maxSequence == r.maxSequence ||
            exists i :: 0 <= i < |records| && |records[i]| >= 12 && all.maxSequence == LastNumber(records[i])
    decreases |records|
  {
    if records == [] {
      all := r;
    } else {
      var next := NumberAfter(r, records[0]);
      all := LargestNumber(next, records[1..]);
      assert forall i :: 1 <= i < |records| ==> records[i] == records[1..][i - 1];
    }
  }

  lemma {:induction false} NumberAfter(r: Recovered, record: seq<uint8>) returns (next: Recovered)
    requires r.ok
    ensures next == Apply(false, r, record) && next.ok
    ensures next.maxSequence == if |record| >= 12 && LastNumber(record) > r.maxSequence then LastNumber(record)
                                else r.maxSequence
  {
    next := Apply(false, r, record);
  }

  // What a recovery makes of a log

  /** Replaying records one after another, until one stops it. */
  function ApplyAll(paranoid: bool, r: Recovered, records: seq<seq<uint8>>): Recovered
    decreases |records|
  {
    if !r.ok || records == [] then r else ApplyAll(paranoid, Apply(paranoid, r, records[0]), records[1..])
  }

  /** Whatever the records hold: a file cut anywhere recovers to the effect of its complete records. */
  lemma {:induction false} RecoverLog(step: ByteStep, paranoid: bool, file: seq<uint8>, o: nat, b: nat,
                                      records: seq<seq<uint8>>, r: Recovered)
    requires LogCut(step, file, o, b, records)
    ensures Recover(step, paranoid, file, o, r)
         == ApplyAll(paranoid, r, records[..Complete(step, o, b, records, |file|)])
    decreases |records|
  {
    if records == [] {
      AtEnd(step, file, o);
    } else {
      var next, position, n, all := FirstRecord(step, true, file, o, b, records);
      if next <= |file| && r.ok {
        var after := Apply(paranoid, r, records[0]);
        RecoverLog(step, paranoid, file, next, position, records[1..], after);
        PrefixOf(records, n);
        assert records[..n + 1][1..] == records[1..][..n];
      }
    }
  }

  lemma {:induction false} AtEnd(step: ByteStep, file: seq<uint8>, o: nat)
    requires o == |file|
    ensures ReadRecord(step, true, file, o, None) == Reading(None, o, 0, 0)
  {
    assert NextFragment(step, true, file, o) == Fragment(EOF, [], o, None);
  }

  // What a recovery makes of any file

  /** Without paranoid checks it is the effect of all records that are read, whatever was reported. */
  lemma {:induction false} RecoverAny(step: ByteStep, file: seq<uint8>, o: nat, r: Recovered)
    requires o <= |file|
    ensures Recover(step, false, file, o, r) == ApplyAll(false, r, ReadLog(step, true, file, o).records)
    decreases |file| - o
  {
    var reading := ReadRecord(step, true, file, o, None);
    if r.ok && reading.record.Some? {
      var later := ReadLog(step, true, file, reading.next).records;
      RecoverAny(step, file, reading.next, Apply(false, r, reading.record.value));
      assert ([reading.record.value] + later)[1..] == later;
    }
  }

  /** How many records a reader returns before the first that it does not come to without a report. */
  function Undisturbed(step: ByteStep, file: seq<uint8>, o: nat): nat
    requires o <= |file|
    decreases |file| - o
  {
    var reading := ReadRecord(step, true, file, o, None);
    if reading.reports > 0 || reading.record.None? then 0 else 1 + Undisturbed(step, file, reading.next)
  }

  /**
   Paranoid checks let a recovery through exactly if the reader has nothing to report in the whole file,
   and all its records can be replayed. Otherwise what was read up to there has been replayed.
   */
  lemma {:induction false} RecoverParanoid(step: ByteStep, file: seq<uint8>, o: nat, r: Recovered)
    returns (log: Log, n: nat)
    requires o <= |file|
    ensures log == ReadLog(step, true, file, o) && n == Undisturbed(step, file, o) <= |log.records|
    ensures Recover(step, true, file, o, r)
         == if log.reports == 0 then ApplyAll(true, r, log.records)
            else ApplyAll(true, r, log.records[..n]).(ok := false)
    ensures r.ok ==> (Recover(step, true, file, o, r).ok
                      <==> log.reports == 0 && ApplyAll(true, r, log.records).ok)
    decreases |file| - o
  {
    var reading := ReadRecord(step, true, file, o, None);
    log, n := ReadLog(step, true, file, o), Undisturbed(step, file, o);
    if reading.reports == 0 && reading.record.Some? {
      var next := if r.ok then Apply(true, r, reading.record.value) else r;
      var later, m := RecoverParanoid(step, file, reading.next, next);
      assert log.records == [reading.record.value] + later.records && log.reports == later.reports;
      FirstOfList(reading.record.value, later.records, m);
    }
  }

  lemma {:induction false} FirstOfList<T>(first: T, later: seq<T>, n: nat)
    requires n <= |later|
    ensures ([first] + later)[1..] == later && ([first] + later)[..n + 1] == [first] + later[..n]
    ensures ([first] + later[..n])[1..] == later[..n]
  {
  }

  /** A middle or last fragment without a first one makes paranoid checks give up. */
  lemma {:induction false} OrphanStops(step: ByteStep, file: seq<uint8>, o: nat, r: Recovered)
    requires o <= |file| && NextFragment(step, true, file, o).kind in {3, 4}
    ensures Recover(step, true, file, o, r) == r.(ok := false)
  {
    WalReading.OrphanRead(step, true, file, o, None, NextFragment(step, true, file, o));
  }

  // What a database commits

  /** The log records of batches committed in this order, when `last` is the last sequence number in use. */
  function Commits(last: nat, batches: seq<seq<Op>>): (records: seq<seq<uint8>>)
    decreases |batches|
    ensures |records| == |batches|
  {
    if batches == [] then []
    else [Rep((last + 1) % SEQUENCES, batches[0])] + Commits(last + |batches[0]|, batches[1..])
  }

  // The proofs use the same said by predicates. These, and `EndsIn` and `Ahead`, are quantified only so
  // that a proof sees inside them where it mentions the function they are about, and nowhere else.

  ghost predicate IsCommit(last: nat, ops: seq<Op>, record: seq<uint8>) {
    forall n: uint64 :: n == (last + 1) % SEQUENCES ==> record == Rep(n, ops)
  }

  ghost predicate AreCommits(last: nat, batches: seq<seq<Op>>, records: seq<seq<uint8>>) {
    |records| == |batches| && forall bs :: bs == batches ==> Commits(last, bs) == records
  }

  lemma {:induction false} FirstOfCommits(last: nat, batches: seq<seq<Op>>, records: seq<seq<uint8>>)
    requires batches != [] && AreCommits(last, batches, records)
    ensures records != [] && IsCommit(last, batches[0], records[0])
    ensures AreCommits(last + |batches[0]|, batches[1..], records[1..])
  {
    assert records == Commits(last, batches);
  }

  lemma {:induction false} CommitsCons(last: nat, batches: seq<seq<Op>>, records: seq<seq<uint8>>)
    requires batches != [] && records != [] && IsCommit(last, batches[0], records[0])
    requires AreCommits(last + |batches[0]|, batches[1..], records[1..])
    ensures AreCommits(last, batches, records)
  {
    OneMoreCommit(last, batches, records[0], records[1..]);
    assert records == [records[0]] + records[1..];
  }

  lemma {:induction false} OneMoreCommit(last: nat, batches: seq<seq<Op>>, first: seq<uint8>, later: seq<seq<uint8>>)
    requires batches != [] && IsCommit(last, batches[0], first)
    requires later == Commits(last + |batches[0]|, batches[1..])
    ensures Commits(last, batches) == [first] + later
  {
  }

  function Flatten(batches: seq<seq<Op>>): seq<Op> {
    if batches == [] then [] else batches[0] + Flatten(batches[1..])
  }

  /** What can be committed: the operations can be counted, and the sequence numbers are not used up. */
  predicate Committable(last: nat, batches: seq<seq<Op>>) {
    && last + |Flatten(batches)| < SEQUENCES - 1
    && forall i :: 0 <= i < |batches| ==> |batches[i]| < 0x8000_0000
  }

  /** Besides, every key and value fits, so that the batches can be read back. */
  predicate Readable(batches: seq<seq<Op>>) {
    forall i :: 0 <= i < |batches| ==> AllOpsFit(batches[i])
  }

  lemma {:induction false} FlattenConcat(a: seq<seq<Op>>, b: seq<seq<Op>>)
    ensures Flatten(a + b) == Flatten(a) + Flatten(b)
  {
    if a == [] {
      assert a + b == b;
    } else {
      assert (a + b)[0] == a[0] && (a + b)[1..] == a[1..] + b;
      FlattenConcat(a[1..], b);
    }
  }

  /** Committing goes on with the number behind all operations so far. */
  lemma {:induction false} CommitsConcat(last: nat, a: seq<seq<Op>>, b: seq<seq<Op>>, before: seq<seq<uint8>>,
                                         after: seq<seq<uint8>>)
    requires AreCommits(last, a, before) && AreCommits(last + |Flatten(a)|, b, after)
    ensures AreCommits(last, a + b, before + after)
    decreases |a|
  {
    if a == [] {
      Units(b);
      Units(after);
    } else {
      FlattenFirst(a);
      FirstOfCommits(last, a, before);
      TailAppend(a, b);
      TailAppend(before, after);
      CommitsConcat(last + |a[0]|, a[1..], b, before[1..], after);
      CommitsCons(last, a + b, before + after);
    }
  }

  lemma {:induction false} CommitsSnoc(last: nat, batches: seq<seq<Op>>, records: seq<seq<uint8>>, ops: seq<Op>,
                                       record: seq<uint8>)
    requires AreCommits(last, batches, records) && IsCommit(last + |Flatten(batches)|, ops, record)
    ensures AreCommits(last, batches + [ops], records + [record])
  {
    CommitsCons(last + |Flatten(batches)|, [ops], [record]);
    CommitsConcat(last, batches, [ops], records, [record]);
  }

  /** Of a log of commits, the first and the later ones. */
  lemma {:induction false} CommitsCut(last: nat, batches: seq<seq<Op>>, records: seq<seq<uint8>>, n: nat)
    requires AreCommits(last, batches, records) && n <= |batches|
    ensures AreCommits(last, batches[..n], records[..n])
    ensures AreCommits(last + |Flatten(batches[..n])|, batches[n..], records[n..])
    decreases n
  {
    if n == 0 {
      assert batches[0..] == batches && records[0..] == records;
    } else {
      FirstOfCommits(last, batches, records);
      BehindFirst(batches, n);
      BehindFirst(records, n);
      FlattenFirst(batches[..n]);
      CommitsCut(last + |batches[0]|, batches[1..], records[1..], n - 1);
      CommitsCons(last, batches[..n], records[..n]);
    }
  }

  lemma {:induction false} CommittablePrefix(last: nat, batches: seq<seq<Op>>, n: nat)
    requires Committable(last, batches) && n <= |batches|
    ensures Committable(last, batches[..n]) && Flatten(batches[..n]) <= Flatten(batches)
  {
    FlattenConcat(batches[..n], batches[n..]);
    assert batches[..n] + batches[n..] == batches;
  }

  lemma {:induction false} FlattenFirst(batches: seq<seq<Op>>)
    requires batches != []
    ensures |Flatten(batches)| == |batches[0]| + |Flatten(batches[1..])|
  {
  }

  // Numbering

  lemma {:induction false} NumberedConcat(sequence: nat, a: seq<Op>, b: seq<Op>)
    ensures Numbered(sequence, a + b) == Numbered(sequence, a) + Numbered(sequence + |a|, b)
    decreases |a|
  {
    if a == [] {
      assert a + b == b;
    } else {
      assert (a + b)[0] == a[0] && (a + b)[1..] == a[1..] + b;
      NumberedConcat(sequence + 1, a[1..], b);
    }
  }

  lemma {:induction false} Together(entries: seq<Entry>, last: nat, a: seq<Op>, b: seq<Op>, all: seq<Op>,
                                    more: seq<Entry>)
    requires all == a + b && more == entries + Numbered(last + 1, a)
    ensures entries + Numbered(last + 1, all) == more + Numbered(last + |a| + 1, b)
    ensures last + |all| == last + |a| + |b|
  {
    NumberedConcat(last + 1, a, b);
    assert entries + (Numbered(last + 1, a) + Numbered(last + 1 + |a|, b)) == more + Numbered(last + 1 + |a|, b);
  }

  // Replaying commits

  /** What the batch of these operations hands over. Quantified as `IsCommit` is. */
  ghost predicate HandsOver(ops: seq<Op>, handed: Replayed) {
    forall os :: os == ops ==> HandedOver(os) == handed
  }

  lemma {:induction false} HandsOverWhole(ops: seq<Op>, handed: Replayed)
    requires HandsOver(ops, handed) && |ops| < 0x8000_0000
    ensures handed == Replayed(ops, Ok) <==> AllOpsFit(ops)
  {
    HandedOverWhole(ops);
    assert handed == HandedOver(ops);
  }

  /**
   A commit is entered as far as its batch hands it over. Either all its operations are counted, or
   the recovery stops: under paranoid checks, if the batch was not handed over without an error.
   */
  lemma {:induction false} ApplyCommit(paranoid: bool, r: Recovered, last: nat, ops: seq<Op>)
    requires |ops| < 0x8000_0000 && last + |ops| < SEQUENCES - 1 && r.maxSequence <= last
    ensures Apply(paranoid, r, Rep(last + 1, ops))
         == (var entries := r.entries + Numbered(last + 1, HandedOver(ops).ops);
             if paranoid && HandedOver(ops).status != Ok then Recovered(entries, r.maxSequence, false)
             else Recovered(entries, last + |ops|, true))
  {
    CommitBack(last, ops, Rep(last + 1, ops), HandedOver(ops));
    Applied(paranoid, r, last, ops, Rep(last + 1, ops), HandedOver(ops));
  }

  lemma {:induction false} Applied(paranoid: bool, r: Recovered, last: nat, ops: seq<Op>, record: seq<uint8>,
                                   handed: Replayed)
    requires |record| >= HEADER_SIZE && Replay(record) == handed && r.maxSequence <= last
    requires Sequence(record) == last + 1 && LastSequence(record) == last + |ops|
    ensures Apply(paranoid, r, record)
         == (var entries := r.entries + Numbered(last + 1, handed.ops);
             if paranoid && handed.status != Ok then Recovered(entries, r.maxSequence, false)
             else Recovered(entries, last + |ops|, true))
  {
  }

  lemma {:induction false} CommitApplied(paranoid: bool, r: Recovered, last: nat, ops: seq<Op>, record: seq<uint8>,
                                         handed: Replayed)
    requires |ops| < 0x8000_0000 && last + |ops| < SEQUENCES - 1 && r.maxSequence <= last
    requires IsCommit(last, ops, record) && HandsOver(ops, handed) && (paranoid ==> handed.status == Ok)
    ensures Apply(paranoid, r, record) == Recovered(r.entries + Numbered(last + 1, handed.ops), last + |ops|, true)
  {
    assert (last + 1) % SEQUENCES == last + 1;
    assert record == Rep(last + 1, ops);
    CommitBack(last, ops, record, handed);
    Applied(paranoid, r, last, ops, record, handed);
  }

  lemma {:induction false} CommitBack(last: nat, ops: seq<Op>, record: seq<uint8>, handed: Replayed)
    requires |ops| < 0x8000_0000 && last + |ops| < SEQUENCES - 1 && record == Rep(last + 1, ops)
    requires HandsOver(ops, handed)
    ensures Replay(record) == handed
    ensures Sequence(record) == last + 1 && LastSequence(record) == last + |ops|
    ensures BatchFormat.Count(record) == |ops|
  {
    assert handed == HandedOver(ops);
    ReplayBack(last + 1, ops);
    SignedCount(|ops|);
    LastOf(record, last, |ops|);
  }

  lemma {:induction false} LastOf(record: seq<uint8>, last: nat, n: nat)
    requires |record| >= HEADER_SIZE && Sequence(record) == last + 1 && BatchFormat.Count(record) == n
    requires last + n < SEQUENCES
    ensures LastSequence(record) == last + n
  {
  }

  /** Replaying the records from `r` on ends in `goal`. */
  ghost predicate EndsIn(paranoid: bool, r: Recovered, records: seq<seq<uint8>>, goal: Recovered) {
    forall rs :: rs == records ==> ApplyAll(paranoid, r, rs) == goal
  }

  /** What the commits that survived amount to: their operations, numbered without a gap. */
  function Restored(entries: seq<Entry>, max: nat, last: nat, batches: seq<seq<Op>>): Recovered {
    Recovered(entries + Numbered(last + 1, Flatten(batches)),
              if batches == [] then max else last + |Flatten(batches)|, true)
  }

  /** Replaying commits that fit enters all of them, numbered without a gap. */
  lemma {:induction false} ApplyCommits(paranoid: bool, entries: seq<Entry>, max: nat, last: nat,
                                        batches: seq<seq<Op>>)
    requires Committable(last, batches) && Readable(batches) && max <= last
    ensures ApplyAll(paranoid, Recovered(entries, max, true), Commits(last, batches))
         == Restored(entries, max, last, batches)
  {
    CommitsApplied(paranoid, entries, max, last, batches, Commits(last, batches));
  }

  lemma {:induction false} CommitsApplied(paranoid: bool, entries: seq<Entry>, max: nat, last: nat,
                                          batches: seq<seq<Op>>, records: seq<seq<uint8>>)
    requires Committable(last, batches) && Readable(batches) && AreCommits(last, batches, records) && max <= last
    ensures EndsIn(paranoid, Recovered(entries, max, true), records, Restored(entries, max, last, batches))
    decreases |batches|
  {
    if batches == [] {
      assert entries + [] == entries;
    } else {
      var ops, others, later := batches[0], batches[1..], records[1..];
      var more := entries + Numbered(last + 1, ops);
      assert forall i :: 0 <= i < |others| ==> others[i] == batches[i + 1];
      FirstOfCommits(last, batches, records);
      CommitsApplied(paranoid, more, last + |ops|, last + |ops|, others, later);
      RestoredMore(entries, max, last, batches, more);
      ApplyFirst(paranoid, Recovered(entries, max, true), records, last, ops, Restored(entries, max, last, batches));
    }
  }

  lemma {:induction false} RestoredMore(entries: seq<Entry>, max: nat, last: nat, batches: seq<seq<Op>>,
                                        more: seq<Entry>)
    requires batches != [] && more == entries + Numbered(last + 1, batches[0])
    ensures Restored(entries, max, last, batches)
         == Restored(more, last + |batches[0]|, last + |batches[0]|, batches[1..])
  {
    Together(entries, last, batches[0], Flatten(batches[1..]), Flatten(batches), more);
  }

  lemma {:induction false} ApplyFirst(paranoid: bool, r: Recovered, records: seq<seq<uint8>>, last: nat, ops: seq<Op>,
                                      goal: Recovered)
    requires AllOpsFit(ops) && |ops| < 0x8000_0000 && last + |ops| < SEQUENCES - 1 && r.maxSequence <= last && r.ok
    requires records != [] && IsCommit(last, ops, records[0])
    requires EndsIn(paranoid, Recovered(r.entries + Numbered(last + 1, ops), last + |ops|, true), records[1..], goal)
    ensures EndsIn(paranoid, r, records, goal)
  {
    HandedOverWhole(ops);
    CommitApplied(paranoid, r, last, ops, records[0], Replayed(ops, Ok));
  }

  // Crashes

  /**
   A log of commits, of which a crash has left only the front: recovering the file restores exactly
   the batches whose log record was written completely, each of them whole and in the order of the
   commits, and the sequence number to go on from. Paranoid checks find nothing to object to.
   */
  lemma {:induction false} CommitsSurvive(step: ByteStep, paranoid: bool, file: seq<uint8>, entries: seq<Entry>,
                                          max: nat, last: nat, batches: seq<seq<Op>>, records: seq<seq<uint8>>)
    requires Committable(last, batches) && Readable(batches) && records == Commits(last, batches) && max <= last
    requires LogCut(step, file, 0, 0, records)
    ensures Complete(step, 0, 0, records, |file|) <= |batches|
    ensures Recover(step, paranoid, file, 0, Recovered(entries, max, true))
         == Restored(entries, max, last, batches[..Complete(step, 0, 0, records, |file|)])
  {
    var n := Complete(step, 0, 0, records, |file|);
    CommitsCut(last, batches, records, n);
    CommittablePrefix(last, batches, n);
    CommitsApplied(paranoid, entries, max, last, batches[..n], records[..n]);
    RecoverLog(step, paranoid, file, 0, 0, records, Recovered(entries, max, true));
  }

  /** Commits in two runs: the second goes on with the number recovered from the first. */
  lemma {:induction false} SecondCrash(step: ByteStep, paranoid: bool, file: seq<uint8>, last: nat,
                                       survived: seq<seq<Op>>, batches: seq<seq<Op>>, records: seq<seq<uint8>>)
    requires var now := last + |Flatten(survived)|;
             Committable(now, batches) && Readable(batches) && records == Commits(now, batches)
    requires LogCut(step, file, 0, 0, records)
    ensures Complete(step, 0, 0, records, |file|) <= |batches|
    ensures Recover(step, paranoid, file, 0, Restored([], last, last, survived))
         == Restored([], last, last, survived + batches[..Complete(step, 0, 0, records, |file|)])
  {
    var before := Restored([], last, last, survived);
    var n := Complete(step, 0, 0, records, |file|);
    RestoredNumber(last, survived);
    CommitsSurvive(step, paranoid, file, before.entries, before.maxSequence, before.maxSequence, batches, records);
    RestoredTwice(last, survived, batches[..n]);
  }

  lemma {:induction false} RestoredNumber(last: nat, batches: seq<seq<Op>>)
    ensures Restored([], last, last, batches).maxSequence == last + |Flatten(batches)|
  {
  }

  lemma {:induction false} RestoredTwice(last: nat, a: seq<seq<Op>>, b: seq<seq<Op>>)
    ensures var r := Restored([], last, last, a);
            Restored(r.entries, r.maxSequence, r.maxSequence, b) == Restored([], last, last, a + b)
  {
    var r := Restored([], last, last, a);
    RestoredNumber(last, a);
    RestoredNumber(last, a + b);
    FlattenConcat(a, b);
    Together([], last, Flatten(a), Flatten(b), Flatten(a + b), r.entries);
  }

  lemma {:induction false} CutOfLog(step: ByteStep, records: seq<seq<uint8>>, bytes: seq<uint8>, k: nat)
    requires WriteLog(step, 0, records).bytes == bytes && k <= |bytes|
    ensures LogCut(step, bytes[..k], 0, 0, records)
    ensures k == |bytes| ==> Complete(step, 0, 0, records, k) == |records|
  {
    assert bytes[..k][0..] == bytes[..k];
    CompleteIsLongest(step, 0, 0, records, k, |records|);
    assert records[..|records|] == records;
  }
}
