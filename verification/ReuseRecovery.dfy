/**
 Recovering a log file that a second run of the database has continued behind what a crash left of
 the first: behind a whole record, behind one torn at the end of a block, or behind one torn elsewhere.
 */
module ReuseRecovery {
  import opened Words
  import opened Leb128
  import opened WalFormat
  import opened WalReuse
  import opened BatchFormat
  import opened WriteBatches
  import opened Recovery

  /** A log in front of other bytes: its records are replayed, then whatever is found behind it. */
  lemma {:induction false} RecoverThenMore(step: ByteStep, paranoid: bool, file: seq<uint8>, o: nat, b: nat,
                                           records: seq<seq<uint8>>, end: nat, r: Recovered)
    requires b <= BLOCK && Aligned(o, b) && Holds(file, o, WriteLog(step, b, records).bytes)
    requires end == o + |WriteLog(step, b, records).bytes|
    ensures Recover(step, paranoid, file, o, r)
         == Recover(step, paranoid, file, end, ApplyAll(paranoid, r, records))
    decreases |records|
  {
    if !r.ok {
      Refused(step, paranoid, file, o, r);
      Refused(step, paranoid, file, end, r);
    } else if records != [] {
      var next, position := FirstWhole(step, true, file, o, b, records, end);
      RecoverThenMore(step, paranoid, file, next, position, records[1..], end, Apply(paranoid, r, records[0]));
      OneRecovered(step, paranoid, file, o, records[0], next, r);
    }
  }

  /** A recovery that has failed stays as it is. */
  lemma {:induction false} Refused(step: ByteStep, paranoid: bool, file: seq<uint8>, o: nat, r: Recovered)
    requires o <= |file| && !r.ok
    ensures Recover(step, paranoid, file, o, r) == r
  {
  }

  lemma {:induction false} OneRecovered(step: ByteStep, paranoid: bool, file: seq<uint8>, o: nat, record: seq<uint8>,
                                        next: nat, r: Recovered)
    requires o < next <= |file| && r.ok
    requires ReadRecord(step, true, file, o, None) == Reading(Some(record), next, 0, 0)
    ensures Recover(step, paranoid, file, o, r) == Recover(step, paranoid, file, next, Apply(paranoid, r, record))
  {
  }

  // Behind a record that a crash has left up to a block boundary

  /** The first fragment of a log that starts at offset `e`, the start of a block, is in the file. */
  predicate Started(file: seq<uint8>, e: nat, records: seq<seq<uint8>>) {
    records != [] && e + HEADER + Min(|records[0]|, Room(0)) <= |file|
  }

  lemma {:induction false} StartOfLog(step: ByteStep, file: seq<uint8>, e: nat, records: seq<seq<uint8>>)
    requires LogCut(step, file, e, 0, records)
    ensures var kind := NextFragment(step, true, file, e).kind;
            if Started(file, e, records) then kind == FULL || kind == FIRST else kind == EOF
  {
    if records != [] {
      var w, later := FirstAndRest(step, e, 0, records, 0);
      var some, rest, head, more := FirstFragment(step, 0, records[0], true, w.bytes);
      Regroup(head, more, later);
      Regroup(Zeros(0), Physical(step, FragmentType(true, rest == []), some), more + later);
      FragmentCut(step, true, file, e, 0, FragmentType(true, rest == []), some, more + later);
    }
  }

  /**
   The recovery at a torn record of which the reader holds a part when it comes to offset `e`. With
   paranoid checks it ends there, as soon as the first fragment of the new run makes the reader drop
   and report that part. Otherwise it restores what the new run has written completely.
   */
  lemma {:induction false} BehindTorn(step: ByteStep, paranoid: bool, file: seq<uint8>, o: nat, e: nat, held: Partial,
                                      reading: Reading, after: seq<seq<uint8>>, r: Recovered)
    requires Gives(step, true, file, o, None, reading) && Gives(step, true, file, e, held, reading)
    requires LogCut(step, file, e, 0, after)
    ensures Recover(step, paranoid, file, o, r)
         == if paranoid && Size(held) > 0 && Started(file, e, after) then r.(ok := false)
            else ApplyAll(paranoid, r, after[..Complete(step, e, 0, after, |file|)])
  {
    assert reading == ReadRecord(step, true, file, o, None) == ReadRecord(step, true, file, e, held);
    StartOfLog(step, file, e, after);
    RecoverLog(step, paranoid, file, e, 0, after, r);
    if Started(file, e, after) {
      Dropped(step, true, file, e, held, reading);
      NoReport(step, file, e, after);
    }
  }

  lemma {:induction false} NoReport(step: ByteStep, file: seq<uint8>, e: nat, records: seq<seq<uint8>>)
    requires records != [] && LogCut(step, file, e, 0, records)
    ensures var reading := ReadRecord(step, true, file, e, None); reading.reports == 0
  {
    var next, position, others, n := FirstRecord(step, true, file, e, 0, records);
  }

  lemma {:induction false} RecoverTorn(step: ByteStep, paranoid: bool, file: seq<uint8>, o: nat, b: nat,
                                       data: seq<uint8>, bytes: seq<uint8>, front: seq<uint8>,
                                       after: seq<seq<uint8>>, r: Recovered)
    returns (some: seq<uint8>, rest: seq<uint8>)
    requires b <= BLOCK && Aligned(o, b) && (o + |front|) % BLOCK == 0 && Spells(step, b, data, true, bytes)
    requires |front| < |bytes| && front == bytes[..|front|]
    requires Holds(file, o, front) && LogCut(step, file, o + |front|, 0, after)
    ensures var e := o + |front|;
            Recover(step, paranoid, file, o, r)
            == if paranoid && some != [] && Started(file, e, after) then r.(ok := false)
               else ApplyAll(paranoid, r, after[..Complete(step, e, 0, after, |file|)])
    ensures data == some + rest && (|front| <= Padding(b) ==> some == [])
    ensures Spells(step, 0, rest, |front| <= Padding(b), bytes[|front|..])
  {
    var reading := ReadRecord(step, true, file, o, None);
    var held;
    held, some, rest := UpToBlock(step, true, file, o, b, data, None, bytes, |front|, reading);
    BehindTorn(step, paranoid, file, o, o + |front|, held, reading, after, r);
  }

  /**
   A log file that ends at offset `e`, a block boundary, in the middle of a record, `some` of which is
   in it, and behind that what there is of a second run. The first run's records are replayed, and so
   are the complete ones of the second run, unless paranoid checks object to the part that was held.
   */
  lemma {:induction false} RecoverAtBlock(step: ByteStep, paranoid: bool, before: seq<seq<uint8>>, w: Written,
                                          data: seq<uint8>, bytes: seq<uint8>, front: seq<uint8>,
                                          after: seq<seq<uint8>>, file: seq<uint8>, e: nat, r: Recovered)
    returns (some: seq<uint8>, rest: seq<uint8>, n: nat, goal: Recovered)
    requires w == WriteLog(step, 0, before) && Spells(step, w.position, data, true, bytes)
    requires |front| < |bytes| && front == bytes[..|front|] && e == |w.bytes + front| && e % BLOCK == 0
    requires w.bytes + front <= file && file[e..] <= WriteLog(step, 0, after).bytes
    ensures n == Complete(step, e, 0, after, |file|) && goal == Recover(step, paranoid, file, 0, r)
    ensures var first := ApplyAll(paranoid, r, before);
            goal == if paranoid && some != [] && Started(file, e, after) then first.(ok := false)
                    else ApplyAll(paranoid, first, after[..n])
    ensures data == some + rest && (|front| <= Padding(w.position) ==> some == [])
    ensures Spells(step, 0, rest, |front| <= Padding(w.position), bytes[|front|..])
  {
    Front(file, w.bytes, front);
    LogAligned(step, 0, 0, before);
    RecoverThenMore(step, paranoid, file, 0, 0, before, |w.bytes|, r);
    some, rest := RecoverTorn(step, paranoid, file, |w.bytes|, w.position, data, bytes, front, after,
                              ApplyAll(paranoid, r, before));
    n, goal := Complete(step, e, 0, after, |file|), Recover(step, paranoid, file, 0, r);
  }

  lemma {:induction false} Front(file: seq<uint8>, a: seq<uint8>, b: seq<uint8>)
    requires a + b <= file
    ensures Holds(file, 0, a) && Holds(file, |a|, b)
  {
    assert file[..|a| + |b|] == a + b;
  }

  // Runs of the database

  lemma {:induction false} FirstRunComplete(step: ByteStep, before: seq<seq<uint8>>, after: seq<seq<uint8>>, k: nat)
    requires |WriteLog(step, 0, before).bytes| <= k
    ensures |before| <= Complete(step, 0, 0, before + after, k)
  {
    assert (before + after)[..|before|] == before;
    CompleteIsLongest(step, 0, 0, before + after, k, |before|);
  }

  /**
   The last log file is reused: the first run's commits are in it, then perhaps some padding, and
   then those of a second run, which a crash cuts anywhere. Both runs are recovered as one list.
   */
  lemma {:induction false} ReusedLogSurvives(step: ByteStep, paranoid: bool, last: nat,
                                             a: seq<seq<Op>>, before: seq<seq<uint8>>, file: seq<uint8>, n: nat,
                                             b: seq<seq<Op>>, after: seq<seq<uint8>>, all: seq<uint8>, k: nat)
    returns (m: nat, survived: seq<seq<Op>>, r: Recovered)
    requires Committable(last, a + b) && Readable(a + b) && b != []
    requires before == Commits(last, a) && after == Commits(last + |Flatten(a)|, b)
    requires n <= Padding(WriteLog(step, 0, before).position)
    requires file == WriteLog(step, 0, before).bytes + Zeros(n)
    requires all == file + WriteLog(step, |file| % BLOCK, after).bytes && |file| <= k <= |all|
    ensures |a| + m == Complete(step, 0, 0, before + after, k) && m <= |b|
    ensures r == Recover(step, paranoid, all[..k], 0, Recovered([], last, true))
    ensures r == Restored([], last, last, survived) && survived == a + b[..m]
  {
    LengthIsEnough(step, before, n, after);
    AllCommits(last, a, b);
    CutOfLog(step, before + after, all, k);
    FirstRunComplete(step, before, after, k);
    var total;
    total, survived, r := Survivors(step, paranoid, all[..k], last, a + b, before + after);
    m := total - |a|;
    TakeBehind(a, b, m, total);
  }

  lemma {:induction false} TakeBehind<T>(a: seq<T>, b: seq<T>, m: nat, n: nat)
    requires m <= |b| && n == |a| + m
    ensures (a + b)[..n] == a + b[..m]
  {
  }

  lemma {:induction false} AllCommits(last: nat, a: seq<seq<Op>>, b: seq<seq<Op>>)
    ensures Commits(last, a + b) == Commits(last, a) + Commits(last + |Flatten(a)|, b)
  {
    CommitsConcat(last, a, b, Commits(last, a), Commits(last + |Flatten(a)|, b));
  }

  lemma {:induction false} Survivors(step: ByteStep, paranoid: bool, file: seq<uint8>, last: nat,
                                     batches: seq<seq<Op>>, records: seq<seq<uint8>>)
    returns (n: nat, survived: seq<seq<Op>>, r: Recovered)
    requires Committable(last, batches) && Readable(batches) && records == Commits(last, batches)
    requires LogCut(step, file, 0, 0, records)
    ensures n == Complete(step, 0, 0, records, |file|) <= |batches| && survived == batches[..n]
    ensures r == Recover(step, paranoid, file, 0, Recovered([], last, true))
    ensures r == Restored([], last, last, survived)
  {
    CommitsSurvive(step, paranoid, file, [], last, last, batches, records);
    n := Complete(step, 0, 0, records, |file|);
    survived := batches[..n];
    r := Recover(step, paranoid, file, 0, Recovered([], last, true));
  }

  /**
   The first run ended at a block boundary in the middle of a record, of which `some` is in the file.
   With paranoid checks the commits of both runs are recovered if and only if that is nothing, or the
   file ends before a fragment of the second run is there: otherwise the whole second run is lost.
   Without them, both are always recovered as one list.
   */
  lemma {:induction false} AtBlockSurvives(step: ByteStep, paranoid: bool, last: nat,
                                           a: seq<seq<Op>>, before: seq<seq<uint8>>, w: Written,
                                           data: seq<uint8>, bytes: seq<uint8>, front: seq<uint8>,
                                           b: seq<seq<Op>>, after: seq<seq<uint8>>, file: seq<uint8>, e: nat)
    returns (some: seq<uint8>, rest: seq<uint8>, n: nat, r: Recovered)
    requires Committable(last, a + b) && Readable(a + b)
    requires before == Commits(last, a) && after == Commits(last + |Flatten(a)|, b)
    requires w == WriteLog(step, 0, before) && bytes == Frames(step, w.position, data, true).bytes
    requires |front| < |bytes| && front == bytes[..|front|] && e == |w.bytes + front| && e % BLOCK == 0
    requires w.bytes + front <= file && file[e..] <= WriteLog(step, 0, after).bytes
    ensures r == Recover(step, paranoid, file, 0, Recovered([], last, true))
    ensures n == Complete(step, e, 0, after, |file|) <= |b|
    ensures r == if paranoid && some != [] && Started(file, e, after) then Restored([], last, last, a).(ok := false)
                 else Restored([], last, last, a + b[..n])
    ensures file[e..] == WriteLog(step, 0, after).bytes ==> n == |b| && (Started(file, e, after) <==> b != [])
    ensures data == some + rest && (|front| <= Padding(w.position) ==> some == [])
    ensures bytes[|front|..] == Frames(step, 0, rest, |front| <= Padding(w.position)).bytes
  {
    var init := Recovered([], last, true);
    some, rest, n, r := RecoverAtBlock(step, paranoid, before, w, data, bytes, front, after, file, e, init);
    var first, both := BothRuns(paranoid, last, a, b, before, after, n);
    WholeRun(step, file, e, after, n);
    assert bytes[|front|..] == Frames(step, 0, rest, |front| <= Padding(w.position)).bytes;
  }

  lemma {:induction false} BothRuns(paranoid: bool, last: nat, a: seq<seq<Op>>, b: seq<seq<Op>>,
                                    before: seq<seq<uint8>>, after: seq<seq<uint8>>, n: nat)
    returns (first: Recovered, both: Recovered)
    requires Committable(last, a + b) && Readable(a + b) && n <= |after|
    requires before == Commits(last, a) && after == Commits(last + |Flatten(a)|, b)
    ensures first == ApplyAll(paranoid, Recovered([], last, true), before) == Restored([], last, last, a)
    ensures both == ApplyAll(paranoid, first, after[..n]) == Restored([], last, last, a + b[..n]) && |after| == |b|
  {
    Halves(last, a, b);
    ApplyCommits(paranoid, [], last, last, a);
    first := Restored([], last, last, a);
    both := SecondRun(paranoid, last, a, b, after, n);
  }

  lemma {:induction false} Halves(last: nat, a: seq<seq<Op>>, b: seq<seq<Op>>)
    requires Committable(last, a + b) && Readable(a + b)
    ensures Committable(last, a) && Readable(a)
    ensures Committable(last + |Flatten(a)|, b) && Readable(b)
  {
    FlattenConcat(a, b);
    assert forall i :: 0 <= i < |a| ==> (a + b)[i] == a[i];
    assert forall i :: 0 <= i < |b| ==> (a + b)[|a| + i] == b[i];
  }

  lemma {:induction false} SecondRun(paranoid: bool, last: nat, a: seq<seq<Op>>, b: seq<seq<Op>>,
                                     after: seq<seq<uint8>>, n: nat)
    returns (both: Recovered)
    requires Committable(last + |Flatten(a)|, b) && Readable(b) && n <= |after|
    requires after == Commits(last + |Flatten(a)|, b)
    ensures |after| == |b| && both == ApplyAll(paranoid, Restored([], last, last, a), after[..n])
    ensures both == Restored([], last, last, a + b[..n])
  {
    var now := last + |Flatten(a)|;
    CommitsCut(now, b, after, n);
    CommittablePrefix(now, b, n);
    var entries, goal := RestoredOn(last, a, b[..n]);
    CommitsApplied(paranoid, entries, now, now, b[..n], after[..n]);
    both := Ending(paranoid, Recovered(entries, now, true), after[..n], goal);
  }

  lemma {:induction false} RestoredOn(last: nat, a: seq<seq<Op>>, b: seq<seq<Op>>)
    returns (entries: seq<Entry>, goal: Recovered)
    ensures Restored([], last, last, a) == Recovered(entries, last + |Flatten(a)|, true)
    ensures goal == Restored(entries, last + |Flatten(a)|, last + |Flatten(a)|, b) == Restored([], last, last, a + b)
  {
    var r := Restored([], last, last, a);
    RestoredTwice(last, a, b);
    entries, goal := r.entries, Restored([], last, last, a + b);
  }

  lemma {:induction false} Ending(paranoid: bool, r: Recovered, records: seq<seq<uint8>>, goal: Recovered)
    returns (same: Recovered)
    requires EndsIn(paranoid, r, records, goal)
    ensures same == goal == ApplyAll(paranoid, r, records)
  {
    same := ApplyAll(paranoid, r, records);
  }

  lemma {:induction false} WholeRun(step: ByteStep, file: seq<uint8>, e: nat, records: seq<seq<uint8>>, n: nat)
    requires e <= |file| && n == Complete(step, e, 0, records, |file|)
    ensures file[e..] == WriteLog(step, 0, records).bytes ==>
              n == |records| && (Started(file, e, records) <==> records != [])
  {
    if file[e..] == WriteLog(step, 0, records).bytes {
      assert records[..|records|] == records;
      CompleteIsLongest(step, e, 0, records, |file|, |records|);
      if records != [] {
        var w, later := FirstAndRest(step, e, 0, records, 0);
        var some, rest, head, more := FirstFragment(step, 0, records[0], true, w.bytes);
      }
    }
  }

  /**
   The first run left a single byte of a record, at a place in its block from which a short commit
   still fits into the block. That commit of the second run is written completely, yet a recovery
   restores the first run alone, and finds nothing wrong even under paranoid checks.
   */
  lemma {:induction false} TornRunLost(step: ByteStep, paranoid: bool, last: nat, a: seq<seq<Op>>,
                                       before: seq<seq<uint8>>, w: Written, torn: uint8, ops: seq<Op>,
                                       record: seq<uint8>, file: seq<uint8>)
    requires Committable(last, a) && Readable(a) && before == Commits(last, a) && w == WriteLog(step, 0, before)
    requires record == Rep((last + |Flatten(a)| + 1) % SEQUENCES, ops) && |record| <= 0xff
    requires |w.bytes| % BLOCK + 1 + HEADER + |record| < BLOCK
    requires file == w.bytes + [torn] + WriteLog(step, |w.bytes + [torn]| % BLOCK, [record]).bytes
    ensures Recover(step, paranoid, file, 0, Recovered([], last, true)) == Restored([], last, last, a)
  {
    var init := Recovered([], last, true);
    var same := TornFile(step, true, w.bytes, torn, record);
    LogAligned(step, 0, 0, before);
    RecoverThenMore(step, paranoid, file, 0, 0, before, |w.bytes|, init);
    ApplyCommits(paranoid, [], last, last, a);
    EndRecovered(step, paranoid, file, |w.bytes|, Restored([], last, last, a));
  }

  lemma {:induction false} EndRecovered(step: ByteStep, paranoid: bool, file: seq<uint8>, o: nat, r: Recovered)
    requires o <= |file| && ReadRecord(step, true, file, o, None) == Reading(None, |file|, 0, 0)
    ensures Recover(step, paranoid, file, o, r) == r
  {
  }
}
