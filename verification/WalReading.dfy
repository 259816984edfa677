/**
 What the reader makes of any file, however its fragments came about: which records it may return,
 what it must report, and when it has nothing to report. Fragment types are written as numbers: 1 is
 a whole record, 2, 3 and 4 a first, middle and last fragment, 5 the end of the file, 6 a bad record.
 */
module WalReading {
  import opened Words
  import opened Leb128
  import opened WalFormat

  // What is returned

  /** A record and the offset behind its last fragment. */
  datatype Found = Found(record: seq<uint8>, next: nat)

  /** Any middle fragments and a last one, each directly behind the other. */
  function EndAt(step: ByteStep, verify: bool, file: seq<uint8>, o: nat): (r: Option<Found>)
    requires o <= |file|
    decreases |file| - o
    ensures r.Some? ==> o < r.value.next <= |file|
  {
    var f := NextFragment(step, verify, file, o);
    if f.kind == 4 then Some(Found(f.data, f.next))
    else if f.kind != 3 then None
    else
      match EndAt(step, verify, file, f.next)
      case None => None
      case Some(end) => Some(Found(f.data + end.record, end.next))
  }

  /** A whole record at `o`: one fragment, or a first one and the others directly behind it. */
  function RecordAt(step: ByteStep, verify: bool, file: seq<uint8>, o: nat): (r: Option<Found>)
    requires o <= |file|
    ensures r.Some? ==> o < r.value.next <= |file|
  {
    var f := NextFragment(step, verify, file, o);
    if f.kind == 1 then Some(Found(f.data, f.next))
    else if f.kind != 2 then None
    else
      match EndAt(step, verify, file, f.next)
      case None => None
      case Some(end) => Some(Found(f.data + end.record, end.next))
  }

  /** All whole records: where none is, one fragment is passed over. */
  function RecordsFrom(step: ByteStep, verify: bool, file: seq<uint8>, o: nat): seq<seq<uint8>>
    requires o <= |file|
    decreases |file| - o
  {
    var f := NextFragment(step, verify, file, o);
    if f.kind == 5 then []
    else
      match RecordAt(step, verify, file, o)
      case Some(found) => [found.record] + RecordsFrom(step, verify, file, found.next)
      case None => RecordsFrom(step, verify, file, f.next)
  }

  /** What is read from `o` on by a reader that holds the front of a record. */
  function LogFrom(step: ByteStep, verify: bool, file: seq<uint8>, o: nat, partial: Partial): Log
    requires o <= |file|
  {
    var r := ReadRecord(step, verify, file, o, partial);
    match r.record
    case None => Log([], r.reports, r.lost)
    case Some(record) =>
      var later := ReadLog(step, verify, file, r.next);
      Log([record] + later.records, r.reports + later.reports, r.lost + later.lost)
  }

  /** A log with more records and reports in front. */
  function Before(records: seq<seq<uint8>>, reports: nat, lost: nat, log: Log): Log {
    Log(records + log.records, reports + log.reports, lost + log.lost)
  }

  // One fragment, for all that a reader may hold

  /** The same reading with more reports. */
  function More(r: Reading, reports: nat, lost: nat): Reading {
    Reading(r.record, r.next, reports + r.reports, lost + r.lost)
  }

  /** A record of one fragment is returned. What the reader holds is reported, unless it is nothing. */
  lemma {:induction false} WholeRead(step: ByteStep, verify: bool, file: seq<uint8>, o: nat, held: Partial, f: Fragment)
    requires o <= |file| && f == NextFragment(step, verify, file, o) && f.kind == 1
    ensures ReadRecord(step, verify, file, o, held)
         == Reading(Some(f.data), f.next, if Size(held) > 0 then 1 else 0, Size(held))
  {
  }

  /** A first fragment is held from then on. What the reader holds is reported, unless it is nothing. */
  lemma {:induction false} FirstRead(step: ByteStep, verify: bool, file: seq<uint8>, o: nat, held: Partial, f: Fragment)
    requires o <= |file| && f == NextFragment(step, verify, file, o) && f.kind == 2
    ensures ReadRecord(step, verify, file, o, held)
         == More(ReadRecord(step, verify, file, f.next, Some(f.data)), if Size(held) > 0 then 1 else 0, Size(held))
  {
  }

  /** A middle fragment goes behind what is held. */
  lemma {:induction false} MiddleRead(step: ByteStep, verify: bool, file: seq<uint8>, o: nat, held: Partial,
                                      f: Fragment)
    requires o <= |file| && f == NextFragment(step, verify, file, o) && f.kind == 3 && held.Some?
    ensures ReadRecord(step, verify, file, o, held)
         == More(ReadRecord(step, verify, file, f.next, Some(held.value + f.data)), 0, 0)
  {
  }

  /** A last fragment ends the record that is held. */
  lemma {:induction false} LastRead(step: ByteStep, verify: bool, file: seq<uint8>, o: nat, held: Partial,
                                    f: Fragment)
    requires o <= |file| && f == NextFragment(step, verify, file, o) && f.kind == 4 && held.Some?
    ensures ReadRecord(step, verify, file, o, held) == Reading(Some(held.value + f.data), f.next, 0, 0)
  {
  }

  /** A middle or last fragment without a first one is reported, with its length, and passed over. */
  lemma {:induction false} OrphanRead(step: ByteStep, verify: bool, file: seq<uint8>, o: nat, held: Partial,
                                      f: Fragment)
    requires o <= |file| && f == NextFragment(step, verify, file, o) && (f.kind == 3 || f.kind == 4) && held.None?
    ensures ReadRecord(step, verify, file, o, held) == More(ReadRecord(step, verify, file, f.next, None), 1, |f.data|)
  {
  }

  /** A bad record: what is held is given up and reported, besides what the physical reader reports. */
  lemma {:induction false} BadRead(step: ByteStep, verify: bool, file: seq<uint8>, o: nat, held: Partial, f: Fragment)
    requires o <= |file| && f == NextFragment(step, verify, file, o) && f.kind == 6
    ensures ReadRecord(step, verify, file, o, held)
         == More(ReadRecord(step, verify, file, f.next, None),
                 (if f.damage.Some? then 1 else 0) + (if held.Some? then 1 else 0),
                 (if f.damage.Some? then f.damage.value else 0) + Size(held))
  {
  }

  /** A type there is none of: what is held is given up, and reported together with the fragment. */
  lemma {:induction false} UnknownRead(step: ByteStep, verify: bool, file: seq<uint8>, o: nat, held: Partial,
                                       f: Fragment)
    requires o <= |file| && f == NextFragment(step, verify, file, o) && (f.kind == 0 || f.kind > 6)
    ensures ReadRecord(step, verify, file, o, held)
         == More(ReadRecord(step, verify, file, f.next, None), 1, |f.data| + Size(held))
  {
  }

  /** At the end of the file what is held is dropped without a report. */
  lemma {:induction false} EndRead(step: ByteStep, verify: bool, file: seq<uint8>, o: nat, held: Partial, f: Fragment)
    requires o <= |file| && f == NextFragment(step, verify, file, o) && f.kind == 5
    ensures ReadRecord(step, verify, file, o, held) == Reading(None, f.next, 0, 0)
  {
  }

  // All that is read

  lemma {:induction false} Ended(step: ByteStep, verify: bool, file: seq<uint8>, o: nat, held: Partial,
                                 record: seq<uint8>, next: nat, reports: nat, lost: nat)
    requires o < next <= |file| && ReadRecord(step, verify, file, o, held) == Reading(Some(record), next, reports, lost)
    ensures LogFrom(step, verify, file, o, held)
         == Before([record], reports, lost, LogFrom(step, verify, file, next, None))
  {
  }

  lemma {:induction false} GoneOn(step: ByteStep, verify: bool, file: seq<uint8>, o: nat, held: Partial, next: nat,
                                  now: Partial, reports: nat, lost: nat)
    requires o < next <= |file|
    requires ReadRecord(step, verify, file, o, held) == More(ReadRecord(step, verify, file, next, now), reports, lost)
    ensures LogFrom(step, verify, file, o, held)
         == Before([], reports, lost, LogFrom(step, verify, file, next, now))
  {
    Units(LogFrom(step, verify, file, next, now).records);
  }

  /** What one fragment adds to what is returned and reported, and what the reader holds behind it. */
  lemma {:induction false} Turn(step: ByteStep, verify: bool, file: seq<uint8>, o: nat, held: Partial, f: Fragment)
    returns (some: seq<seq<uint8>>, now: Partial, reports: nat, lost: nat)
    requires o <= |file| && f == NextFragment(step, verify, file, o) && f.kind != 5
    ensures LogFrom(step, verify, file, o, held)
         == Before(some, reports, lost, LogFrom(step, verify, file, f.next, now))
    ensures now == if f.kind == 2 then Some(f.data)
                   else if f.kind == 3 && held.Some? then Some(held.value + f.data) else None
    ensures some == if f.kind == 1 then [f.data]
                    else if f.kind == 4 && held.Some? then [held.value + f.data] else []
    ensures lost == if f.kind == 1 || f.kind == 2 then Size(held)
                    else if f.kind == 3 || f.kind == 4 then if held.Some? then 0 else |f.data|
                    else if f.kind == 6 then Bytes(f.damage) + Size(held)
                    else |f.data| + Size(held)
    ensures reports == if f.kind == 1 || f.kind == 2 then if Size(held) > 0 then 1 else 0
                       else if f.kind == 3 || f.kind == 4 then if held.Some? then 0 else 1
                       else if f.kind == 6 then Count(f.damage) + if held.Some? then 1 else 0
                       else 1
  {
    some, now, reports, lost := [], None, 0, 0;
    if f.kind == 1 || (f.kind == 4 && held.Some?) {
      if f.kind == 1 {
        WholeRead(step, verify, file, o, held, f);
        some, reports, lost := [f.data], if Size(held) > 0 then 1 else 0, Size(held);
      } else {
        LastRead(step, verify, file, o, held, f);
        some := [held.value + f.data];
      }
      Ended(step, verify, file, o, held, some[0], f.next, reports, lost);
    } else {
      now, reports, lost := NoRecord(step, verify, file, o, held, f);
      GoneOn(step, verify, file, o, held, f.next, now, reports, lost);
    }
  }

  lemma {:induction false} NoRecord(step: ByteStep, verify: bool, file: seq<uint8>, o: nat, held: Partial, f: Fragment)
    returns (now: Partial, reports: nat, lost: nat)
    requires o <= |file| && f == NextFragment(step, verify, file, o)
    requires f.kind != 1 && f.kind != 5 && (f.kind == 4 ==> held.None?)
    ensures ReadRecord(step, verify, file, o, held) == More(ReadRecord(step, verify, file, f.next, now), reports, lost)
    ensures now == if f.kind == 2 then Some(f.data)
                   else if f.kind == 3 && held.Some? then Some(held.value + f.data) else None
    ensures lost == if f.kind == 2 then Size(held)
                    else if f.kind == 3 || f.kind == 4 then if held.Some? then 0 else |f.data|
                    else if f.kind == 6 then Bytes(f.damage) + Size(held)
                    else |f.data| + Size(held)
    ensures reports == if f.kind == 2 then if Size(held) > 0 then 1 else 0
                       else if f.kind == 3 || f.kind == 4 then if held.Some? then 0 else 1
                       else if f.kind == 6 then Count(f.damage) + if held.Some? then 1 else 0
                       else 1
  {
    if f.kind == 2 {
      FirstRead(step, verify, file, o, held, f);
      now, reports, lost := Some(f.data), if Size(held) > 0 then 1 else 0, Size(held);
    } else if f.kind == 3 && held.Some? {
      MiddleRead(step, verify, file, o, held, f);
      now, reports, lost := Some(held.value + f.data), 0, 0;
    } else if f.kind == 3 || f.kind == 4 {
      OrphanRead(step, verify, file, o, held, f);
      now, reports, lost := None, 1, |f.data|;
    } else if f.kind == 6 {
      BadRead(step, verify, file, o, held, f);
      now, reports, lost := None, Count(f.damage) + (if held.Some? then 1 else 0), Bytes(f.damage) + Size(held);
    } else {
      UnknownRead(step, verify, file, o, held, f);
      now, reports, lost := None, 1, |f.data| + Size(held);
    }
  }

  lemma {:induction false} EndOfLog(step: ByteStep, verify: bool, file: seq<uint8>, o: nat, held: Partial, f: Fragment)
    requires o <= |file| && f == NextFragment(step, verify, file, o) && f.kind == 5
    ensures LogFrom(step, verify, file, o, held) == Log([], 0, 0)
  {
    EndRead(step, verify, file, o, held, f);
  }

  /** The records from `o` on, for a reader that holds the front of one. */
  function RecordsBehind(step: ByteStep, verify: bool, file: seq<uint8>, o: nat, held: Partial): seq<seq<uint8>>
    requires o <= |file|
  {
    if held.Some? && EndAt(step, verify, file, o).Some? then
      var end := EndAt(step, verify, file, o).value;
      [held.value + end.record] + RecordsFrom(step, verify, file, end.next)
    else RecordsFrom(step, verify, file, o)
  }

  lemma {:induction false} OnePassed(step: ByteStep, verify: bool, file: seq<uint8>, o: nat, held: Partial, f: Fragment,
                                     some: seq<seq<uint8>>, now: Partial)
    requires o <= |file| && f == NextFragment(step, verify, file, o) && f.kind != 5
    requires now == if f.kind == 2 then Some(f.data)
                    else if f.kind == 3 && held.Some? then Some(held.value + f.data) else None
    requires some == if f.kind == 1 then [f.data]
                     else if f.kind == 4 && held.Some? then [held.value + f.data] else []
    ensures RecordsBehind(step, verify, file, o, held) == some + RecordsBehind(step, verify, file, f.next, now)
  {
    if f.kind == 3 && held.Some? && EndAt(step, verify, file, f.next).Some? {
      Regroup(held.value, f.data, EndAt(step, verify, file, f.next).value.record);
    }
    Units(RecordsBehind(step, verify, file, f.next, now));
  }

  lemma {:induction false} ReturnsBehind(step: ByteStep, verify: bool, file: seq<uint8>, o: nat, held: Partial)
    requires o <= |file|
    ensures LogFrom(step, verify, file, o, held).records == RecordsBehind(step, verify, file, o, held)
    decreases |file| - o
  {
    var f := NextFragment(step, verify, file, o);
    if f.kind == 5 {
      EndOfLog(step, verify, file, o, held, f);
    } else {
      var some, now, reports, lost := Turn(step, verify, file, o, held, f);
      ReturnsBehind(step, verify, file, f.next, now);
      OnePassed(step, verify, file, o, held, f, some, now);
    }
  }

  /**
   Of any file at all, exactly the whole records are returned: a fragment is never joined to one that
   does not directly follow it, and nothing else is made of fragments that do not belong together.
   */
  lemma {:induction false} ReturnsWholeRecords(step: ByteStep, verify: bool, file: seq<uint8>, o: nat)
    requires o <= |file|
    ensures ReadLog(step, verify, file, o).records == RecordsFrom(step, verify, file, o)
  {
    ReturnsBehind(step, verify, file, o, None);
    assert LogFrom(step, verify, file, o, None) == ReadLog(step, verify, file, o);
  }

  // Every byte is accounted for

  function TotalLength(records: seq<seq<uint8>>): nat {
    if records == [] then 0 else |records[0]| + TotalLength(records[1..])
  }

  /** The bytes in all fragments from `o` on, and those in bad records that are reported. */
  function Payload(step: ByteStep, verify: bool, file: seq<uint8>, o: nat): nat
    requires o <= |file|
    decreases |file| - o
  {
    var f := NextFragment(step, verify, file, o);
    if f.kind == 5 then 0
    else (if f.kind == 6 then Bytes(f.damage) else |f.data|) + Payload(step, verify, file, f.next)
  }

  /** If there are but middle fragments up to the end of the file: how many bytes are in them. */
  function OpenEnd(step: ByteStep, verify: bool, file: seq<uint8>, o: nat): Option<nat>
    requires o <= |file|
    decreases |file| - o
  {
    var f := NextFragment(step, verify, file, o);
    if f.kind == 5 then Some(0)
    else if f.kind != 3 then None
    else
      match OpenEnd(step, verify, file, f.next)
      case None => None
      case Some(n) => Some(|f.data| + n)
  }

  /** How many bytes there are of a record that the file breaks off. */
  function Unfinished(step: ByteStep, verify: bool, file: seq<uint8>, o: nat, held: Partial): nat
    requires o <= |file|
    decreases |file| - o
  {
    var f := NextFragment(step, verify, file, o);
    if held.Some? && OpenEnd(step, verify, file, o).Some? then
      |held.value| + OpenEnd(step, verify, file, o).value
    else if f.kind == 5 then 0
    else Unfinished(step, verify, file, f.next, if f.kind == 2 then Some(f.data) else None)
  }

  /** Nothing is counted twice or lost: bytes are returned, or reported, or in a record the file breaks off. */
  lemma {:induction false} AccountedFor(step: ByteStep, verify: bool, file: seq<uint8>, o: nat, held: Partial)
    returns (log: Log)
    requires o <= |file|
    ensures log == LogFrom(step, verify, file, o, held)
    ensures TotalLength(log.records) + log.lost + Unfinished(step, verify, file, o, held)
         == Size(held) + Payload(step, verify, file, o)
    decreases |file| - o
  {
    var f := NextFragment(step, verify, file, o);
    log := LogFrom(step, verify, file, o, held);
    if f.kind == 5 {
      EndOfLog(step, verify, file, o, held, f);
    } else {
      var some, now, reports, lost := Turn(step, verify, file, o, held, f);
      var later := AccountedFor(step, verify, file, f.next, now);
      TotalOf(some, later.records);
      UnfinishedStep(step, verify, file, o, held, f, now);
    }
  }

  lemma {:induction false} TotalOf(some: seq<seq<uint8>>, later: seq<seq<uint8>>)
    requires |some| <= 1
    ensures TotalLength(some + later) == (if some == [] then 0 else |some[0]|) + TotalLength(later)
  {
    if some == [] {
      Units(later);
    } else {
      assert (some + later)[1..] == later;
    }
  }

  lemma {:induction false} UnfinishedStep(step: ByteStep, verify: bool, file: seq<uint8>, o: nat, held: Partial,
                                          f: Fragment, now: Partial)
    requires o <= |file| && f == NextFragment(step, verify, file, o) && f.kind != 5
    requires now == if f.kind == 2 then Some(f.data)
                    else if f.kind == 3 && held.Some? then Some(held.value + f.data) else None
    ensures Unfinished(step, verify, file, o, held) == Unfinished(step, verify, file, f.next, now)
  {
    if f.kind == 3 && held.Some? && OpenEnd(step, verify, file, f.next).None? {
      NotOpen(step, verify, file, f.next, now);
    }
  }

  lemma {:induction false} NotOpen(step: ByteStep, verify: bool, file: seq<uint8>, o: nat, held: Partial)
    requires o <= |file| && OpenEnd(step, verify, file, o).None?
    ensures Unfinished(step, verify, file, o, held) == Unfinished(step, verify, file, o, None)
  {
  }

  /** The same for a reader that starts at `o`. */
  lemma {:induction false} NothingUnaccountedFor(step: ByteStep, verify: bool, file: seq<uint8>, o: nat)
    requires o <= |file|
    ensures var log := ReadLog(step, verify, file, o);
            TotalLength(log.records) + log.lost + Unfinished(step, verify, file, o, None)
            == Payload(step, verify, file, o)
  {
    var log := AccountedFor(step, verify, file, o, None);
  }

  // When there is nothing to report

  /**
   The fragments from `o` on are in order: each whole record stands alone, and each other is a first
   fragment, middle ones and a last one, or as much of that as the file has. `held` is how much there
   is of a record that has begun; if that is nothing, another may begin in its place.
   */
  predicate InOrder(step: ByteStep, verify: bool, file: seq<uint8>, o: nat, held: Option<nat>)
    requires o <= |file|
    decreases |file| - o
  {
    var f := NextFragment(step, verify, file, o);
    if f.kind == 5 then true
    else if f.kind == 1 then
      (held == None || held == Some(0)) && InOrder(step, verify, file, f.next, None)
    else if f.kind == 2 then
      (held == None || held == Some(0)) && InOrder(step, verify, file, f.next, Some(|f.data|))
    else if f.kind == 3 then
      held.Some? && InOrder(step, verify, file, f.next, Some(held.value + |f.data|))
    else if f.kind == 4 then held.Some? && InOrder(step, verify, file, f.next, None)
    else f.kind == 6 && f.damage.None? && held.None? && InOrder(step, verify, file, f.next, None)
  }

  function SizeOf(held: Partial): Option<nat> {
    if held.Some? then Some(|held.value|) else None
  }

  lemma {:induction false} SilentBehind(step: ByteStep, verify: bool, file: seq<uint8>, o: nat, held: Partial)
    requires o <= |file|
    ensures LogFrom(step, verify, file, o, held).reports == 0 <==> InOrder(step, verify, file, o, SizeOf(held))
    decreases |file| - o
  {
    var f := NextFragment(step, verify, file, o);
    if f.kind == 5 {
      EndOfLog(step, verify, file, o, held, f);
    } else {
      var some, now, reports, lost := Turn(step, verify, file, o, held, f);
      SilentBehind(step, verify, file, f.next, now);
      OneInOrder(step, verify, file, o, held, f, now, reports);
    }
  }

  lemma {:induction false} OneInOrder(step: ByteStep, verify: bool, file: seq<uint8>, o: nat, held: Partial,
                                      f: Fragment, now: Partial, reports: nat)
    requires o <= |file| && f == NextFragment(step, verify, file, o) && f.kind != 5
    requires now == if f.kind == 2 then Some(f.data)
                    else if f.kind == 3 && held.Some? then Some(held.value + f.data) else None
    requires reports == if f.kind == 1 || f.kind == 2 then if Size(held) > 0 then 1 else 0
                        else if f.kind == 3 || f.kind == 4 then if held.Some? then 0 else 1
                        else if f.kind == 6 then Count(f.damage) + if held.Some? then 1 else 0
                        else 1
    ensures InOrder(step, verify, file, o, SizeOf(held))
       <==> reports == 0 && InOrder(step, verify, file, f.next, SizeOf(now))
  {
  }

  /** A reader makes no report exactly if all fragments are in order. */
  lemma {:induction false} SilentIfInOrder(step: ByteStep, verify: bool, file: seq<uint8>, o: nat)
    requires o <= |file|
    ensures ReadLog(step, verify, file, o).reports == 0 <==> InOrder(step, verify, file, o, None)
  {
    SilentBehind(step, verify, file, o, None);
    assert LogFrom(step, verify, file, o, None) == ReadLog(step, verify, file, o);
  }
}
