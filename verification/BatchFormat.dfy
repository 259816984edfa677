/**
 The serialised form of a write batch: sequence number, count, and one tagged record for each
 operation, whose key and value are length-prefixed slices. `Rep` is what the writers build,
 `Replay` what iterating over any bytes does.
 */
module BatchFormat {
  import opened Words
  import opened FixedCoding
  import opened SliceCoding

  const HEADER_SIZE := 12
  const DELETION: uint8 := 0
  const VALUE: uint8 := 1

  datatype Op = Put(key: seq<uint8>, value: seq<uint8>) | Delete(key: seq<uint8>) {
    predicate Fits() {
      |key| < SIZE_LIMIT && (Put? ==> |value| < SIZE_LIMIT)
    }
  }

  datatype Status = Ok | TooSmall | BadPut | BadDelete | UnknownTag | WrongCount

  /** The operations handed to the handler, and how the iteration ended. */
  datatype Replayed = Replayed(ops: seq<Op>, status: Status)

  function OpBytes(op: Op): seq<uint8> {
    match op
    case Put(key, value) => [VALUE] + (PutSlice(key) + PutSlice(value))
    case Delete(key) => [DELETION] + PutSlice(key)
  }

  function OpsBytes(ops: seq<Op>): seq<uint8> {
    if ops == [] then [] else OpBytes(ops[0]) + OpsBytes(ops[1..])
  }

  function Rep(sequence: uint64, ops: seq<Op>): (rep: seq<uint8>)
    ensures |rep| >= HEADER_SIZE
  {
    Header(sequence, |ops| % SIZE_LIMIT) + OpsBytes(ops)
  }

  function Header(sequence: uint64, count: uint32): (h: seq<uint8>)
    ensures |h| == HEADER_SIZE
  {
    Fixed(sequence, 8) + Fixed(count, 4)
  }

  function Sequence(rep: seq<uint8>): nat
    requires |rep| >= HEADER_SIZE
  {
    FixedVal(rep[..8])
  }

  /** The count as the code reads it: a 32-bit word converted to a signed number. */
  function Count(rep: seq<uint8>): int
    requires |rep| >= HEADER_SIZE
  {
    Signed(FixedVal(rep[8..HEADER_SIZE]))
  }

  function Signed(n: nat): (i: int)
    ensures n < 0x1_0000_0000 ==> -0x8000_0000 <= i < 0x8000_0000 && (i == n || i + 0x1_0000_0000 == n)
  {
    if n < 0x8000_0000 then n else n - SIZE_LIMIT
  }

  /** One tagged record, or the reason why there is none. */
  datatype Parsed = Record(op: Op, rest: seq<uint8>) | Bad(status: Status)

  function NextOp(s: seq<uint8>): (r: Parsed)
    requires s != []
    ensures r.Record? ==> |r.rest| < |s|
    ensures r.Bad? ==> r.status != Ok
  {
    if s[0] == VALUE then NextPut(s[1..])
    else if s[0] == DELETION then NextDelete(s[1..])
    else Bad(UnknownTag)
  }

  function NextPut(s: seq<uint8>): (r: Parsed)
    ensures r.Record? ==> |r.rest| <= |s|
    ensures r.Bad? ==> r.status != Ok
  {
    match ReadSlice(s)
    case Slice(key, rest) => NextValue(key, rest)
    case NoHeader => Bad(BadPut)
    case ShortPayload(_) => Bad(BadPut)
  }

  function NextValue(key: seq<uint8>, s: seq<uint8>): (r: Parsed)
    ensures r.Record? ==> |r.rest| <= |s|
    ensures r.Bad? ==> r.status != Ok
  {
    match ReadSlice(s)
    case Slice(value, rest) => Record(Put(key, value), rest)
    case NoHeader => Bad(BadPut)
    case ShortPayload(_) => Bad(BadPut)
  }

  function NextDelete(s: seq<uint8>): (r: Parsed)
    ensures r.Record? ==> |r.rest| <= |s|
    ensures r.Bad? ==> r.status != Ok
  {
    match ReadSlice(s)
    case Slice(key, rest) => Record(Delete(key), rest)
    case NoHeader => Bad(BadDelete)
    case ShortPayload(_) => Bad(BadDelete)
  }

  function ReplayOps(s: seq<uint8>): Replayed
    decreases |s|
  {
    if s == [] then Replayed([], Ok)
    else
      match NextOp(s)
      case Bad(status) => Replayed([], status)
      case Record(op, rest) =>
        var later := ReplayOps(rest);
        Replayed([op] + later.ops, later.status)
  }

  function Replay(rep: seq<uint8>): Replayed {
    if |rep| < HEADER_SIZE then Replayed([], TooSmall)
    else CheckCount(ReplayOps(rep[HEADER_SIZE..]), Count(rep))
  }

  function CheckCount(r: Replayed, count: int): Replayed {
    if r.status == Ok && |r.ops| != count then Replayed(r.ops, WrongCount) else r
  }

  predicate AllOpsFit(ops: seq<Op>) {
    forall i :: 0 <= i < |ops| ==> ops[i].Fits()
  }

  // One operation

  /** What is read of a slice: the slice itself, exactly if it fits. */
  lemma {:induction false} FieldBack(v: seq<uint8>, more: seq<uint8>, s: seq<uint8>)
    returns (value: seq<uint8>, rest: seq<uint8>)
    requires s == PutSlice(v) + more
    ensures ReadSlice(s) == Slice(value, rest)
    ensures if |v| < SIZE_LIMIT then value == v && rest == more else value != v
  {
    SliceReadBack(v, more);
    SliceRoundTrip(v, more);
    var n := |v| % SIZE_LIMIT;
    value, rest := v[..n], v[n..] + more;
  }

  lemma {:induction false} PutReadBack(key: seq<uint8>, value: seq<uint8>, rest: seq<uint8>, s: seq<uint8>)
    requires s == PutSlice(key) + PutSlice(value) + rest
    ensures if Put(key, value).Fits() then NextPut(s) == Record(Put(key, value), rest)
            else NextPut(s).Record? ==> NextPut(s).op != Put(key, value)
  {
    assert s == PutSlice(key) + (PutSlice(value) + rest);
    var k, more := FieldBack(key, PutSlice(value) + rest, s);
    if k == key {
      var v, end := FieldBack(value, rest, more);
    }
  }

  lemma {:induction false} PutTruncated(key: seq<uint8>, value: seq<uint8>, s: seq<uint8>)
    requires |key| < SIZE_LIMIT && |value| < SIZE_LIMIT
    requires |s| < |PutSlice(key) + PutSlice(value)| && s == (PutSlice(key) + PutSlice(value))[..|s|]
    ensures NextPut(s) == Bad(BadPut)
  {
    var a, b := PutSlice(key), PutSlice(value);
    if |s| < |a| {
      assert s == a[..|s|];
      SliceTruncated(key, |s|);
    } else {
      assert s == a + b[..|s| - |a|];
      SliceRoundTrip(key, b[..|s| - |a|]);
      SliceTruncated(value, |s| - |a|);
    }
  }

  /** An operation is read back if it fits; one that does not is never read back as itself. */
  lemma {:induction false} OpReadBack(op: Op, rest: seq<uint8>)
    ensures NextOp(OpBytes(op) + rest) == Record(op, rest) <==> op.Fits()
    ensures !op.Fits() && NextOp(OpBytes(op) + rest).Record? ==> NextOp(OpBytes(op) + rest).op != op
  {
    var s := OpBytes(op) + rest;
    match op {
      case Put(key, value) =>
        Untag(VALUE, PutSlice(key) + PutSlice(value), rest, s);
        PutReadBack(key, value, rest, s[1..]);
      case Delete(key) =>
        Untag(DELETION, PutSlice(key), rest, s);
        var k, end := FieldBack(key, rest, s[1..]);
    }
  }

  lemma {:induction false} OpTruncated(op: Op, s: seq<uint8>)
    requires op.Fits() && 0 < |s| < |OpBytes(op)| && s == OpBytes(op)[..|s|]
    ensures NextOp(s) == Bad(if op.Put? then BadPut else BadDelete)
  {
    match op {
      case Put(key, value) =>
        UntagCut(VALUE, PutSlice(key) + PutSlice(value), s);
        PutTruncated(key, value, s[1..]);
      case Delete(key) =>
        UntagCut(DELETION, PutSlice(key), s);
        SliceTruncated(key, |s| - 1);
    }
  }

  lemma {:induction false} UntagCut(tag: uint8, body: seq<uint8>, s: seq<uint8>)
    requires 0 < |s| <= |body| && s == ([tag] + body)[..|s|]
    ensures s[0] == tag && s[1..] == body[..|s| - 1] && |s[1..]| == |s| - 1
  {
  }

  lemma {:induction false} Untag(tag: uint8, body: seq<uint8>, rest: seq<uint8>, s: seq<uint8>)
    requires s == [tag] + body + rest
    ensures s[0] == tag && s[1..] == body + rest
  {
  }

  // All operations

  /** How many operations lie wholly within the first `k` bytes. */
  function Whole(ops: seq<Op>, k: nat): (n: nat)
    ensures n <= |ops|
  {
    if ops == [] || k < |OpBytes(ops[0])| then 0 else 1 + Whole(ops[1..], k - |OpBytes(ops[0])|)
  }

  lemma {:induction false} SplitCut(first: seq<uint8>, others: seq<uint8>, s: seq<uint8>) returns (tail: seq<uint8>)
    requires |s| <= |first + others| && s == (first + others)[..|s|]
    ensures |s| < |first| ==> s == first[..|s|]
    ensures |s| >= |first| ==> s == first + tail && |tail| == |s| - |first| <= |others| && tail == others[..|tail|]
  {
    tail := if |s| < |first| then [] else s[|first|..];
  }

  /** These are the longest list of operations that lies within the first `k` bytes. */
  lemma {:induction false} WholeIsLongest(ops: seq<Op>, k: nat, n: nat)
    requires n <= |ops|
    ensures n <= Whole(ops, k) <==> |OpsBytes(ops[..n])| <= k
    decreases n
  {
    if n > 0 {
      BehindFirst(ops, n);
      if |OpBytes(ops[0])| <= k {
        WholeIsLongest(ops[1..], k - |OpBytes(ops[0])|, n - 1);
      }
    }
  }

  /** How an iteration ends behind the first `k` bytes: well only between two operations. */
  function CutStatus(ops: seq<Op>, k: nat): Status {
    if ops == [] || k == 0 then Ok
    else if k < |OpBytes(ops[0])| then if ops[0].Put? then BadPut else BadDelete
    else CutStatus(ops[1..], k - |OpBytes(ops[0])|)
  }

  lemma {:induction false} CutWhere(ops: seq<Op>, k: nat, n: nat)
    requires n == Whole(ops, k) && k <= |OpsBytes(ops)|
    ensures CutStatus(ops, k) == if k == |OpsBytes(ops[..n])| then Ok
                                 else if n < |ops| && ops[n].Put? then BadPut else BadDelete
    decreases n
  {
    if n > 0 {
      BehindFirst(ops, n);
      CutWhere(ops[1..], k - |OpBytes(ops[0])|, n - 1);
    }
  }

  /** A cut-off batch replays the operations before the cut; a cut inside one is noticed there. */
  lemma {:induction false} OpsCut(ops: seq<Op>, s: seq<uint8>) returns (status: Status)
    requires AllOpsFit(ops) && |s| <= |OpsBytes(ops)| && s == OpsBytes(ops)[..|s|]
    ensures ReplayOps(s) == Replayed(ops[..Whole(ops, |s|)], status) && status == CutStatus(ops, |s|)
    ensures |s| == |OpsBytes(ops)| ==> status == Ok && Whole(ops, |s|) == |ops|
    ensures |s| < |OpsBytes(ops)| ==> Whole(ops, |s|) < |ops|
  {
    if ops == [] {
      status := Ok;
    } else {
      var tail := SplitCut(OpBytes(ops[0]), OpsBytes(ops[1..]), s);
      if |s| >= |OpBytes(ops[0])| {
        status := OpsCut(ops[1..], tail);
        OpReadBack(ops[0], tail);
        var n := Whole(ops[1..], |tail|);
        PrefixOf(ops, n);
        ReplayCons(s, ops[0], tail, ops[1..][..n], ops[..n + 1], status);
      } else if s == [] {
        status := Ok;
      } else {
        OpTruncated(ops[0], s);
        status := NextOp(s).status;
      }
    }
  }

  lemma {:induction false} ReplayCons(s: seq<uint8>, op: Op, rest: seq<uint8>, later: seq<Op>, ops: seq<Op>,
                                      status: Status)
    requires s != [] && NextOp(s) == Record(op, rest)
    requires ReplayOps(rest) == Replayed(later, status) && ops == [op] + later
    ensures ReplayOps(s) == Replayed(ops, status)
  {
  }

  lemma {:induction false} OpsWhole(ops: seq<Op>)
    requires AllOpsFit(ops)
    ensures ReplayOps(OpsBytes(ops)) == Replayed(ops, Ok)
  {
    assert OpsBytes(ops)[..|OpsBytes(ops)|] == OpsBytes(ops) && ops[..|ops|] == ops;
    var status := OpsCut(ops, OpsBytes(ops));
  }

  /** What an iteration does with an operation that fits: it goes on behind it. */
  lemma {:induction false} FirstBack(op: Op, rest: seq<uint8>, s: seq<uint8>) returns (r: Replayed)
    requires op.Fits() && s == OpBytes(op) + rest
    ensures r == ReplayOps(rest) && ReplayOps(s) == Replayed([op] + r.ops, r.status)
  {
    OpReadBack(op, rest);
    r := ReplayOps(rest);
  }

  lemma {:induction false} FirstMisread(op: Op, rest: seq<uint8>, s: seq<uint8>)
    requires !op.Fits() && s == OpBytes(op) + rest
    ensures ReplayOps(s).ops == [] || ReplayOps(s).ops[0] != op
  {
    OpReadBack(op, rest);
  }

  /** Operations of which one does not fit are not handed over as they are. */
  lemma {:induction false} OpsMisread(ops: seq<Op>) returns (r: Replayed)
    requires !AllOpsFit(ops)
    ensures r == ReplayOps(OpsBytes(ops)) && r.ops != ops
  {
    var first, others := ops[0], ops[1..];
    r := ReplayOps(OpsBytes(ops));
    if first.Fits() {
      var later := OpsMisread(others);
      var again := FirstBack(first, OpsBytes(others), OpsBytes(ops));
      Differ(ops, first, later.ops);
    } else {
      FirstMisread(first, OpsBytes(others), OpsBytes(ops));
    }
  }

  lemma {:induction false} Differ<T>(s: seq<T>, first: T, later: seq<T>)
    requires s != [] && s[1..] != later
    ensures [first] + later != s
  {
    assert ([first] + later)[1..] == later;
  }

  // In numbers

  /** A stored operation begins with 1 if it is a `Put`, and with 0 if it is a `Delete`; nothing else is one. */
  lemma {:induction false} Tags(op: Op, s: seq<uint8>)
    ensures OpBytes(op)[0] == if op.Put? then 1 else 0
    ensures s != [] && NextOp(s).Record? ==> s[0] == if NextOp(s).op.Put? then 1 else 0
    ensures s != [] && s[0] > 1 ==> NextOp(s) == Bad(UnknownTag)
  {
  }

  /** What the bytes are if keys and values are short. */
  lemma {:induction false} ShortOps(key: seq<uint8>, value: seq<uint8>)
    requires |key| < 128 && |value| < 128
    ensures OpBytes(Put(key, value)) == [1, |key|] + key + [|value|] + value
    ensures OpBytes(Delete(key)) == [0, |key|] + key
  {
    ShortSlice(key);
    ShortSlice(value);
  }

  lemma {:induction false} ShortSlice(v: seq<uint8>)
    requires |v| < 128
    ensures PutSlice(v) == [|v|] + v
  {
  }

  /** The sequence number in eight bytes, the number of operations in four, and the operations. */
  lemma {:induction false} RepInNumbers(sequence: uint64, ops: seq<Op>)
    ensures var rep := Rep(sequence, ops);
            && FixedVal(rep[..8]) == sequence && FixedVal(rep[8..12]) == |ops| % 0x1_0000_0000
            && rep[12..] == OpsBytes(ops)
  {
    var n := |ops| % SIZE_LIMIT;
    PowLiterals();
    FixedInverts(sequence, 8);
    FixedInverts(n, 4);
    var rep := Header(sequence, n) + OpsBytes(ops);
    assert rep[..8] == Fixed(sequence, 8) && rep[8..12] == Fixed(n, 4) && rep[12..] == OpsBytes(ops);
  }

  // A whole batch

  /** A batch whose header counts `n` operations is accepted exactly if it has just as many. */
  lemma {:induction false} CountDecides(sequence: uint64, n: uint32, ops: seq<Op>)
    requires AllOpsFit(ops)
    ensures Replay(Header(sequence, n) + OpsBytes(ops))
         == Replayed(ops, if n == |ops| && n < 0x8000_0000 then Ok else WrongCount)
  {
    OpsWhole(ops);
    ReplayGiven(sequence, n, OpsBytes(ops), Replayed(ops, Ok));
  }

  lemma {:induction false} HeaderBack(sequence: uint64, n: uint32, rest: seq<uint8>)
    ensures var rep := Header(sequence, n) + rest;
            Sequence(rep) == sequence && Count(rep) == Signed(n) && rep[HEADER_SIZE..] == rest
  {
    var rep := Header(sequence, n) + rest;
    PowLiterals();
    FixedInverts(sequence, 8);
    FixedInverts(n, 4);
    assert rep[..8] == Fixed(sequence, 8);
    assert rep[8..HEADER_SIZE] == Fixed(n, 4);
  }

  /** What iterating over the batch of these operations hands over, under any sequence number. */
  function HandedOver(ops: seq<Op>): Replayed {
    CheckCount(ReplayOps(OpsBytes(ops)), Signed(|ops| % SIZE_LIMIT))
  }

  /** These are the operations exactly if they fit, and then all is well exactly if a signed word counts them. */
  lemma {:induction false} HandedOverWhole(ops: seq<Op>)
    ensures HandedOver(ops).ops == ops <==> AllOpsFit(ops)
    ensures HandedOver(ops) == Replayed(ops, Ok) <==> AllOpsFit(ops) && |ops| < 0x8000_0000
  {
    if AllOpsFit(ops) {
      OpsWhole(ops);
    } else {
      var r := OpsMisread(ops);
    }
    SignedCount(|ops|);
  }

  /**
   Iterating over a batch hands over its operations exactly if every key and value fits, and also
   ends well exactly if their number fits a signed word besides.
   */
  lemma {:induction false} ReplayBack(sequence: uint64, ops: seq<Op>)
    ensures Replay(Rep(sequence, ops)) == HandedOver(ops)
    ensures Replay(Rep(sequence, ops)).ops == ops <==> AllOpsFit(ops)
    ensures Replay(Rep(sequence, ops)) == Replayed(ops, Ok) <==> AllOpsFit(ops) && |ops| < 0x8000_0000
    ensures Sequence(Rep(sequence, ops)) == sequence && Count(Rep(sequence, ops)) == Signed(|ops| % SIZE_LIMIT)
  {
    HandedOverWhole(ops);
    ReplayGiven(sequence, |ops| % SIZE_LIMIT, OpsBytes(ops), ReplayOps(OpsBytes(ops)));
  }

  /** The first record cannot be read: what follows the front of a long key is taken for a value, but is none. */
  predicate FirstUnreadable(ops: seq<Op>)
    requires ops != []
  {
    && ops[0].Put? && |ops[0].key| >= SIZE_LIMIT
    && !ReadSlice(ops[0].key[|ops[0].key| % SIZE_LIMIT..] + PutSlice(ops[0].value) + OpsBytes(ops[1..])).Slice?
  }

  lemma {:induction false} FirstBad(op: Op, rest: seq<uint8>)
    ensures NextOp(OpBytes(op) + rest).Bad?
       <==> op.Put? && |op.key| >= SIZE_LIMIT
            && !ReadSlice(op.key[|op.key| % SIZE_LIMIT..] + PutSlice(op.value) + rest).Slice?
  {
    var s := OpBytes(op) + rest;
    match op {
      case Put(key, value) =>
        Untag(VALUE, PutSlice(key) + PutSlice(value), rest, s);
        Regroup(PutSlice(key), PutSlice(value), rest);
        var more := PutBad(key, PutSlice(value) + rest, s[1..]);
        if |key| < SIZE_LIMIT {
          var v, end := FieldBack(value, rest, more);
        } else {
          Regroup(key[|key| % SIZE_LIMIT..], PutSlice(value), rest);
        }
      case Delete(key) =>
        Untag(DELETION, PutSlice(key), rest, s);
        var k, end := FieldBack(key, rest, s[1..]);
    }
  }

  lemma {:induction false} PutBad(key: seq<uint8>, behind: seq<uint8>, s: seq<uint8>) returns (more: seq<uint8>)
    requires s == PutSlice(key) + behind
    ensures more == if |key| < SIZE_LIMIT then behind else key[|key| % SIZE_LIMIT..] + behind
    ensures NextPut(s).Bad? <==> !ReadSlice(more).Slice?
  {
    SliceReadBack(key, behind);
    more := key[|key| % SIZE_LIMIT..] + behind;
    if |key| < SIZE_LIMIT {
      Units(behind);
    }
  }

  /**
   A batch is handed over as a whole or not at all exactly if all of it fits, or if its first record
   already cannot be read.
   */
  lemma {:induction false} AllOrNothing(sequence: uint64, ops: seq<Op>)
    requires ops != []
    ensures var handed := Replay(Rep(sequence, ops)).ops;
            handed == [] || handed == ops <==> AllOpsFit(ops) || FirstUnreadable(ops)
  {
    ReplayBack(sequence, ops);
    FirstBad(ops[0], OpsBytes(ops[1..]));
    assert HandedOver(ops).ops == ReplayOps(OpsBytes(ops)).ops;
  }

  lemma {:induction false} ReplayGiven(sequence: uint64, n: uint32, rest: seq<uint8>, r: Replayed)
    requires ReplayOps(rest) == r
    ensures Replay(Header(sequence, n) + rest) == CheckCount(r, Signed(n))
    ensures Sequence(Header(sequence, n) + rest) == sequence && Count(Header(sequence, n) + rest) == Signed(n)
  {
    HeaderBack(sequence, n, rest);
  }

  lemma {:induction false} SignedCount(n: nat)
    ensures Signed(n % SIZE_LIMIT) == n <==> n < 0x8000_0000
  {
  }

  /**
   A batch that lost any part of its end never passes for a whole one: the iteration ends with an error
   that says what is missing. Yet it may have handed over the operations before the cut by then.
   */
  lemma {:induction false} TruncationNoticed(sequence: uint64, ops: seq<Op>, k: nat)
    requires AllOpsFit(ops) && |ops| < 0x8000_0000 && k < |Rep(sequence, ops)|
    ensures k < 12 ==> Replay(Rep(sequence, ops)[..k]) == Replayed([], TooSmall)
    ensures k >= 12 ==>
              var n := Whole(ops, k - 12);
              Replay(Rep(sequence, ops)[..k])
              == Replayed(ops[..n], if k - 12 == |OpsBytes(ops[..n])| then WrongCount
                                    else if n < |ops| && ops[n].Put? then BadPut else BadDelete)
  {
    if k >= HEADER_SIZE {
      var part := RepCut(sequence, ops, k);
      var status := OpsCut(ops, part);
      CutWhere(ops, k - HEADER_SIZE, Whole(ops, k - HEADER_SIZE));
      ReplayGiven(sequence, |ops|, part, Replayed(ops[..Whole(ops, k - HEADER_SIZE)], status));
    }
  }

  /** All or nothing of a cut-off batch is handed over exactly if the cut is in the first operation, or not there. */
  lemma {:induction false} CutAllOrNothing(sequence: uint64, ops: seq<Op>, k: nat)
    requires AllOpsFit(ops) && 0 < |ops| < 0x8000_0000 && k <= |Rep(sequence, ops)|
    ensures var handed := Replay(Rep(sequence, ops)[..k]).ops;
            handed == [] || handed == ops
            <==> k < HEADER_SIZE + |OpBytes(ops[0])| || k == |Rep(sequence, ops)|
  {
    if k == |Rep(sequence, ops)| {
      assert Rep(sequence, ops)[..k] == Rep(sequence, ops);
      ReplayBack(sequence, ops);
    } else {
      TruncationNoticed(sequence, ops, k);
      if k >= HEADER_SIZE {
        var part := RepCut(sequence, ops, k);
        var status := OpsCut(ops, part);
      }
    }
  }

  lemma {:induction false} RepCut(sequence: uint64, ops: seq<Op>, k: nat) returns (part: seq<uint8>)
    requires |ops| < SIZE_LIMIT && HEADER_SIZE <= k < |Rep(sequence, ops)|
    ensures |part| == k - HEADER_SIZE < |OpsBytes(ops)| && part == OpsBytes(ops)[..|part|]
    ensures Rep(sequence, ops)[..k] == Header(sequence, |ops|) + part
  {
    assert |ops| % SIZE_LIMIT == |ops|;
    part := CutBehind(Header(sequence, |ops| % SIZE_LIMIT), OpsBytes(ops), k);
  }

  lemma {:induction false} CutBehind(head: seq<uint8>, tail: seq<uint8>, k: nat) returns (part: seq<uint8>)
    requires |head| <= k <= |head + tail|
    ensures (head + tail)[..k] == head + part && |part| == k - |head| <= |tail| && part == tail[..|part|]
  {
    part := tail[..k - |head|];
  }

  // A batch that is not entered as a whole

  lemma {:induction false} OpsThenMore(ops: seq<Op>, tail: seq<uint8>, s: seq<uint8>) returns (r: Replayed)
    requires AllOpsFit(ops) && s == OpsBytes(ops) + tail
    ensures r == ReplayOps(tail) && ReplayOps(s) == Replayed(ops + r.ops, r.status)
  {
    if ops == [] {
      r := ReplayOps(tail);
      assert s == tail && ops + r.ops == r.ops;
    } else {
      var first, others := FirstBytes(ops, tail, s);
      r := OpsThenMore(ops[1..], tail, others);
      var later := FirstBack(first, others, s);
      ConsAppend(ops, r.ops);
    }
  }

  lemma {:induction false} FirstBytes(ops: seq<Op>, tail: seq<uint8>, s: seq<uint8>)
    returns (first: Op, others: seq<uint8>)
    requires ops != [] && s == OpsBytes(ops) + tail
    ensures first == ops[0] && others == OpsBytes(ops[1..]) + tail && s == OpBytes(first) + others
  {
    first, others := ops[0], OpsBytes(ops[1..]) + tail;
    Regroup(OpBytes(first), OpsBytes(ops[1..]), tail);
  }

  /** A key of 2^32 bytes is written behind the length 0, and its own bytes are then read as a record. */
  lemma {:induction false} LongKeyMisread(key: seq<uint8>, s: seq<uint8>)
    requires |key| == SIZE_LIMIT && key[0] != VALUE && key[0] != DELETION && s == OpBytes(Delete(key))
    ensures ReplayOps(s) == Replayed([Delete([])], UnknownTag)
  {
    assert s[1..] == PutSlice(key) + [];
    SliceReadBack(key, []);
    assert key[..0] == [] && key[0..] + [] == key;
    assert NextOp(s) == Record(Delete([]), key);
    assert ReplayOps(key) == Replayed([], UnknownTag);
    ReplayCons(s, Delete([]), key, [], [Delete([])], UnknownTag);
  }

  /**
   So a batch need not be entered as a whole: behind any operations that fit, such a deletion ends the
   iteration with an error, after all of them and a deletion of another key have been handed over.
   */
  lemma {:induction false} PartlyEntered(sequence: uint64, ops: seq<Op>, key: seq<uint8>)
    requires AllOpsFit(ops) && |key| == SIZE_LIMIT && key[0] != VALUE && key[0] != DELETION
    ensures Replay(Rep(sequence, ops + [Delete(key)])) == Replayed(ops + [Delete([])], UnknownTag)
  {
    var all, last := ops + [Delete(key)], OpBytes(Delete(key));
    OpsConcat(ops, [Delete(key)]);
    assert OpsBytes([Delete(key)]) == last by {
      assert last + OpsBytes([]) == last;
    }
    LongKeyMisread(key, last);
    var r := OpsThenMore(ops, last, OpsBytes(all));
    ReplayGiven(sequence, |all| % SIZE_LIMIT, OpsBytes(all), Replayed(ops + [Delete([])], UnknownTag));
  }

  /** What adding the bytes of `n` operations makes of a batch. */
  function Extended(rep: seq<uint8>, n: int, bytes: seq<uint8>): seq<uint8>
    requires |rep| >= HEADER_SIZE
  {
    rep[..8] + Fixed((Count(rep) + n) % SIZE_LIMIT, 4) + (rep[HEADER_SIZE..] + bytes)
  }

  lemma {:induction false} OpsConcat(a: seq<Op>, b: seq<Op>)
    ensures OpsBytes(a + b) == OpsBytes(a) + OpsBytes(b)
  {
    if a == [] {
      assert a + b == b;
    } else {
      assert (a + b)[1..] == a[1..] + b;
      OpsConcat(a[1..], b);
    }
  }

  /** Adding to a batch and appending another one is concatenating the lists of operations. */
  lemma {:induction false} ExtendedIsConcat(sequence: uint64, a: seq<Op>, b: seq<Op>, n: int)
    requires n % SIZE_LIMIT == |b| % SIZE_LIMIT
    ensures Extended(Rep(sequence, a), n, OpsBytes(b)) == Rep(sequence, a + b)
  {
    OpsConcat(a, b);
    SameCount(|a|, |b|, n);
    ExtendedHeader(sequence, |a| % SIZE_LIMIT, OpsBytes(a), n, |a + b| % SIZE_LIMIT, OpsBytes(b), OpsBytes(a + b));
  }

  lemma {:induction false} ExtendedHeader(sequence: uint64, before: uint32, rest: seq<uint8>, n: int, after: uint32,
                                          bytes: seq<uint8>, all: seq<uint8>)
    requires after == (Signed(before) + n) % SIZE_LIMIT && all == rest + bytes
    ensures Extended(Header(sequence, before) + rest, n, bytes) == Header(sequence, after) + all
  {
    var rep := Header(sequence, before) + rest;
    HeaderBack(sequence, before, rest);
    assert rep[..8] == Fixed(sequence, 8);
  }

  lemma {:induction false} SameCount(a: nat, b: nat, n: int)
    requires n % SIZE_LIMIT == b % SIZE_LIMIT
    ensures (Signed(a % SIZE_LIMIT) + n) % SIZE_LIMIT == (a + b) % SIZE_LIMIT
  {
    SignedMod(a);
    SumsMod(Signed(a % SIZE_LIMIT), a, n, b);
  }

  lemma {:induction false} SignedMod(a: nat)
    ensures Signed(a % SIZE_LIMIT) % SIZE_LIMIT == a % SIZE_LIMIT
  {
  }

  lemma {:induction false} SumsMod(a: int, b: int, c: int, d: int)
    requires a % SIZE_LIMIT == b % SIZE_LIMIT && c % SIZE_LIMIT == d % SIZE_LIMIT
    ensures (a + c) % SIZE_LIMIT == (b + d) % SIZE_LIMIT
  {
  }
}
