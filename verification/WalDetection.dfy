/**
 Which damage the reader detects. With checksums verified it returns a fragment exactly if the file
 holds what a writer of that fragment leaves; a checksum that keeps its states apart, as CRC-32C does,
 betrays every single byte that is changed; and then just the records are lost that are in that block.
 */
module WalDetection {
  import opened Words
  import opened Leb128
  import opened FixedCoding
  import opened WalFormat
  import opened WalReuse
  import opened WalDamage
  import WalReading

  // One fragment

  /** Where the buffer ends that holds offset `s`. */
  function BlockEnd(file: seq<uint8>, s: nat): nat {
    Min(s - s % 32768 + 32768, |file|)
  }

  lemma {:induction false} BlockEnds(file: seq<uint8>, s: nat)
    ensures BlockEnd(file, s) % 32768 == 0 || BlockEnd(file, s) == |file|
  {
    assert (s - s % 32768) % 32768 == 0;
  }

  lemma {:induction false} InBlock(file: seq<uint8>, s: nat, n: nat)
    requires s % 32768 + n <= 32768 && s + n <= |file|
    ensures s + n <= BlockEnd(file, s) <= |file|
  {
  }

  /** What the reader makes of seven bytes or more of a block, from offset `s` on. */
  lemma {:induction false} HeaderRead(step: ByteStep, verify: bool, file: seq<uint8>, s: nat)
    returns (f: Fragment, e: nat, length: nat, t: uint8)
    requires s % 32768 <= 32761 && s + 7 <= |file|
    ensures f == NextFragment(step, verify, file, s) && e == BlockEnd(file, s) && s + 7 <= e <= |file|
    ensures length == file[s + 4] as int + 256 * file[s + 5] as int && t == file[s + 6]
    ensures s + 7 + length > e ==>
              f == if e == s - s % 32768 + 32768 then Fragment(6, [], e, Some(e - s))
                   else Fragment(5, [], e, None)
    ensures s + 7 + length <= e && t == 0 && length == 0 ==> f == Fragment(6, [], e, None)
    ensures s + 7 + length <= e && (t != 0 || length != 0) ==>
              f == if verify && FixedVal(file[s..s + 4]) != Extend(step, step(0, t), file[s + 7..s + 7 + length])
                   then Fragment(6, [], e, Some(e - s))
                   else Fragment(t as int, file[s + 7..s + 7 + length], s + 7 + length, None)
  {
    f, e := NextFragment(step, verify, file, s), BlockEnd(file, s);
    length, t := file[s + 4] as int + 256 * file[s + 5] as int, file[s + 6];
    var buffer := file[s..e];
    InBuffer(file, s, e, length, t);
    assert f == (var g := FirstInBuffer(step, verify, buffer, e < s - s % 32768 + 32768);
                 Fragment(g.kind, g.data, s + g.next, g.damage));
  }

  lemma {:induction false} InBuffer(file: seq<uint8>, s: nat, e: nat, length: nat, t: uint8)
    requires s + 7 <= e <= |file| && t == file[s + 6]
    ensures var buffer := file[s..e];
            && buffer[..4] == file[s..s + 4] && buffer[4] == file[s + 4] && buffer[5] == file[s + 5] && buffer[6] == t
            && (s + 7 + length <= e ==>
                  && buffer[7..7 + length] == file[s + 7..s + 7 + length]
                  && buffer[6..7 + length] == [t] + file[s + 7..s + 7 + length])
  {
    if s + 7 + length <= e {
      SliceOfSlice(file, s, e, 7, 7 + length);
      SliceOfSlice(file, s, e, 6, 7 + length);
      assert file[s + 6..s + 7 + length] == [t] + file[s + 7..s + 7 + length];
    }
  }

  lemma {:induction false} SliceOfSlice<T>(s: seq<T>, a: nat, b: nat, i: nat, j: nat)
    requires i <= j && a + j <= b <= |s|
    ensures s[a..b][i..j] == s[a + i..a + j]
  {
    var here := s[a..b];
    forall k: nat | k < j - i
      ensures here[i..j][k] == s[a + i..a + j][k]
    {
      assert here[i..j][k] == here[i + k];
      assert here[i + k] == s[a + (i + k)];
    }
  }

  /**
   With checksums verified, a fragment of a type that a writer writes is returned exactly where the
   file holds what the writer leaves for it.
   */
  lemma {:induction false} ReadExactlyIfWritten(step: ByteStep, file: seq<uint8>, s: nat, t: uint8, data: seq<uint8>)
    requires s % 32768 <= 32761 && s + 7 <= |file| && 1 <= t <= 4
    ensures NextFragment(step, true, file, s) == Fragment(t as int, data, s + 7 + |data|, None)
       <==> s % 32768 + 7 + |data| <= 32768 && Holds(file, s, Physical(step, t, data))
  {
    if s % 32768 + 7 + |data| <= 32768 && Holds(file, s, Physical(step, t, data)) {
      FragmentReadBack(step, true, file, s, t, data);
    } else {
      var f, e, length, u := HeaderRead(step, true, file, s);
      if f == Fragment(t as int, data, s + 7 + |data|, None) {
        Written(step, file, s, t, data);
        assert false;
      }
    }
  }

  lemma {:induction false} Written(step: ByteStep, file: seq<uint8>, s: nat, t: uint8, data: seq<uint8>)
    requires s + 7 + |data| <= |file| && |data| < BLOCK
    requires |data| == file[s + 4] as int + 256 * file[s + 5] as int && t == file[s + 6]
    requires data == file[s + 7..s + 7 + |data|]
    requires FixedVal(file[s..s + 4]) == Extend(step, step(0, t), data)
    ensures Holds(file, s, Physical(step, t, data))
  {
    var p := Physical(step, t, data);
    FixedInverse(file[s..s + 4]);
    assert ([t] + data)[1..] == data;
    assert Checksum(step, [t] + data) == Extend(step, step(0, t), data);
    assert p[..4] == file[s..s + 4];
    assert p[4] == file[s + 4] && p[5] == file[s + 5] && p[6] == t && p[7..] == data;
    forall i: nat | i < |p|
      ensures p[i] == file[s..s + |p|][i]
    {
      if i < 4 {
        assert p[i] == p[..4][i];
      } else if 7 <= i {
        assert p[i] == p[7..][i - 7];
      }
    }
  }

  // A byte that is changed

  /** The checksum tells its states apart, and in each state the bytes. */
  ghost predicate TellsApart(step: ByteStep) {
    && (forall c: uint32, d: uint32, b: uint8 :: c != d ==> step(c, b) != step(d, b))
    && (forall c: uint32, a: uint8, b: uint8 :: a != b ==> step(c, a) != step(c, b))
  }

  /** The sum of the bytes is such a checksum. */
  function Sum(c: uint32, b: uint8): uint32 {
    (c + b) % 0x1_0000_0000
  }

  lemma {:induction false} SumTellsApart()
    ensures TellsApart(Sum)
  {
    forall c: uint32, d: uint32, b: uint8 | c != d
      ensures Sum(c, b) != Sum(d, b)
    {
      SumsApart(c, d, b);
    }
    forall c: uint32, a: uint8, b: uint8 | a != b
      ensures Sum(c, a) != Sum(c, b)
    {
      SumsApart(a, b, c);
    }
  }

  lemma {:induction false} SumsApart(c: uint32, d: uint32, b: uint32)
    requires c != d
    ensures (c + b) % 0x1_0000_0000 != (d + b) % 0x1_0000_0000
  {
    Wrapped(c + b);
    Wrapped(d + b);
  }

  lemma {:induction false} Wrapped(a: nat)
    requires a < 0x2_0000_0000
    ensures a % 0x1_0000_0000 == if a < 0x1_0000_0000 then a else a - 0x1_0000_0000
  {
  }

  lemma {:induction false} StatesStayApart(step: ByteStep, c: uint32, d: uint32, bs: seq<uint8>)
    requires TellsApart(step) && c != d
    ensures Extend(step, c, bs) != Extend(step, d, bs)
    decreases |bs|
  {
    if bs != [] {
      StatesStayApart(step, step(c, bs[0]), step(d, bs[0]), bs[1..]);
    }
  }

  /** No byte can be changed without changing the checksum. */
  lemma {:induction false} EveryByteMatters(step: ByteStep, c: uint32, bs: seq<uint8>, i: nat, x: uint8)
    requires TellsApart(step) && i < |bs| && x != bs[i]
    ensures Extend(step, c, bs[i := x]) != Extend(step, c, bs)
    decreases |bs|
  {
    if i == 0 {
      assert bs[0 := x][1..] == bs[1..];
      StatesStayApart(step, step(c, x), step(c, bs[0]), bs[1..]);
    } else {
      assert bs[i := x][1..] == bs[1..][i - 1 := x];
      EveryByteMatters(step, step(c, bs[0]), bs[1..], i - 1, x);
    }
  }

  /**
   One byte of the checksum, the type or the contents of a fragment is changed: the reader gives up the
   block from there on, and reports as much. It is silent only where a lone header becomes zero.
   */
  lemma {:induction false} ByteDetected(step: ByteStep, was: seq<uint8>, s: nat, t: uint8, data: seq<uint8>, i: nat,
                                        x: uint8)
    returns (e: nat)
    requires TellsApart(step) && s % 32768 + 7 + |data| <= 32768 && 1 <= t <= 4
    requires Holds(was, s, Physical(step, t, data))
    requires s <= i < s + 7 + |data| && i != s + 4 && i != s + 5 && x != was[i]
    ensures e == BlockEnd(was, s)
    ensures NextFragment(step, true, was[i := x], s)
         == Fragment(6, [], e, if i == s + 6 && x == 0 && data == [] then None else Some(e - s))
  {
    e := BlockEnd(was, s);
    InBlock(was, s, 7 + |data|);
    Stored(step, was, s, t, data);
    Mismatch(step, was, was[i := x], s, t, data, i, x);
    ChecksumFails(step, was[i := x], s, |data|, e);
  }

  lemma {:induction false} ChecksumFails(step: ByteStep, file: seq<uint8>, s: nat, length: nat, e: nat)
    requires s % 32768 <= 32761 && s + 7 + length <= e == BlockEnd(file, s) <= |file|
    requires length == file[s + 4] as int + 256 * file[s + 5] as int
    requires FixedVal(file[s..s + 4]) != Extend(step, step(0, file[s + 6]), file[s + 7..s + 7 + length])
    ensures NextFragment(step, true, file, s)
         == Fragment(6, [], e, if file[s + 6] == 0 && length == 0 then None else Some(e - s))
  {
    var f, end, l, u := HeaderRead(step, true, file, s);
  }

  lemma {:induction false} Mismatch(step: ByteStep, was: seq<uint8>, file: seq<uint8>, s: nat, t: uint8,
                                    data: seq<uint8>, i: nat, x: uint8)
    requires TellsApart(step) && s <= i < s + 7 + |data| <= |was| && i != s + 4 && i != s + 5
    requires file == was[i := x] && x != was[i]
    requires FixedVal(was[s..s + 4]) == Extend(step, step(0, t), data)
    requires t == was[s + 6] && data == was[s + 7..s + 7 + |data|]
    ensures FixedVal(file[s..s + 4]) != Extend(step, step(0, file[s + 6]), file[s + 7..s + 7 + |data|])
  {
    var after := file[s + 7..s + 7 + |data|];
    if i < s + 4 {
      assert after == data;
      CrcChanged(was, file, s, i, x);
    } else {
      assert file[s..s + 4] == was[s..s + 4];
      if i == s + 6 {
        assert after == data;
        StatesStayApart(step, step(0, x), step(0, t), data);
      } else {
        assert after == data[i - s - 7 := x];
        EveryByteMatters(step, step(0, t), data, i - s - 7, x);
      }
    }
  }

  lemma {:induction false} Stored(step: ByteStep, file: seq<uint8>, s: nat, t: uint8, data: seq<uint8>)
    requires |data| < BLOCK && Holds(file, s, Physical(step, t, data))
    ensures FixedVal(file[s..s + 4]) == Extend(step, step(0, t), data)
    ensures |data| == file[s + 4] as int + 256 * file[s + 5] as int && file[s + 6] == t
    ensures file[s + 7..s + 7 + |data|] == data
  {
    var p := file[s..s + 7 + |data|];
    InNumbers(step, t, data, p);
    SliceOfSlice(file, s, s + 7 + |data|, 0, 4);
    SliceOfSlice(file, s, s + 7 + |data|, 7, 7 + |data|);
    assert p[0..4] == p[..4] && p[7..7 + |data|] == p[7..];
  }

  lemma {:induction false} CrcChanged(was: seq<uint8>, file: seq<uint8>, s: nat, i: nat, x: uint8)
    requires s <= i < s + 4 <= |was| && file == was[i := x] && x != was[i]
    ensures FixedVal(file[s..s + 4]) != FixedVal(was[s..s + 4])
  {
    FixedInverse(file[s..s + 4]);
    FixedInverse(was[s..s + 4]);
    assert file[s..s + 4][i - s] != was[s..s + 4][i - s];
  }

  // A log with a damaged fragment

  /** The header of a fragment is at offset `s`: the first one in a block, or that of the `n`-th record. */
  predicate HeaderAt(step: ByteStep, records: seq<seq<uint8>>, s: nat, n: nat) {
    && n < |records| && n == Complete(step, 0, 0, records, s)
    && (s % 32768 == 0 || s == |WriteLog(step, 0, records[..n]).bytes|)
    && s + 7 <= |WriteLog(step, 0, records).bytes| && s % 32768 <= 32761
  }

  /** Byte `i` belongs to the fragment whose header is at offset `s`. */
  predicate Covers(bytes: seq<uint8>, s: nat, i: nat) {
    s + 7 <= |bytes| && s <= i < s + 7 + bytes[s + 4] as int + 256 * bytes[s + 5] as int
  }

  /** From `s` on up to `e` the file is damaged, and otherwise the log. */
  predicate DamagedFrom(file: seq<uint8>, bytes: seq<uint8>, s: nat, e: nat) {
    && s <= e == BlockEnd(file, s) && |file| == |bytes|
    && file[..s] == bytes[..s] && file[e..] == bytes[e..]
  }

  /** The record that is damaged: up to its damage the file is in order. */
  lemma {:induction false} UpToDamage(step: ByteStep, verify: bool, records: seq<seq<uint8>>, file: seq<uint8>,
                                      bytes: seq<uint8>, s: nat, e: nat, n: nat)
    returns (front: Written, o: nat, held: Partial)
    requires bytes == WriteLog(step, 0, records).bytes && HeaderAt(step, records, s, n)
    requires DamagedFrom(file, bytes, s, e)
    ensures front == WriteLog(step, 0, records[..n]) && o == |front.bytes| <= s && Holds(file, 0, front.bytes)
    ensures ReadRecord(step, verify, file, o, None) == ReadRecord(step, verify, file, s, held)
  {
    var first, later;
    front, first, later := Located(step, records, bytes, s, n);
    o := |front.bytes|;
    FrontHeld(file, bytes, front.bytes, first, later, s);
    held := HeldUpTo(step, verify, file, o, front.position, records[n], first, s);
  }

  lemma {:induction false} HeldUpTo(step: ByteStep, verify: bool, file: seq<uint8>, o: nat, b: nat, data: seq<uint8>,
                                    first: seq<uint8>, s: nat)
    returns (held: Partial)
    requires b <= BLOCK && Aligned(o, b) && first == Frames(step, b, data, true).bytes
    requires o <= s < o + |first| && (s % 32768 == 0 || s == o) && Holds(file, o, first[..s - o])
    ensures ReadRecord(step, verify, file, o, None) == ReadRecord(step, verify, file, s, held)
  {
    held := None;
    if s != o {
      var some, rest;
      held, some, rest := HeldAtBlock(step, verify, file, o, b, data, first, s - o);
    }
  }

  /** Offset `s` is in the `n`-th record. */
  lemma {:induction false} Located(step: ByteStep, records: seq<seq<uint8>>, bytes: seq<uint8>, s: nat, n: nat)
    returns (front: Written, first: seq<uint8>, later: seq<uint8>)
    requires bytes == WriteLog(step, 0, records).bytes && n == Complete(step, 0, 0, records, s) < |records|
    ensures front == WriteLog(step, 0, records[..n]) && first == Frames(step, front.position, records[n], true).bytes
    ensures bytes == front.bytes + first + later && |front.bytes| <= s < |front.bytes| + |first|
    ensures front.position <= BLOCK && Aligned(|front.bytes|, front.position)
  {
    front, first, later := RecordOfLog(step, records, bytes, n);
    CompleteIsLongest(step, 0, 0, records, s, n);
    CompleteIsLongest(step, 0, 0, records, s, n + 1);
    LogAligned(step, 0, 0, records[..n]);
  }

  /** A log is the log of its first records, the next record, and the others. */
  lemma {:induction false} RecordOfLog(step: ByteStep, records: seq<seq<uint8>>, bytes: seq<uint8>, n: nat)
    returns (front: Written, first: seq<uint8>, later: seq<uint8>)
    requires n < |records| && bytes == WriteLog(step, 0, records).bytes
    ensures front == WriteLog(step, 0, records[..n]) && first == Frames(step, front.position, records[n], true).bytes
    ensures bytes == front.bytes + first + later
    ensures WriteLog(step, 0, records[..n + 1]).bytes == front.bytes + first
  {
    front := WriteLog(step, 0, records[..n]);
    SplitAt(records, n);
    LogContinues(step, 0, records[..n], records[n..]);
    var w;
    w, later := FirstAndRest(step, 0, front.position, records[n..], 0);
    first := w.bytes;
    Regroup(front.bytes, first, later);
    TakeMore(records, n);
    LogContinues(step, 0, records[..n], [records[n]]);
    OneInLog(step, front.position, records[n]);
  }

  lemma {:induction false} OneInLog(step: ByteStep, b: nat, data: seq<uint8>)
    ensures WriteLog(step, b, [data]).bytes == Frames(step, b, data, true).bytes
  {
    assert [data][1..] == [];
    Units(Frames(step, b, data, true).bytes);
  }

  lemma {:induction false} FrontHeld(file: seq<uint8>, bytes: seq<uint8>, front: seq<uint8>, first: seq<uint8>,
                                     later: seq<uint8>, s: nat)
    requires bytes == front + first + later && |front| <= s <= |front| + |first| && s <= |file|
    requires file[..s] == bytes[..s]
    ensures Holds(file, 0, front) && Holds(file, |front|, first[..s - |front|])
  {
    assert file[0..|front|] == file[..s][..|front|] == front;
    assert file[|front|..s] == file[..s][|front|..] == first[..s - |front|];
  }

  /**
   If the reader rejects the damaged fragment, exactly the records are lost that have a part between
   that fragment and the end of its block: all others are returned, and nothing else is.
   */
  lemma {:induction false} FragmentDamaged(step: ByteStep, verify: bool, records: seq<seq<uint8>>, file: seq<uint8>,
                                           s: nat, e: nat, n: nat)
    requires HeaderAt(step, records, s, n) && DamagedFrom(file, WriteLog(step, 0, records).bytes, s, e)
    requires NextFragment(step, verify, file, s).kind == 6 && NextFragment(step, verify, file, s).next == e
    ensures ReadLog(step, verify, file, 0).records == records[..n] + records[Begun(step, 0, 0, records, e)..]
  {
    var bytes := WriteLog(step, 0, records).bytes;
    var front, o, held := UpToDamage(step, verify, records, file, bytes, s, e, n);
    LogThenMore(step, verify, file, 0, 0, records[..n], o);
    var behind := BehindRejected(step, verify, records, file, bytes, s, e, o, held);
    assert behind == records[Begun(step, 0, 0, records, e)..];
  }

  lemma {:induction false} BehindRejected(step: ByteStep, verify: bool, records: seq<seq<uint8>>, file: seq<uint8>,
                                          bytes: seq<uint8>, s: nat, e: nat, o: nat, held: Partial)
    returns (behind: seq<seq<uint8>>)
    requires LogSpells(step, 0, records, bytes) && DamagedFrom(file, bytes, s, e) && o <= s
    requires NextFragment(step, verify, file, s).kind == 6 && NextFragment(step, verify, file, s).next == e
    requires ReadRecord(step, verify, file, o, None) == ReadRecord(step, verify, file, s, held)
    ensures behind == ReadLog(step, verify, file, o).records && BeginBehind(step, 0, 0, records, e, behind)
  {
    behind := Rejected(step, verify, file, s, e, o, held);
    if e % 32768 == 0 {
      assert bytes[e - 0..] == bytes[e..] == file[e..|file|];
      var forged, rs := BehindDamage(step, verify, file, 0, 0, records, bytes, e, None, behind);
      Units(rs);
    } else {
      BlockEnds(file, s);
      NothingLeft(step, verify, file, e, None, behind);
      NoneBehind(step, 0, 0, records, bytes, e);
    }
  }

  /** A reader that comes to a bad record goes on behind it, and holds nothing any more. */
  lemma {:induction false} Rejected(step: ByteStep, verify: bool, file: seq<uint8>, s: nat, e: nat, o: nat,
                                    held: Partial)
    returns (behind: seq<seq<uint8>>)
    requires o <= s <= e <= |file| && NextFragment(step, verify, file, s).kind == 6
    requires NextFragment(step, verify, file, s).next == e
    requires ReadRecord(step, verify, file, o, None) == ReadRecord(step, verify, file, s, held)
    ensures behind == ReadLog(step, verify, file, o).records && Returns(step, verify, file, e, None, behind)
  {
    WalReading.BadRead(step, verify, file, s, held, NextFragment(step, verify, file, s));
    behind := Records(step, verify, file, e, None);
  }

  lemma {:induction false} NoneBehind(step: ByteStep, o: nat, b: nat, records: seq<seq<uint8>>, bytes: seq<uint8>,
                                      e: nat)
    requires b <= BLOCK && Aligned(o, b) && LogSpells(step, b, records, bytes) && o + |bytes| <= e
    ensures BeginBehind(step, o, b, records, e, [])
    decreases |records|
  {
    if records == [] {
      AllBehind(step, o, b, records, e);
    } else {
      var first, position, later := FirstOfLog(step, o, b, records, bytes);
      NoneBehind(step, o + |first|, position, records[1..], later, e);
    }
  }

  /** What is at a header of a log: the fragment the writer left there. */
  lemma {:induction false} FragmentAt(step: ByteStep, records: seq<seq<uint8>>, bytes: seq<uint8>, s: nat, n: nat)
    returns (t: uint8, data: seq<uint8>)
    requires bytes == WriteLog(step, 0, records).bytes && HeaderAt(step, records, s, n)
    ensures 1 <= t <= 4 && s % 32768 + 7 + |data| <= 32768 && Holds(bytes, s, Physical(step, t, data))
  {
    var front, first, later := Located(step, records, bytes, s, n);
    var o := |front.bytes|;
    BehindFront(front.bytes, first, later, s - o);
    FrontHeld(bytes, bytes, front.bytes, first, later, s);
    var b, content, begin := RestAt(step, bytes, o, front.position, records[n], first, s);
    t, data := FragmentInFront(step, b, content, begin, first[s - o..], bytes, s);
  }

  lemma {:induction false} RestAt(step: ByteStep, file: seq<uint8>, o: nat, b: nat, data: seq<uint8>,
                                  first: seq<uint8>, s: nat)
    returns (at: nat, content: seq<uint8>, begin: bool)
    requires b <= BLOCK && Aligned(o, b) && first == Frames(step, b, data, true).bytes
    requires o <= s < o + |first| && (s % 32768 == 0 || s == o) && Holds(file, o, first[..s - o])
    requires s % 32768 <= 32761
    ensures at == s % 32768 && first[s - o..] == Frames(step, at, content, begin).bytes
  {
    if s % 32768 == 0 {
      var held, some;
      held, some, content := HeldAtBlock(step, true, file, o, b, data, first, s - o);
      at, begin := 0, held.None?;
    } else {
      NotAtStart(s, b);
      at, content, begin := b, data, true;
      assert first[0..] == first;
    }
  }

  lemma {:induction false} NotAtStart(s: nat, b: nat)
    requires Aligned(s, b) && 0 != s % 32768 <= 32761
    ensures b == s % 32768 <= 32761
  {
  }

  lemma {:induction false} BehindFront(a: seq<uint8>, b: seq<uint8>, c: seq<uint8>, n: nat)
    requires n <= |b|
    ensures Holds(a + b + c, |a| + n, b[n..])
  {
  }

  lemma {:induction false} FragmentInFront(step: ByteStep, b: nat, content: seq<uint8>, begin: bool, here: seq<uint8>,
                                           bytes: seq<uint8>, s: nat)
    returns (t: uint8, data: seq<uint8>)
    requires b <= 32761 && here == Frames(step, b, content, begin).bytes && Holds(bytes, s, here) && s % 32768 == b
    ensures 1 <= t <= 4 && s % 32768 + 7 + |data| <= 32768 && Holds(bytes, s, Physical(step, t, data))
  {
    var some, rest, head, later := FirstFragment(step, b, content, begin, here);
    t, data := FragmentType(begin, rest == []), some;
    Units(Physical(step, t, data));
    HoldsParts(bytes, s, head, later);
  }

  /**
   A log in which one byte is changed, but not in a length and not in padding: the reader notices, and
   exactly the records are lost that have a part between the fragment's header and the end of its block.
   */
  lemma {:induction false} ByteDamaged(step: ByteStep, records: seq<seq<uint8>>, bytes: seq<uint8>, s: nat, n: nat,
                                       i: nat, x: uint8, file: seq<uint8>)
    returns (e: nat, f: Fragment)
    requires TellsApart(step) && bytes == WriteLog(step, 0, records).bytes && HeaderAt(step, records, s, n)
    requires Covers(bytes, s, i) && i != s + 4 && i != s + 5
    requires i < |bytes| && x != bytes[i] && file == bytes[i := x]
    ensures e == BlockEnd(bytes, s) && f == NextFragment(step, true, file, s) && DamagedFrom(file, bytes, s, e)
    ensures f == Fragment(6, [], e,
                          if i == s + 6 && x == 0 && bytes[s + 4] == bytes[s + 5] == 0 then None else Some(e - s))
    ensures ReadLog(step, true, file, 0).records == records[..n] + records[Begun(step, 0, 0, records, e)..]
  {
    var t, data := FragmentAt(step, records, bytes, s, n);
    Stored(step, bytes, s, t, data);
    e := ByteDetected(step, bytes, s, t, data, i, x);
    f := NextFragment(step, true, file, s);
    InBlock(bytes, s, 7 + |data|);
    FragmentDamaged(step, true, records, file, s, e, n);
  }

  /** The same where the reader takes the damage for the end of the file: nothing can begin behind it. */
  lemma {:induction false} EndFaked(step: ByteStep, verify: bool, records: seq<seq<uint8>>, file: seq<uint8>,
                                    s: nat, e: nat, n: nat)
    requires HeaderAt(step, records, s, n) && DamagedFrom(file, WriteLog(step, 0, records).bytes, s, e)
    requires NextFragment(step, verify, file, s) == Fragment(5, [], e, None) && e == |file|
    ensures ReadLog(step, verify, file, 0) == Log(records[..n], 0, 0)
    ensures records[Begun(step, 0, 0, records, e)..] == []
  {
    var bytes := WriteLog(step, 0, records).bytes;
    var front, o, held := UpToDamage(step, verify, records, file, bytes, s, e, n);
    LogThenMore(step, verify, file, 0, 0, records[..n], o);
    WalReading.EndRead(step, verify, file, s, held, NextFragment(step, verify, file, s));
    NoneBehind(step, 0, 0, records, bytes, e);
    assert ReadLog(step, verify, file, o) == Log([], 0, 0);
    NothingBehind(records[..n]);
  }

  /**
   If the two bytes of a length are changed the same records come back, unless the checksum, of other
   bytes now, is the one that is stored. But a length that is too long in a block the log does not fill
   passes for the end of the file, and is not reported.
   */
  lemma {:induction false} LengthDamaged(step: ByteStep, records: seq<seq<uint8>>, bytes: seq<uint8>, s: nat, n: nat,
                                         low: uint8, high: uint8, file: seq<uint8>, e: nat, length: nat)
    returns (f: Fragment)
    requires bytes == WriteLog(step, 0, records).bytes && HeaderAt(step, records, s, n) && e == BlockEnd(bytes, s)
    requires file == bytes[s + 4 := low][s + 5 := high] && length == low as int + 256 * high as int
    requires s + 7 + length > e ||
             FixedVal(file[s..s + 4]) != Extend(step, step(0, file[s + 6]), file[s + 7..s + 7 + length])
    ensures ReadLog(step, true, file, 0).records == records[..n] + records[Begun(step, 0, 0, records, e)..]
    ensures f == NextFragment(step, true, file, s)
    ensures if s + 7 + length > e && e < s - s % 32768 + 32768
            then f == Fragment(5, [], e, None) && ReadLog(step, true, file, 0).reports == 0
            else f == Fragment(6, [], e, Some(e - s))
  {
    var t, data := FragmentAt(step, records, bytes, s, n);
    f := LengthRead(step, bytes, file, s, t, data, e, length);
    OnlyLength(bytes, file, s, e, low, high);
    if f.kind == 6 {
      FragmentDamaged(step, true, records, file, s, e, n);
    } else {
      EndFaked(step, true, records, file, s, e, n);
      Units(records[..n]);
    }
  }

  lemma {:induction false} OnlyLength(bytes: seq<uint8>, file: seq<uint8>, s: nat, e: nat, low: uint8, high: uint8)
    requires s + 7 <= |bytes| && s % 32768 <= 32761 && e == BlockEnd(bytes, s)
    requires file == bytes[s + 4 := low][s + 5 := high]
    ensures DamagedFrom(file, bytes, s, e)
  {
  }

  lemma {:induction false} LengthRead(step: ByteStep, bytes: seq<uint8>, file: seq<uint8>, s: nat, t: uint8,
                                      data: seq<uint8>, e: nat, length: nat)
    returns (f: Fragment)
    requires s % 32768 <= 32761 && 1 <= t <= 4 && |data| < BLOCK && Holds(bytes, s, Physical(step, t, data))
    requires |file| == |bytes| && file[s + 6] == bytes[s + 6] && e == BlockEnd(bytes, s)
    requires length == file[s + 4] as int + 256 * file[s + 5] as int
    requires s + 7 + length > e ||
             FixedVal(file[s..s + 4]) != Extend(step, step(0, file[s + 6]), file[s + 7..s + 7 + length])
    ensures f == NextFragment(step, true, file, s) && (f.kind == 5 ==> e == |file|)
    ensures f == if s + 7 + length > e && e < s - s % 32768 + 32768 then Fragment(5, [], e, None)
                 else Fragment(6, [], e, Some(e - s))
  {
    var end, l, u;
    Stored(step, bytes, s, t, data);
    f, end, l, u := HeaderRead(step, true, file, s);
  }

  // Every byte of a log

  /** A byte of a log is in the padding in front of a record, or in a fragment. */
  lemma {:induction false} EveryByte(step: ByteStep, records: seq<seq<uint8>>, bytes: seq<uint8>, i: nat)
    returns (n: nat, front: Written, s: nat, padding: bool)
    requires bytes == WriteLog(step, 0, records).bytes && i < |bytes|
    ensures n == Complete(step, 0, 0, records, i) < |records| && front == WriteLog(step, 0, records[..n])
    ensures padding <==> |front.bytes| <= i < |front.bytes| + Padding(front.position)
    ensures !padding ==> HeaderAt(step, records, s, n) && Covers(bytes, s, i)
  {
    n := Incomplete(step, records, bytes, i);
    var first, later;
    front, first, later := Located(step, records, bytes, i, n);
    padding := i < |front.bytes| + Padding(front.position);
    s := 0;
    if !padding {
      s := InRecord(step, records, bytes, i, n, front, first, later);
    }
  }

  lemma {:induction false} InRecord(step: ByteStep, records: seq<seq<uint8>>, bytes: seq<uint8>, i: nat, n: nat,
                                    front: Written, first: seq<uint8>, later: seq<uint8>)
    returns (s: nat)
    requires n < |records| && front == WriteLog(step, 0, records[..n])
    requires first == Frames(step, front.position, records[n], true).bytes
    requires bytes == front.bytes + first + later && bytes == WriteLog(step, 0, records).bytes
    requires front.position <= BLOCK && Aligned(|front.bytes|, front.position)
    requires |front.bytes| + Padding(front.position) <= i < |front.bytes| + |first|
    ensures HeaderAt(step, records, s, n) && Covers(bytes, s, i)
  {
    ThreeParts(front.bytes, first, later, bytes);
    s := InFragment(step, bytes, |front.bytes|, front.position, records[n], first, i);
    SameRecordAt(step, records, n, front, first, s);
  }

  lemma {:induction false} Incomplete(step: ByteStep, records: seq<seq<uint8>>, bytes: seq<uint8>, i: nat)
    returns (n: nat)
    requires bytes == WriteLog(step, 0, records).bytes && i < |bytes|
    ensures n == Complete(step, 0, 0, records, i) < |records|
  {
    n := Complete(step, 0, 0, records, i);
    CompleteIsLongest(step, 0, 0, records, i, |records|);
    assert records[..|records|] == records;
  }

  lemma {:induction false} SameRecordAt(step: ByteStep, records: seq<seq<uint8>>, n: nat, front: Written,
                                        first: seq<uint8>, s: nat)
    requires n < |records| && front == WriteLog(step, 0, records[..n])
    requires first == Frames(step, front.position, records[n], true).bytes
    requires |front.bytes| <= s < |front.bytes| + |first|
    ensures n == Complete(step, 0, 0, records, s)
  {
    var same, again, later := RecordOfLog(step, records, WriteLog(step, 0, records).bytes, n);
    CompleteIsLongest(step, 0, 0, records, s, n);
    CompleteIsLongest(step, 0, 0, records, s, n + 1);
  }

  lemma {:induction false} InFragment(step: ByteStep, bytes: seq<uint8>, o: nat, b: nat, data: seq<uint8>,
                                      first: seq<uint8>, i: nat)
    returns (s: nat)
    requires b <= BLOCK && Aligned(o, b) && first == Frames(step, b, data, true).bytes && Holds(bytes, o, first)
    requires o + Padding(b) <= i < o + |first|
    ensures o <= s && (s % 32768 == 0 || s == o) && s % 32768 <= 32761 && Covers(bytes, s, i)
  {
    var some, rest, head, later := FirstFragment(step, b, data, true, first);
    if i < o + |head| {
      HoldsParts(bytes, o, head, later);
      s := InFirst(step, bytes, o, b, FragmentType(true, rest == []), some, i);
    } else {
      BlockFilled(o, b, |some|, i);
      s := InLater(step, bytes, o, b, data, first, i);
    }
  }

  lemma {:induction false} BlockFilled(o: nat, b: nat, n: nat, i: nat)
    requires b <= BLOCK && Aligned(o, b) && n == Room(b) && o + Padding(b) + 7 + n <= i
    ensures o <= i - i % 32768
  {
    AlignedNext(o, b, n);
    AtBlockStart(o + Padding(b) + 7 + n, i);
  }

  lemma {:induction false} InFirst(step: ByteStep, bytes: seq<uint8>, o: nat, b: nat, t: uint8, some: seq<uint8>,
                                   i: nat)
    returns (s: nat)
    requires b <= BLOCK && Aligned(o, b) && 1 <= t <= 4 && |some| <= Room(b)
    requires Holds(bytes, o, Zeros(Padding(b)) + Physical(step, t, some))
    requires o + Padding(b) <= i < o + Padding(b) + 7 + |some|
    ensures o <= s && (s % 32768 == 0 || s == o) && s % 32768 <= 32761 && Covers(bytes, s, i)
  {
    s := o + Padding(b);
    HoldsParts(bytes, o, Zeros(Padding(b)), Physical(step, t, some));
    Stored(step, bytes, s, t, some);
  }

  /** From its first block boundary on, a record fills its blocks. */
  lemma {:induction false} InLater(step: ByteStep, bytes: seq<uint8>, o: nat, b: nat, data: seq<uint8>,
                                   first: seq<uint8>, i: nat)
    returns (s: nat)
    requires b <= BLOCK && Aligned(o, b) && first == Frames(step, b, data, true).bytes && Holds(bytes, o, first)
    requires o <= i - i % 32768 && i < o + |first|
    ensures o <= s && s % 32768 == 0 && Covers(bytes, s, i)
  {
    s := i - i % 32768;
    AtBlockStart(0, i);
    SplitHeld(bytes, o, first, s);
    var at, content, begin := RestAt(step, bytes, o, b, data, first, s);
    FillsBlock(step, bytes, s, content, begin, first[s - o..], i);
  }

  lemma {:induction false} SplitHeld(bytes: seq<uint8>, o: nat, first: seq<uint8>, s: nat)
    requires Holds(bytes, o, first) && o <= s <= o + |first|
    ensures Holds(bytes, o, first[..s - o]) && Holds(bytes, s, first[s - o..])
  {
    SplitAt(first, s - o);
    HoldsParts(bytes, o, first[..s - o], first[s - o..]);
  }

  lemma {:induction false} FillsBlock(step: ByteStep, bytes: seq<uint8>, s: nat, content: seq<uint8>, begin: bool,
                                      here: seq<uint8>, i: nat)
    requires here == Frames(step, 0, content, begin).bytes && Holds(bytes, s, here)
    requires s <= i < s + 32768 && i < s + |here|
    ensures Covers(bytes, s, i)
  {
    var some, rest, head, later := FirstFragment(step, 0, content, begin, here);
    Units(Physical(step, FragmentType(begin, rest == []), some));
    HoldsParts(bytes, s, head, later);
    Stored(step, bytes, s, FragmentType(begin, rest == []), some);
  }

  lemma {:induction false} AtBlockStart(e: nat, i: nat)
    requires e % 32768 == 0 && e <= i
    ensures e <= i - i % 32768 && (i - i % 32768) % 32768 == 0
  {
  }

  /** A byte of padding is never looked at. */
  lemma {:induction false} PaddingDamaged(step: ByteStep, verify: bool, records: seq<seq<uint8>>, bytes: seq<uint8>,
                                          n: nat, front: Written, i: nat, x: uint8)
    requires bytes == WriteLog(step, 0, records).bytes && n < |records| && front == WriteLog(step, 0, records[..n])
    requires |front.bytes| <= i < |front.bytes| + Padding(front.position) && i < |bytes|
    ensures ReadLog(step, verify, bytes[i := x], 0) == Log(records, 0, 0)
  {
    var rest := records[n..];
    var o, pad, file := |front.bytes|, Padding(front.position), bytes[i := x];
    SplitAt(records, n);
    LogContinues(step, 0, records[..n], rest);
    LogAligned(step, 0, 0, records[..n]);
    var later := LogBehindPadding(step, front.position, rest);
    ParsesOf(bytes, front.bytes, Zeros(pad), later, i, x);
    FromBlock(step, verify, file, o, front.position, rest, later);
    LogThenMore(step, verify, file, 0, 0, records[..n], o);
    NothingBehind(rest);
  }

  lemma {:induction false} LogBehindPadding(step: ByteStep, b: nat, records: seq<seq<uint8>>)
    returns (later: seq<uint8>)
    requires BLOCK - HEADER < b < BLOCK && records != []
    ensures later == WriteLog(step, 0, records).bytes
    ensures WriteLog(step, b, records).bytes == Zeros(Padding(b)) + later
  {
    assert (b + Padding(b)) % BLOCK == 0;
    LogInPadding(step, b, Padding(b), records);
    later := WriteLog(step, 0, records).bytes;
  }

  lemma {:induction false} ParsesOf(bytes: seq<uint8>, a: seq<uint8>, b: seq<uint8>, c: seq<uint8>, i: nat, x: uint8)
    requires bytes == a + (b + c) && |a| <= i < |a| + |b|
    ensures var file := bytes[i := x];
            Holds(file, 0, a) && Holds(file, |a| + |b|, c) && |file| == |a| + |b| + |c|
  {
  }

  lemma {:induction false} FromBlock(step: ByteStep, verify: bool, file: seq<uint8>, o: nat, b: nat,
                                     records: seq<seq<uint8>>, later: seq<uint8>)
    requires b <= BLOCK && Aligned(o, b) && Padding(b) > 0 && later == WriteLog(step, 0, records).bytes
    requires Holds(file, o + Padding(b), later) && |file| == o + Padding(b) + |later|
    ensures ReadLog(step, verify, file, o) == Log(records, 0, 0)
  {
    var q := PadToBlock(o, b);
    SameFragment(step, verify, file, o, q);
    SameReading(step, verify, file, o, q, None);
    LogToEnd(step, verify, file, q, 0, records);
  }

  lemma {:induction false} PadToBlock(o: nat, b: nat) returns (q: nat)
    requires b <= BLOCK && Aligned(o, b) && Padding(b) > 0
    ensures q == o + Padding(b) == o + Padding(o % BLOCK) && q % BLOCK == 0 && Aligned(q, 0)
  {
    q := o + Padding(b);
  }

  /**
   Any byte of a log is changed. In padding that makes no difference. Elsewhere, but for the two bytes of
   a length, the reader notices, and all records are returned but those with a part in the rest of the
   block.
   */
  lemma {:induction false} AnyByteChanged(step: ByteStep, records: seq<seq<uint8>>, bytes: seq<uint8>, i: nat,
                                          x: uint8)
    returns (n: nat, s: nat, padding: bool)
    requires TellsApart(step) && bytes == WriteLog(step, 0, records).bytes && i < |bytes| && x != bytes[i]
    ensures n == Complete(step, 0, 0, records, i) < |records|
    ensures padding ==> ReadLog(step, true, bytes[i := x], 0) == Log(records, 0, 0)
    ensures !padding ==> HeaderAt(step, records, s, n) && Covers(bytes, s, i)
    ensures !padding && i != s + 4 && i != s + 5 ==>
              ReadLog(step, true, bytes[i := x], 0).records
              == records[..n] + records[Begun(step, 0, 0, records, BlockEnd(bytes, s))..]
  {
    var front;
    n, front, s, padding := EveryByte(step, records, bytes, i);
    if padding {
      PaddingDamaged(step, true, records, bytes, n, front, i, x);
    } else if i != s + 4 && i != s + 5 {
      var e, f := ByteDamaged(step, records, bytes, s, n, i, x, bytes[i := x]);
    }
  }
}
