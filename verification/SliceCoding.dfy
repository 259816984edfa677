/**
 Length-prefixed slices: the writer and reader of `coding.cc`, and what holds of whole streams of
 them, cut short or mixed with varints.
 */
module SliceCoding {
  import opened Words
  import opened Memory
  import opened Leb128
  import opened VarintCoding

  const SIZE_LIMIT := 0x1_0000_0000

  /** The length, narrowed to 32 bits as the writer's call does, then the bytes. */
  function PutSlice(s: seq<uint8>): seq<uint8> {
    Varint(|s| % SIZE_LIMIT) + s
  }

  /** A slice and what follows it, or which of the two ways the input was too short. */
  datatype SliceRead =
    | Slice(value: seq<uint8>, rest: seq<uint8>)
    | NoHeader
    | ShortPayload(rest: seq<uint8>)

  function ReadSlice(s: seq<uint8>): SliceRead {
    match Parse(s, W32)
    case None => NoHeader
    case Some(p) =>
      var end := p.size + p.value;
      if end <= |s| then Slice(s[p.size..end], s[end..]) else ShortPayload(s[p.size..])
  }

  // Methods

  method PutLengthPrefixedSlice(dst: StringBuffer, value: StringView)
    requires value.Valid()
    modifies dst
    ensures dst.bytes == old(dst.bytes) + PutSlice(old(value.View()))
  {
    PutVarint32(dst, value.size % SIZE_LIMIT);
    dst.Append(value.data, value.start, value.size);
  }

  method GetLengthPrefixedSlice(input: StringView, result: StringView) returns (ok: bool)
    requires input.Valid() && result.Valid() && input != result
    modifies input, result
    ensures input.Valid() && result.Valid() && input.data == old(input.data)
    ensures match ReadSlice(old(input.View()))
            case Slice(value, rest) =>
              ok && result.data == input.data && result.View() == value && input.View() == rest
            case NoHeader =>
              !ok && input.View() == old(input.View()) && unchanged(result)
            case ShortPayload(rest) =>
              !ok && input.View() == rest && unchanged(result)
  {
    var len := new Ref<uint32>(0);
    ghost var s := input.View();
    var header := GetVarint32(input, len);
    ghost var n, rest := len.val, input.View();
    AfterHeader(s, rest, header, 0, n);
    if header {
      ok := TakePayload(input, result, len.val);
    } else {
      ok := false;
    }
  }

  /** The payload, if all of it is there. */
  method TakePayload(input: StringView, result: StringView, n: nat) returns (ok: bool)
    requires input.Valid() && result.Valid() && input != result
    modifies input, result
    ensures input.Valid() && result.Valid() && input.data == old(input.data)
    ensures var s := old(input.View());
            if n <= |s| then
              ok && result.data == input.data && result.View() == s[..n] && input.View() == s[n..]
            else
              !ok && input.View() == s && unchanged(result)
  {
    if input.size >= n {
      ghost var s := input.View();
      result.Assign(input.data, input.start, n);
      assert result.View() == s[..n];
      input.RemovePrefix(n);
      return true;
    } else {
      return false;
    }
  }

  lemma {:induction false} AfterHeader(s: seq<uint8>, rest: seq<uint8>, header: bool, before: nat, n: nat)
    requires Advances(W32, s, rest, header, before, n)
    ensures ReadSlice(s)
         == if !header then NoHeader else if n <= |rest| then Slice(rest[..n], rest[n..]) else ShortPayload(rest)
    ensures !header ==> rest == s
  {
  }

  // One slice

  /** Nothing is lost or invented: header, slice and rest are the input, cut in order. */
  lemma {:induction false} SliceConservation(s: seq<uint8>)
    ensures match ReadSlice(s)
            case Slice(value, rest) =>
              exists n :: 1 <= n <= |s| && Parse(s, W32) == Some(Parsed(|value|, n)) && s == s[..n] + value + rest
            case NoHeader => Parse(s, W32) == None
            case ShortPayload(rest) =>
              Parse(s, W32).Some? && rest == s[Parse(s, W32).value.size..] && |rest| < Parse(s, W32).value.value
  {
    match ReadSlice(s) {
      case Slice(value, rest) =>
        var n := Parse(s, W32).value.size;
        assert s == s[..n] + value + rest;
      case NoHeader =>
      case ShortPayload(rest) =>
    }
  }

  lemma {:induction false} ReadAfterHeader(n: uint32, s: seq<uint8>)
    ensures ReadSlice(Varint(n) + s) == if n <= |s| then Slice(s[..n], s[n..]) else ShortPayload(s)
  {
    RoundTrip(n, W32, s);
    assert (Varint(n) + s)[|Varint(n)|..] == s;
  }

  /** Reading what was written: everything up to the narrowed length. */
  lemma {:induction false} SliceReadBack(v: seq<uint8>, rest: seq<uint8>)
    ensures var n := |v| % SIZE_LIMIT; ReadSlice(PutSlice(v) + rest) == Slice(v[..n], v[n..] + rest)
  {
    var n := |v| % SIZE_LIMIT;
    Regroup(Varint(n), v, rest);
    ReadAfterHeader(n, v + rest);
    CutInFront(v, rest, n);
  }

  lemma {:induction false} CutInFront<T>(s: seq<T>, t: seq<T>, n: nat)
    requires n <= |s|
    ensures (s + t)[..n] == s[..n] && (s + t)[n..] == s[n..] + t
  {
  }

  /** So the round trip holds exactly for slices whose length fits in 32 bits. */
  lemma {:induction false} SliceRoundTrip(v: seq<uint8>, rest: seq<uint8>)
    ensures ReadSlice(PutSlice(v) + rest) == Slice(v, rest) <==> |v| < SIZE_LIMIT
  {
    SliceReadBack(v, rest);
    if |v| < SIZE_LIMIT {
      assert v[..|v|] == v && v[|v|..] + rest == rest;
    }
  }

  /** A slice that is not wholly there is not read. */
  lemma {:induction false} SliceTruncated(v: seq<uint8>, k: nat)
    requires |v| < SIZE_LIMIT && k < |PutSlice(v)|
    ensures !ReadSlice(PutSlice(v)[..k]).Slice?
  {
    var header := Varint(|v|);
    if k < |header| {
      assert PutSlice(v)[..k] == header[..k];
      TruncatedRejected(|v|, k, W32);
    } else {
      assert PutSlice(v)[..k] == header + v[..k - |header|];
      ReadAfterHeader(|v|, v[..k - |header|]);
    }
  }

  // Streams of slices

  predicate AllFit(ss: seq<seq<uint8>>) {
    forall i :: 0 <= i < |ss| ==> |ss[i]| < SIZE_LIMIT
  }

  function PutSlices(ss: seq<seq<uint8>>): seq<uint8> {
    if ss == [] then [] else PutSlice(ss[0]) + PutSlices(ss[1..])
  }

  /** Reading until the reader fails. */
  function ReadSlices(s: seq<uint8>): seq<seq<uint8>>
    decreases |s|
  {
    match ReadSlice(s)
    case Slice(value, rest) => [value] + ReadSlices(rest)
    case NoHeader => []
    case ShortPayload(_) => []
  }

  /** How many of the slices lie wholly within the first `k` bytes. */
  function Fitting(ss: seq<seq<uint8>>, k: nat): (n: nat)
    ensures n <= |ss|
  {
    if ss == [] || k < |PutSlice(ss[0])| then 0
    else 1 + Fitting(ss[1..], k - |PutSlice(ss[0])|)
  }

  /** `Fitting` is the longest such prefix of the list. */
  lemma {:induction false} FittingIsLongest(ss: seq<seq<uint8>>, k: nat, n: nat)
    requires n <= |ss|
    ensures n <= Fitting(ss, k) <==> |PutSlices(ss[..n])| <= k
  {
    if n > 0 {
      assert ss[..n][0] == ss[0] && ss[..n][1..] == ss[1..][..n - 1];
      if k >= |PutSlice(ss[0])| {
        FittingIsLongest(ss[1..], k - |PutSlice(ss[0])|, n - 1);
      }
    }
  }

  /** Cut a written stream anywhere: the slices wholly before the cut come back, and nothing else. */
  lemma {:induction false} TruncationRecovery(ss: seq<seq<uint8>>, k: nat)
    requires AllFit(ss) && k <= |PutSlices(ss)|
    ensures ReadSlices(PutSlices(ss)[..k]) == ss[..Fitting(ss, k)]
  {
    if ss != [] {
      var first, others := PutSlice(ss[0]), PutSlices(ss[1..]);
      if k < |first| {
        assert PutSlices(ss)[..k] == first[..k];
        SliceTruncated(ss[0], k);
      } else {
        assert PutSlices(ss)[..k] == first + others[..k - |first|];
        SliceRoundTrip(ss[0], others[..k - |first|]);
        TruncationRecovery(ss[1..], k - |first|);
        FirstSlice(PutSlices(ss)[..k], ss[0], others[..k - |first|]);
        PrefixOf(ss, Fitting(ss[1..], k - |first|));
      }
    } else {
      assert PutSlices(ss)[..k] == [];
    }
  }

  lemma {:induction false} FirstSlice(s: seq<uint8>, v: seq<uint8>, rest: seq<uint8>)
    requires ReadSlice(s) == Slice(v, rest)
    ensures ReadSlices(s) == [v] + ReadSlices(rest)
  {
  }

  // Streams of mixed fields

  datatype Kind = KVarint32 | KVarint64 | KSlice

  datatype Field = Number32(v32: uint32) | Number64(v64: uint64) | Bytes(bytes: seq<uint8>) {
    function Kind(): Kind {
      match this
      case Number32(_) => KVarint32
      case Number64(_) => KVarint64
      case Bytes(_) => KSlice
    }

    predicate Fits() {
      Bytes? ==> |bytes| < SIZE_LIMIT
    }
  }

  function PutField(f: Field): seq<uint8> {
    match f
    case Number32(v) => Varint(v)
    case Number64(v) => Varint(v)
    case Bytes(s) => PutSlice(s)
  }

  function GetField(k: Kind, s: seq<uint8>): Option<(Field, seq<uint8>)> {
    match k
    case KVarint32 =>
      (match Parse(s, W32)
       case None => None
       case Some(p) => Some((Number32(p.value), s[p.size..])))
    case KVarint64 =>
      (match Parse(s, W64)
       case None => None
       case Some(p) => Some((Number64(p.value), s[p.size..])))
    case KSlice =>
      (match ReadSlice(s)
       case Slice(value, rest) => Some((Bytes(value), rest))
       case NoHeader => None
       case ShortPayload(_) => None)
  }

  function PutFields(fs: seq<Field>): seq<uint8> {
    if fs == [] then [] else PutField(fs[0]) + PutFields(fs[1..])
  }

  function Kinds(fs: seq<Field>): seq<Kind> {
    seq(|fs|, i requires 0 <= i < |fs| => fs[i].Kind())
  }

  /** Reading a schema of fields; one unreadable field fails the whole. */
  function GetFields(ks: seq<Kind>, s: seq<uint8>): Option<(seq<Field>, seq<uint8>)> {
    if ks == [] then Some(([], s))
    else match GetField(ks[0], s)
      case None => None
      case Some((f, rest)) =>
        match GetFields(ks[1..], rest)
        case None => None
        case Some((fs, end)) => Some(([f] + fs, end))
  }

  lemma {:induction false} FieldRoundTrip(f: Field, rest: seq<uint8>)
    ensures GetField(f.Kind(), PutField(f) + rest) == Some((f, rest)) <==> f.Fits()
  {
    match f {
      case Number32(v) =>
        RoundTrip(v, W32, rest);
        assert (Varint(v) + rest)[|Varint(v)|..] == rest;
      case Number64(v) =>
        RoundTrip(v, W64, rest);
        assert (Varint(v) + rest)[|Varint(v)|..] == rest;
      case Bytes(s) =>
        SliceRoundTrip(s, rest);
    }
  }

  lemma {:induction false} FieldTruncated(f: Field, k: nat)
    requires f.Fits() && k < |PutField(f)|
    ensures GetField(f.Kind(), PutField(f)[..k]) == None
  {
    match f {
      case Number32(v) => TruncatedRejected(v, k, W32);
      case Number64(v) => TruncatedRejected(v, k, W64);
      case Bytes(s) => SliceTruncated(s, k);
    }
  }

  /** Writing any fields and reading them by the same schema returns them and leaves what followed. */
  lemma {:induction false} StreamRoundTrip(fs: seq<Field>, rest: seq<uint8>)
    requires forall i :: 0 <= i < |fs| ==> fs[i].Fits()
    ensures GetFields(Kinds(fs), PutFields(fs) + rest) == Some((fs, rest))
  {
    if fs == [] {
      assert PutFields(fs) + rest == rest;
    } else {
      var others := PutFields(fs[1..]) + rest;
      assert PutFields(fs) + rest == PutField(fs[0]) + others;
      assert Kinds(fs)[1..] == Kinds(fs[1..]);
      FieldRoundTrip(fs[0], others);
      StreamRoundTrip(fs[1..], rest);
      FirstField(Kinds(fs), PutFields(fs) + rest, fs[0], others, fs[1..], rest);
      assert fs == [fs[0]] + fs[1..];
    }
  }

  lemma {:induction false} FirstField(ks: seq<Kind>, s: seq<uint8>, f: Field, rest: seq<uint8>, fs: seq<Field>,
                                      end: seq<uint8>)
    requires ks != [] && GetField(ks[0], s) == Some((f, rest)) && GetFields(ks[1..], rest) == Some((fs, end))
    ensures GetFields(ks, s) == Some(([f] + fs, end))
  {
  }

  /** A stream that lost any part of its end is rejected as a whole. */
  lemma {:induction false} StreamTruncated(fs: seq<Field>, k: nat)
    requires forall i :: 0 <= i < |fs| ==> fs[i].Fits()
    requires k < |PutFields(fs)|
    ensures GetFields(Kinds(fs), PutFields(fs)[..k]) == None
  {
    var first, others := PutField(fs[0]), PutFields(fs[1..]);
    assert Kinds(fs)[1..] == Kinds(fs[1..]);
    if k < |first| {
      assert PutFields(fs)[..k] == first[..k];
      FieldTruncated(fs[0], k);
    } else {
      assert PutFields(fs)[..k] == first + others[..k - |first|];
      FieldRoundTrip(fs[0], others[..k - |first|]);
      StreamTruncated(fs[1..], k - |first|);
    }
  }
}
