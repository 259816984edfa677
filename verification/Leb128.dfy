/**
 The varint format: groups of seven bits, least significant first, one group a byte, where every
 byte but the last has its top bit set (unsigned LEB128, section 7.6 of the DWARF Debugging
 Information Format, version 5).

 `Val` says what a byte string means and `Terminated` where one ends. `Varint` is the encoding the
 writers produce, `Parse` is what the readers compute on every input, and the lemmas relate the two.
 */
module Leb128 {
  import opened Words

  datatype Option<+T> = None | Some(value: T)

  /** The two instances of the format: how many bytes a reader looks at, and its word. */
  datatype Width = W32 | W64 {
    function MaxBytes(): nat {
      if W32? then 5 else 10
    }

    function Bits(): nat {
      if W32? then 32 else 64
    }

    function Modulus(): nat {
      if W32? then 0x1_0000_0000 else 0x1_0000_0000_0000_0000
    }

    /** What a word keeps of a number. */
    function Truncate(v: nat): (r: nat)
      ensures r < Modulus()
    {
      match this
      case W32 => v % 0x1_0000_0000
      case W64 => v % 0x1_0000_0000_0000_0000
    }

    /** What the last of `MaxBytes()` bytes may hold before bits fall off the top of the word. */
    function TopLimit(): nat {
      if W32? then 16 else 2
    }
  }

  /** What a reader stores and how many bytes it consumed. */
  datatype Parsed = Parsed(value: nat, size: nat)

  /** The number spelled by a byte string: the sum of (bs[i] mod 128) * 128^i. */
  function Val(bs: seq<uint8>): nat {
    if bs == [] then 0 else bs[0] % 128 + 128 * Val(bs[1..])
  }

  /** Exactly the last byte has a clear top bit. */
  predicate Terminated(bs: seq<uint8>) {
    && bs != []
    && bs[|bs| - 1] < 128
    && forall i :: 0 <= i < |bs| - 1 ==> bs[i] >= 128
  }

  /** No group of leading zeros: the shortest way to spell a number. */
  predicate Shortest(bs: seq<uint8>)
    requires bs != []
  {
    |bs| == 1 || bs[|bs| - 1] != 0
  }

  function Varint(v: nat): (bs: seq<uint8>)
    ensures bs != []
  {
    if v < 128 then [v] else [v % 128 + 128] + Varint(v / 128)
  }

  /** The length of the first terminated group among the first `max` bytes. */
  function Scan(s: seq<uint8>, max: nat): (r: Option<nat>)
    ensures r.Some? ==> 1 <= r.value <= |s|
  {
    if max == 0 || s == [] then None
    else if s[0] < 128 then Some(1)
    else match Scan(s[1..], max - 1)
      case None => None
      case Some(n) => Some(n + 1)
  }

  function Parse(s: seq<uint8>, w: Width): (r: Option<Parsed>)
    ensures r.Some? ==> 1 <= r.value.size <= |s| && r.value.value < w.Modulus()
  {
    match Scan(s, w.MaxBytes())
    case None => None
    case Some(n) => Some(Parsed(w.Truncate(Val(s[..n])), n))
  }

  // Powers of 128

  lemma {:induction false} PowStep(n: nat)
    ensures Pow2(7 * (n + 1)) == 128 * Pow2(7 * n)
  {
    PowPlus7(7 * n);
  }

  lemma {:induction false} WidthPowers(w: Width)
    ensures Pow2(w.Bits()) == w.Modulus()
    ensures w.TopLimit() * Pow2(7 * (w.MaxBytes() - 1)) == w.Modulus()
  {
    PowLiterals();
  }

  /** What a word keeps of a number. */
  lemma {:induction false} ToWord(v: nat, w: Width)
    ensures LowBits(v, w.Bits()) == w.Truncate(v)
  {
    WidthPowers(w);
    LowBitsModulus(v, w.Bits(), w.Modulus());
  }

  // Val

  /** One more group: what the readers add at each step. */
  lemma {:induction false} ValSnoc(bs: seq<uint8>, b: uint8)
    ensures Val(bs + [b]) == Val(bs) + b % 128 * Pow2(7 * |bs|)
  {
    if bs == [] {
      assert bs + [b] == [b];
    } else {
      assert (bs + [b])[1..] == bs[1..] + [b];
      ValSnoc(bs[1..], b);
      PowStep(|bs| - 1);
      NextPlace(128, bs[0] % 128, Val(bs[1..]), b % 128, Pow2(7 * (|bs| - 1)), Pow2(7 * |bs|));
    }
  }

  lemma {:induction false} ValBound(bs: seq<uint8>)
    ensures Val(bs) < Pow2(7 * |bs|)
  {
    if bs != [] {
      ValBound(bs[1..]);
      PowStep(|bs| - 1);
    }
  }

  /** The last byte and the rest of a nonempty string. */
  lemma {:induction false} ValLast(bs: seq<uint8>)
    requires bs != []
    ensures Val(bs) == Val(bs[..|bs| - 1]) + bs[|bs| - 1] % 128 * Pow2(7 * (|bs| - 1))
    ensures Val(bs[..|bs| - 1]) < Pow2(7 * (|bs| - 1))
  {
    var front := bs[..|bs| - 1];
    assert bs == front + [bs[|bs| - 1]];
    ValSnoc(front, bs[|bs| - 1]);
    ValBound(front);
  }

  // Varint

  /** The encoding is terminated, spells the number and has no leading zeros ... */
  lemma {:induction false} VarintSpells(v: nat)
    ensures Terminated(Varint(v)) && Val(Varint(v)) == v && Shortest(Varint(v))
  {
    if v >= 128 {
      VarintSpells(v / 128);
      OneMoreByte((v % 128 + 128) as uint8, Varint(v / 128));
    }
  }

  lemma {:induction false} OneMoreByte(b: uint8, bs: seq<uint8>)
    requires b >= 128 && Terminated(bs) && Val(bs) > 0 && Shortest(bs)
    ensures Terminated([b] + bs) && Shortest([b] + bs) && Val([b] + bs) == b % 128 + 128 * Val(bs)
  {
    assert ([b] + bs)[1..] == bs;
  }

  /** ... and it is the only byte string that does all three. */
  lemma {:induction false} VarintUnique(bs: seq<uint8>)
    requires Terminated(bs) && Shortest(bs)
    ensures Varint(Val(bs)) == bs
  {
    var rest := bs[1..];
    if rest == [] {
      assert Val(bs) == bs[0] && bs == [bs[0]];
    } else {
      assert forall i :: 0 <= i < |rest| ==> rest[i] == bs[i + 1];
      VarintUnique(rest);
      VarintZero(rest);
      VarintCons(bs[0], Val(rest), Val(bs), rest);
      assert bs == [bs[0]] + rest;
    }
  }

  lemma {:induction false} VarintCons(b: uint8, v: nat, n: nat, rest: seq<uint8>)
    requires b >= 128 && v > 0 && n == b % 128 + 128 * v && Varint(v) == rest
    ensures Varint(n) == [b] + rest
  {
  }

  lemma {:induction false} VarintZero(bs: seq<uint8>)
    requires Terminated(bs) && bs[|bs| - 1] != 0
    ensures Val(bs) > 0
  {
    ValLast(bs);
    MulGap(bs[|bs| - 1], Pow2(7 * (|bs| - 1)));
  }

  lemma {:induction false} VarintInjective(a: nat, b: nat)
    requires Varint(a) == Varint(b)
    ensures a == b
  {
    VarintSpells(a);
    VarintSpells(b);
  }

  /** The length is the least n >= 1 with v < 128^n. */
  lemma {:induction false} LengthExact(v: nat, n: nat)
    ensures |Varint(v)| == n <==> n >= 1 && v < Pow2(7 * n) && (n > 1 ==> Pow2(7 * (n - 1)) <= v)
    decreases n
  {
    if n == 1 {
      PowStep(0);
      if v >= 128 {
        assert |Varint(v / 128)| >= 1;
      }
    } else if n > 1 {
      PowStep(n - 1);
      PowStep(n - 2);
      PowMonotone(7, 7 * (n - 1));
      PowLiterals();
      LengthExact(v / 128, n - 1);
    }
  }

  lemma {:induction false} LengthAtMost(v: nat, n: nat)
    requires n >= 1
    ensures |Varint(v)| <= n <==> v < Pow2(7 * n)
    decreases n
  {
    PowStep(n - 1);
    if n == 1 {
      if v >= 128 {
        assert |Varint(v / 128)| >= 1;
      }
    } else {
      PowMonotone(7, 7 * n);
      PowLiterals();
      LengthAtMost(v / 128, n - 1);
    }
  }

  lemma {:induction false} LengthMonotone(a: nat, b: nat)
    requires a <= b
    ensures |Varint(a)| <= |Varint(b)|
  {
    LengthAtMost(b, |Varint(b)|);
    LengthAtMost(a, |Varint(b)|);
  }

  /** Every word has an encoding that its reader is prepared to look at. */
  lemma {:induction false} LengthFits(v: nat, w: Width)
    requires v < w.Modulus()
    ensures |Varint(v)| <= w.MaxBytes()
  {
    WidthPowers(w);
    PowMonotone(w.Bits(), 7 * w.MaxBytes());
    LengthAtMost(v, w.MaxBytes());
  }

  // Scan

  lemma {:induction false} ScanFinds(s: seq<uint8>, max: nat, n: nat)
    ensures Scan(s, max) == Some(n) <==> 1 <= n <= max && n <= |s| && Terminated(s[..n])
    decreases max
  {
    if max > 0 && s != [] {
      if s[0] < 128 {
        if 1 <= n <= |s| {
          assert s[..n][0] == s[0];
        }
      } else {
        if n >= 1 {
          ScanFinds(s[1..], max - 1, n - 1);
        }
        if 2 <= n <= |s| {
          TerminatedTail(s[..n]);
          assert s[..n][1..] == s[1..][..n - 1];
        }
      }
    }
  }

  lemma {:induction false} TerminatedTail(bs: seq<uint8>)
    requires |bs| >= 2 && bs[0] >= 128
    ensures Terminated(bs) <==> Terminated(bs[1..])
  {
    var rest := bs[1..];
    assert forall i :: 0 <= i < |rest| ==> rest[i] == bs[i + 1];
    assert forall i :: 1 <= i < |bs| ==> bs[i] == rest[i - 1];
  }

  lemma {:induction false} ScanMisses(s: seq<uint8>, max: nat)
    ensures Scan(s, max) == None <==> forall i :: 0 <= i < |s| && i < max ==> s[i] >= 128
    decreases max
  {
    if max > 0 && s != [] && s[0] >= 128 {
      ScanMisses(s[1..], max - 1);
      assert forall i :: 0 <= i < |s| - 1 ==> s[1..][i] == s[i + 1];
      assert forall i :: 1 <= i < |s| ==> s[i] == s[1..][i - 1];
    }
  }

  /** On a string that starts with a terminated group, the scan stops exactly after that group. */
  lemma {:induction false} ScanGroup(bs: seq<uint8>, rest: seq<uint8>, max: nat)
    requires Terminated(bs)
    ensures Scan(bs + rest, max) == if |bs| <= max then Some(|bs|) else None
  {
    assert (bs + rest)[..|bs|] == bs;
    ScanFinds(bs + rest, max, |bs|);
    ScanMisses(bs + rest, max);
  }

  // Theorems about the readers

  /** The reader succeeds exactly when a byte below 128 is in reach, and reads the first group. */
  lemma {:induction false} ParseCharacterised(s: seq<uint8>, w: Width)
    ensures Parse(s, w).Some? <==> exists i :: 0 <= i < |s| && i < w.MaxBytes() && s[i] < 128
    ensures Parse(s, w).Some? ==>
              && var p := Parse(s, w).value;
              && 1 <= p.size <= w.MaxBytes() && p.size <= |s|
              && Terminated(s[..p.size]) && p.value == w.Truncate(Val(s[..p.size]))
  {
    ScanMisses(s, w.MaxBytes());
    match Scan(s, w.MaxBytes()) {
      case None =>
      case Some(n) => ScanFinds(s, w.MaxBytes(), n);
    }
  }

  lemma {:induction false} ParseGroup(bs: seq<uint8>, rest: seq<uint8>, w: Width)
    requires Terminated(bs)
    ensures Parse(bs + rest, w)
         == if |bs| <= w.MaxBytes() then Some(Parsed(w.Truncate(Val(bs)), |bs|)) else None
  {
    ScanGroup(bs, rest, w.MaxBytes());
    assert (bs + rest)[..|bs|] == bs;
  }

  /** Reading what was written gives the value back and stops at whatever follows. */
  lemma {:induction false} RoundTrip(v: nat, w: Width, rest: seq<uint8>)
    requires v < w.Modulus()
    ensures Parse(Varint(v) + rest, w) == Some(Parsed(v, |Varint(v)|))
  {
    VarintSpells(v);
    LengthFits(v, w);
    ParseGroup(Varint(v), rest, w);
  }

  /** The condition under which an accepted group is the one the writer would have produced. */
  predicate Canonical(bs: seq<uint8>, w: Width)
    requires bs != []
  {
    && (|bs| == 1 || bs[|bs| - 1] != 0)
    && (|bs| == w.MaxBytes() ==> bs[|bs| - 1] < w.TopLimit())
  }

  /** Re-encoding an accepted group restores it if and only if it is canonical. */
  lemma {:induction false} ReencodeRestores(bs: seq<uint8>, w: Width)
    requires Terminated(bs) && |bs| <= w.MaxBytes()
    ensures Varint(w.Truncate(Val(bs))) == bs <==> Canonical(bs, w)
  {
    FitsWord(bs, w);
    VarintRespells(bs, w.Truncate(Val(bs)));
    ModFits(Val(bs), w);
  }

  lemma {:induction false} ModFits(v: nat, w: Width)
    ensures w.Truncate(v) == v <==> v < w.Modulus()
  {
    match w
    case W32 =>
    case W64 =>
  }

  lemma {:induction false} VarintRespells(bs: seq<uint8>, v: nat)
    requires Terminated(bs)
    ensures Varint(v) == bs <==> Shortest(bs) && v == Val(bs)
  {
    VarintSpells(v);
    if Shortest(bs) {
      VarintUnique(bs);
    }
  }

  /** Nothing falls off the top of the word exactly when the last possible byte is small enough. */
  lemma {:induction false} FitsWord(bs: seq<uint8>, w: Width)
    requires Terminated(bs) && |bs| <= w.MaxBytes()
    ensures Val(bs) < w.Modulus() <==> (|bs| == w.MaxBytes() ==> bs[|bs| - 1] < w.TopLimit())
  {
    WidthPowers(w);
    ValBound(bs);
    ValLast(bs);
    var last, p := bs[|bs| - 1], Pow2(7 * (w.MaxBytes() - 1));
    if |bs| == w.MaxBytes() {
      MulGap(last - w.TopLimit(), p);
    } else {
      PowMonotone(7 * |bs|, 7 * (w.MaxBytes() - 1));
    }
  }

  /** No accepted spelling of a value is shorter than the one the writer produces. */
  lemma {:induction false} WriterIsShortest(s: seq<uint8>, w: Width)
    ensures Parse(s, w).Some? ==> |Varint(Parse(s, w).value.value)| <= Parse(s, w).value.size
  {
    ParseCharacterised(s, w);
    if Parse(s, w).Some? {
      var p := Parse(s, w).value;
      ValBound(s[..p.size]);
      LengthAtMost(p.value, p.size);
    }
  }

  /** The 32-bit reader is the 64-bit one, cut off after five bytes and reduced to its word. */
  lemma {:induction false} ReadersAgree(s: seq<uint8>)
    ensures Parse(s, W32) ==
            match Parse(s, W64)
            case None => None
            case Some(p) => if p.size <= 5 then Some(Parsed(p.value % 0x1_0000_0000, p.size)) else None
  {
    match Scan(s, 10) {
      case None =>
        ScanMisses(s, 10);
        ScanMisses(s, 5);
      case Some(n) =>
        ScanFinds(s, 10, n);
        assert s[..n] + s[n..] == s;
        ScanGroup(s[..n], s[n..], 5);
        Narrowing(Val(s[..n]));
    }
  }

  /** Storing a number in 64 bits and then in 32 is storing it in 32. */
  lemma {:induction false} Narrowing(v: nat)
    ensures v % 0x1_0000_0000_0000_0000 % 0x1_0000_0000 == v % 0x1_0000_0000
  {
  }

  /** Reading a 64-bit encoding with the 32-bit reader. */
  lemma {:induction false} CrossWidth(v: uint64, rest: seq<uint8>)
    ensures Parse(Varint(v) + rest, W32)
         == if v < 0x8_0000_0000 then Some(Parsed(v % 0x1_0000_0000, |Varint(v)|)) else None
  {
    VarintSpells(v);
    ParseGroup(Varint(v), rest, W32);
    LengthAtMost(v, 5);
    WidthPowers(W32);
    PowStep(4);
  }

  /** No encoding is a proper prefix of another. */
  lemma {:induction false} PrefixFree(a: nat, b: nat)
    requires Varint(a) <= Varint(b)
    ensures a == b
  {
    VarintSpells(a);
    VarintSpells(b);
    assert |Varint(a)| == |Varint(b)|;
    VarintInjective(a, b);
  }

  /** A reader that sees only part of an encoding rejects it. */
  lemma {:induction false} TruncatedRejected(v: nat, k: nat, w: Width)
    requires k < |Varint(v)|
    ensures Parse(Varint(v)[..k], w) == None
  {
    VarintSpells(v);
    ScanMisses(Varint(v)[..k], w.MaxBytes());
  }

  /** Encodings one after another. */
  function Varints(vs: seq<nat>): seq<uint8> {
    if vs == [] then [] else Varint(vs[0]) + Varints(vs[1..])
  }

  /** Concatenated encodings parse in only one way: a byte prefix is a prefix of the list. */
  lemma {:induction false} UniqueParsing(xs: seq<nat>, ys: seq<nat>)
    requires Varints(xs) <= Varints(ys)
    ensures xs <= ys
  {
    if xs != [] {
      var x, y := Varint(xs[0]), Varint(ys[0]);
      assert Varints(ys)[..|Varints(xs)|] == Varints(xs);
      assert x == Varints(ys)[..|x|] && y == Varints(ys)[..|y|];
      if |x| <= |y| {
        assert x == y[..|x|];
        PrefixFree(xs[0], ys[0]);
      } else {
        assert y == x[..|y|];
        PrefixFree(ys[0], xs[0]);
      }
      assert Varints(xs)[|x|..] == Varints(xs[1..]);
      assert Varints(ys)[|x|..] == Varints(ys[1..]);
      UniqueParsing(xs[1..], ys[1..]);
    }
  }

  lemma {:induction false} VarintsInjective(xs: seq<nat>, ys: seq<nat>)
    requires Varints(xs) == Varints(ys)
    ensures xs == ys
  {
    UniqueParsing(xs, ys);
    UniqueParsing(ys, xs);
  }
}
