/**
 Machine words of 8, 32 and 64 bits, and the bit operations the codec applies to them.

 A word is a bounded integer. `|` and `&` work bit by bit, `>>` halves, and `<<` multiplies and
 drops the bits that leave the word, as the operators do on unsigned C++ integers. The lemmas turn
 them into arithmetic.
 */
module Words {

  type uint8 = x: int | 0 <= x < 0x100
  type uint32 = x: int | 0 <= x < 0x1_0000_0000
  type uint64 = x: int | 0 <= x < 0x1_0000_0000_0000_0000

  function Pow2(n: nat): (p: nat)
    ensures p > 0
  {
    if n == 0 then 1 else 2 * Pow2(n - 1)
  }

  function Min(a: int, b: int): int {
    if a < b then a else b
  }

  /** `a | b` */
  function Or(a: nat, b: nat): nat
    decreases a + b
  {
    if a == 0 && b == 0 then 0
    else (if a % 2 == 1 || b % 2 == 1 then 1 else 0) + 2 * Or(a / 2, b / 2)
  }

  /** `a & b` */
  function And(a: nat, b: nat): nat
    decreases a + b
  {
    if a == 0 && b == 0 then 0
    else (if a % 2 == 1 && b % 2 == 1 then 1 else 0) + 2 * And(a / 2, b / 2)
  }

  /** `a >> s` */
  function Shr(a: nat, s: nat): nat
    decreases s, a
  {
    if s == 0 then a else Shr(a / 2, s - 1)
  }

  /** The low `k` bits of `a`: what a word of `k` bits keeps of it. */
  function LowBits(a: nat, k: nat): nat
    decreases k, a
  {
    if k == 0 then 0 else a % 2 + 2 * LowBits(a / 2, k - 1)
  }

  /** `a << s` in a word of `width` bits */
  function Shl(a: nat, s: nat, width: nat): nat {
    LowBits(a * Pow2(s), width)
  }

  /** Storing a wider word into a `uint8_t` keeps its low eight bits. */
  function LowByte(a: nat): uint8 {
    a % 0x100
  }

  // Sequences

  lemma {:induction false} PrefixOf<T>(s: seq<T>, n: nat)
    requires n < |s|
    ensures [s[0]] + s[1..][..n] == s[..n + 1]
  {
  }

  lemma {:induction false} TakeMore<T>(s: seq<T>, n: nat)
    requires n < |s|
    ensures s[..n + 1] == s[..n] + [s[n]]
  {
  }

  lemma {:induction false} SplitAt<T>(s: seq<T>, n: nat)
    requires n <= |s|
    ensures s[..n] + s[n..] == s && (n == |s| ==> s[n..] == [])
  {
  }

  lemma {:induction false} BehindFirst<T>(s: seq<T>, n: nat)
    requires 0 < n <= |s|
    ensures s[..n][0] == s[0] && s[..n][1..] == s[1..][..n - 1] && s[n..] == s[1..][n - 1..]
  {
  }

  lemma {:induction false} Regroup<T>(a: seq<T>, b: seq<T>, c: seq<T>)
    ensures a + (b + c) == a + b + c
  {
  }

  lemma {:induction false} ConsAppend<T>(s: seq<T>, t: seq<T>)
    requires s != []
    ensures [s[0]] + (s[1..] + t) == s + t
  {
  }

  lemma {:induction false} TailAppend<T>(s: seq<T>, t: seq<T>)
    requires s != []
    ensures (s + t)[0] == s[0] && (s + t)[1..] == s[1..] + t
  {
  }

  lemma {:induction false} Units<T>(s: seq<T>)
    ensures [] + s == s == s + []
  {
  }

  // Powers of two

  lemma {:induction false} PowMonotone(m: nat, n: nat)
    requires m <= n
    ensures Pow2(m) <= Pow2(n)
    decreases n - m
  {
    if m < n {
      PowMonotone(m + 1, n);
    }
  }

  lemma {:induction false} PowPlus7(n: nat)
    ensures Pow2(n + 7) == 128 * Pow2(n)
  {
    assert Pow2(n + 2) == 4 * Pow2(n);
    assert Pow2(n + 4) == 4 * Pow2(n + 2);
    assert Pow2(n + 6) == 4 * Pow2(n + 4);
  }

  lemma {:induction false} PowPlus8(n: nat)
    ensures Pow2(n + 8) == 0x100 * Pow2(n)
  {
    assert Pow2(n + 2) == 4 * Pow2(n);
    assert Pow2(n + 4) == 4 * Pow2(n + 2);
    assert Pow2(n + 6) == 4 * Pow2(n + 4);
  }

  lemma {:induction false} PowLiterals()
    ensures Pow2(7) == 0x80 && Pow2(8) == 0x100
    ensures Pow2(28) == 0x1000_0000 && Pow2(32) == 0x1_0000_0000
    ensures Pow2(63) == 0x8000_0000_0000_0000 && Pow2(64) == 0x1_0000_0000_0000_0000
  {
    PowPlus7(0);
    PowPlus7(7);
    PowPlus7(14);
    PowPlus7(21);
    PowPlus7(28);
    PowPlus7(35);
    PowPlus7(42);
    PowPlus7(49);
    PowPlus7(56);
    assert Pow2(32) == 16 * Pow2(28);
  }

  lemma {:induction false} MulGap(e: int, d: nat)
    ensures e >= 1 ==> e * d >= d
    ensures e <= -1 ==> e * d + d <= 0
  {
  }

  lemma {:induction false} MulAssoc(a: int, b: int, c: int)
    ensures a * (b * c) == a * b * c
  {
  }

  /** One more digit in a positional number. */
  lemma {:induction false} NextPlace(base: nat, first: nat, low: nat, digit: nat, p: nat, q: nat)
    requires q == base * p
    ensures first + base * (low + digit * p) == first + base * low + digit * q
  {
    MulAssoc(digit, base, p);
    MulAssoc(base, digit, p);
  }

  /** Quotient and remainder are determined by the equation that defines them. */
  lemma {:induction false} DivModUnique(a: nat, p: nat, q: nat, r: nat)
    requires a == r + p * q && r < p
    ensures a / p == q && a % p == r
  {
    var e := a / p - q;
    assert p * (a / p) + a % p == a;
    assert p * e == r - a % p;
    MulGap(e, p);
  }

  // Shifts and masks as arithmetic

  /** A number is its low bits and the bits above them. */
  lemma {:induction false} LowBitsSplit(a: nat, k: nat)
    ensures a == LowBits(a, k) + Pow2(k) * Shr(a, k)
    ensures LowBits(a, k) < Pow2(k)
    decreases k
  {
    if k > 0 {
      LowBitsSplit(a / 2, k - 1);
      MulAssoc(2, Pow2(k - 1), Shr(a, k));
    }
  }

  /** ... which are its remainder and its quotient. */
  lemma {:induction false} LowBitsModulus(a: nat, k: nat, p: nat)
    requires p == Pow2(k)
    ensures LowBits(a, k) == a % p && Shr(a, k) == a / p
  {
    LowBitsSplit(a, k);
    DivModUnique(a, p, Shr(a, k), LowBits(a, k));
  }

  lemma {:induction false} LowBitsSmall(a: nat, k: nat)
    requires a < Pow2(k)
    ensures LowBits(a, k) == a
    decreases k
  {
    if k > 0 {
      LowBitsSmall(a / 2, k - 1);
    }
  }

  /** Shifting in two stages. */
  lemma {:induction false} ShrSum(a: nat, m: nat, n: nat)
    ensures Shr(a, m + n) == Shr(Shr(a, m), n)
    decreases m
  {
    if m > 0 {
      ShrSum(a / 2, m - 1, n);
    }
  }

  lemma {:induction false} LowBitsSum(a: nat, m: nat, n: nat)
    ensures LowBits(a, m + n) == LowBits(a, m) + Pow2(m) * LowBits(Shr(a, m), n)
    decreases m
  {
    if m > 0 {
      LowBitsSum(a / 2, m - 1, n);
      MulAssoc(2, Pow2(m - 1), LowBits(Shr(a, m), n));
    }
  }

  /** Adding `a` above `s` low bits: only the low `k` bits of `a` stay in a word of `s + k` bits. */
  lemma {:induction false} LowBitsAbove(low: nat, a: nat, s: nat, k: nat)
    requires low < Pow2(s)
    ensures LowBits(low + a * Pow2(s), s + k) == low + LowBits(a, k) * Pow2(s)
    decreases s
  {
    if s > 0 {
      var half := Pow2(s - 1);
      LowBitsAbove(low / 2, a, s - 1, k);
      MulAssoc(a, half, 2);
      MulAssoc(LowBits(a, k), half, 2);
      assert (low + a * Pow2(s)) / 2 == low / 2 + a * half;
    }
  }

  // AND and OR as arithmetic

  lemma {:induction false} AndZero(a: nat)
    ensures And(a, 0) == 0
  {
    if a > 0 {
      AndZero(a / 2);
    }
  }

  lemma {:induction false} AndPow(a: nat, k: nat)
    ensures And(a, Pow2(k)) == 0 <==> Shr(a, k) % 2 == 0
    decreases k
  {
    if k == 0 {
      AndZero(a / 2);
    } else {
      AndPow(a / 2, k - 1);
    }
  }

  lemma {:induction false} AndMask(a: nat, k: nat)
    ensures And(a, Pow2(k) - 1) == LowBits(a, k)
    decreases k
  {
    if k == 0 {
      AndZero(a);
    } else {
      AndMask(a / 2, k - 1);
    }
  }

  /** `byte & 128` tests the continuation bit; `byte & 127` is the payload. */
  lemma {:induction false} AndByte(byte: uint8)
    ensures And(byte, 128) == 0 <==> byte < 128
    ensures And(byte, 127) == if byte < 128 then byte else byte - 128
  {
    PowLiterals();
    AndPow(byte, 7);
    AndMask(byte, 7);
    LowBitsModulus(byte, 7, 128);
  }

  lemma {:induction false} OrIdle(a: nat)
    ensures Or(0, a) == a
  {
    if a > 0 {
      OrIdle(a / 2);
    }
  }

  /** OR is addition where the operands have no bit in common. */
  lemma {:induction false} OrDisjoint(low: nat, high: nat, s: nat)
    requires low < Pow2(s)
    ensures Or(low, high * Pow2(s)) == low + high * Pow2(s)
    decreases s
  {
    if s == 0 {
      OrIdle(high);
    } else {
      var h := high * Pow2(s - 1);
      MulAssoc(high, Pow2(s - 1), 2);
      assert high * Pow2(s) == 2 * h;
      OrDisjoint(low / 2, high, s - 1);
    }
  }

  /** Accumulating a group of bits with `result |= a << s`: the sum, reduced to the word. */
  lemma {:induction false} OrShl(low: nat, a: nat, s: nat, width: nat)
    requires s <= width && low < Pow2(s)
    ensures Or(low, Shl(a, s, width)) == LowBits(low + a * Pow2(s), width)
  {
    LowBitsAbove(0, a, s, width - s);
    LowBitsAbove(low, a, s, width - s);
    OrDisjoint(low, LowBits(a, width - s), s);
  }

  lemma {:induction false} OrPow(a: nat, k: nat)
    ensures LowBits(Or(a, Pow2(k)), k + 1) == LowBits(a, k) + Pow2(k)
    decreases k
  {
    if k > 0 {
      OrPow(a / 2, k - 1);
    }
  }

  /** `v | 128` stored in a byte: the low seven bits with the continuation bit set. */
  lemma {:induction false} OrContinuationBit(v: nat)
    ensures LowByte(Or(v, 128)) == v % 128 + 128
  {
    PowLiterals();
    OrPow(v, 7);
    LowBitsModulus(v, 7, 128);
    LowBitsModulus(Or(v, 128), 8, 256);
  }
}
