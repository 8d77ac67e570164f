/** Unsigned machine words as natural numbers: shifts are divisions and
    multiplications by powers of two, masks are remainders, and exclusive or is
    defined bit by bit. */
module Bits {

  type byte = b: int | 0 <= b < 256
  const WORD := 0x1_0000_0000
  type word = w: int | 0 <= w < WORD

  // ---------- sequences ----------

  lemma Assoc<T>(a: seq<T>, b: seq<T>, c: seq<T>)
    ensures a + b + c == a + (b + c)
  {
  }

  function Flatten<T>(parts: seq<seq<T>>): seq<T> {
    if parts == [] then [] else parts[0] + Flatten(parts[1..])
  }

  function Zeros(n: nat): (z: seq<byte>)
    ensures |z| == n && forall i :: 0 <= i < n ==> z[i] == 0
  {
    seq<byte>(n, _ => 0)
  }

  function Min(a: int, b: int): int {
    if a < b then a else b
  }

  // ---------- words and bytes ----------

  /** The word whose bytes, most significant first, are a, b, c and d. */
  function Word(a: byte, b: byte, c: byte, d: byte): (w: word) {
    (a as int) * 0x100_0000 + (b as int) * 0x1_0000 + (c as int) * 256 + d as int
  }

  lemma DivideTwice(x: nat)
    ensures x / 0x1_0000 == x / 256 / 256
  {
  }

  lemma WordOfShifts(v: word)
    ensures v / 0x100_0000 < 256
    ensures Word(v / 0x100_0000, v / 0x1_0000 % 256, v / 256 % 256, v % 256) == v
  {
    var q := v / 256;
    DivideTwice(v);
    DivideTwice(q);
    assert v / 0x100_0000 == v / 0x1_0000 / 256 == q / 0x1_0000;
    assert v == 256 * q + v % 256 && q == 256 * (q / 256) + q % 256;
  }

  lemma ShiftsOfWord(a: byte, b: byte, c: byte, d: byte)
    ensures Word(a, b, c, d) / 0x100_0000 == a
    ensures Word(a, b, c, d) / 0x1_0000 % 256 == b
    ensures Word(a, b, c, d) / 256 % 256 == c
    ensures Word(a, b, c, d) % 256 == d
  {
    var w := Word(a, b, c, d);
    assert w / 0x1_0000 == (a as int) * 256 + b as int;
    assert w / 256 == (a as int) * 0x1_0000 + (b as int) * 256 + c as int;
  }

  /** Reads a big-endian word. */
  function Be(p: seq<byte>, at: nat): word
    requires at + 4 <= |p|
  {
    Word(p[at], p[at + 1], p[at + 2], p[at + 3])
  }

  lemma BeOfSlice(p: seq<byte>, at: nat)
    requires at + 4 <= |p|
    ensures Be(p, at) == Be(p[at..at + 4], 0)
  {
  }

  lemma BeInjective(p: seq<byte>, q: seq<byte>, at: nat)
    requires at + 4 <= |p| && at + 4 <= |q| && Be(p, at) == Be(q, at)
    ensures p[at..at + 4] == q[at..at + 4]
  {
    ShiftsOfWord(p[at], p[at + 1], p[at + 2], p[at + 3]);
    ShiftsOfWord(q[at], q[at + 1], q[at + 2], q[at + 3]);
  }

  /** Reads a little-endian word. */
  function Le(p: seq<byte>, at: nat): word
    requires at + 4 <= |p|
  {
    Word(p[at + 3], p[at + 2], p[at + 1], p[at])
  }

  /** Stores a big-endian word, byte by byte. */
  method StoreBe(p: array<byte>, at: nat, v: word)
    requires at + 4 <= p.Length
    modifies p
    ensures Be(p[..], at) == v
    ensures p[..at] == old(p[..at]) && p[at + 4..] == old(p[at + 4..])
  {
    WordOfShifts(v);
    p[at] := v / 0x100_0000;
    p[at + 1] := v / 0x1_0000 % 256;
    p[at + 2] := v / 256 % 256;
    p[at + 3] := v % 256;
  }

  method BytesOf(v: word) returns (b: seq<byte>)
    ensures |b| == 4 && Be(b, 0) == v
  {
    WordOfShifts(v);
    b := [v / 0x100_0000, v / 0x1_0000 % 256, v / 256 % 256, v % 256];
  }

  lemma SomeBytes(v: word) returns (b: seq<byte>)
    ensures |b| == 4 && Be(b, 0) == v
  {
    WordOfShifts(v);
    b := [v / 0x100_0000, v / 0x1_0000 % 256, v / 256 % 256, v % 256];
  }

  /** Two words make eight bytes. */
  lemma TwoWords(a: seq<byte>, b: seq<byte>)
    requires |a| == 4 && |b| == 4
    ensures Be(a + b, 0) == Be(a, 0) && Be(a + b, 4) == Be(b, 0)
    ensures Le(a + b, 0) == Le(a, 0) && Le(a + b, 4) == Le(b, 0)
    ensures (a + b)[..4] == a && (a + b)[4..8] == b
  {
  }

  method StoreLe(p: array<byte>, at: nat, v: word)
    requires at + 4 <= p.Length
    modifies p
    ensures Le(p[..], at) == v
    ensures p[..at] == old(p[..at]) && p[at + 4..] == old(p[at + 4..])
  {
    WordOfShifts(v);
    p[at] := v % 256;
    p[at + 1] := v / 256 % 256;
    p[at + 2] := v / 0x1_0000 % 256;
    p[at + 3] := v / 0x100_0000;
  }

  // ---------- signed variables ----------

  const TWO31 := 0x8000_0000
  const TWO63 := 0x8000_0000_0000_0000
  const TWO64 := 0x1_0000_0000_0000_0000

  /** The value of a 32-bit signed variable that x is assigned to. */
  function Long(x: int): int {
    if x % WORD < TWO31 then x % WORD else x % WORD - WORD
  }

  /** The same for 64 bits. */
  function Vlong(x: int): int {
    if x % TWO64 < TWO63 then x % TWO64 else x % TWO64 - TWO64
  }

  lemma VlongSmall(x: int)
    requires -TWO63 <= x < TWO63
    ensures Vlong(x) == x
  {
  }

  lemma VlongWraps(x: int)
    requires TWO63 <= x < TWO64
    ensures Vlong(x) == x - TWO64
  {
  }

  lemma LongPeriodic(x: int, q: int)
    ensures Long(x - q * WORD) == Long(x)
  {
  }

  lemma LongWraps(x: int)
    ensures Long(x - TWO64) == Long(x)
  {
    LongPeriodic(x, WORD);
  }

  lemma LongOfVlong(x: int)
    ensures Long(Vlong(x)) == Long(x)
  {
    LongPeriodic(x, x / TWO64 * WORD);
    LongWraps(x - x / TWO64 * TWO64);
  }

  lemma LongSmall(x: int)
    requires -TWO31 <= x < TWO31
    ensures Long(x) == x
  {
  }

  /** Which numbers a 32-bit variable shows as a count. */
  lemma LongIs(x: int, n: nat)
    requires n < TWO31
    ensures Long(x) == n <==> (x - n) % WORD == 0
  {
  }

  // ---------- shifts and exclusive or ----------

  // The termination measures mention a, so that a shift by a constant is not
  // unfolded bit by bit.
  function Shr(a: nat, k: nat): nat
    decreases k, a
  {
    if k == 0 then a else Shr(a / 2, k - 1)
  }

  function Shl(a: nat, k: nat): nat
    decreases k, a
  {
    if k == 0 then a else 2 * Shl(a, k - 1)
  }

  function Xor(a: nat, b: nat): nat
    decreases a + b
  {
    if a == 0 && b == 0 then 0
    else (if a % 2 == b % 2 then 0 else 1) + 2 * Xor(a / 2, b / 2)
  }

  lemma {:induction false} XorComm(a: nat, b: nat)
    ensures Xor(a, b) == Xor(b, a)
    decreases a + b
  {
    if a != 0 || b != 0 {
      XorComm(a / 2, b / 2);
    }
  }

  lemma {:induction false} XorZero(a: nat)
    ensures Xor(a, 0) == a == Xor(0, a)
  {
    if a != 0 {
      XorZero(a / 2);
    }
  }

  lemma {:induction false} XorSelf(a: nat)
    ensures Xor(a, a) == 0
  {
    if a != 0 {
      XorSelf(a / 2);
    }
  }

  lemma XorBit(a: nat, b: nat)
    ensures Xor(a, b) / 2 == Xor(a / 2, b / 2)
    ensures Xor(a, b) % 2 == if a % 2 == b % 2 then 0 else 1
  {
  }

  lemma {:induction false} XorAssoc(a: nat, b: nat, c: nat)
    ensures Xor(Xor(a, b), c) == Xor(a, Xor(b, c))
    decreases a + b + c
  {
    if a != 0 || b != 0 || c != 0 {
      XorAssoc(a / 2, b / 2, c / 2);
      XorBit(a, b);
      XorBit(b, c);
      XorBit(Xor(a, b), c);
      XorBit(a, Xor(b, c));
    }
  }

  lemma XorCancel(a: nat, b: nat)
    ensures Xor(Xor(a, b), b) == a
    ensures Xor(b, Xor(b, a)) == a
  {
    XorAssoc(a, b, b);
    XorAssoc(b, b, a);
    XorSelf(b);
    XorZero(a);
  }

  lemma XorInjective(a: nat, x: nat, y: nat)
    ensures Xor(a, x) == Xor(a, y) <==> x == y
    ensures Xor(x, a) == Xor(y, a) <==> x == y
  {
    XorCancel(x, a);
    XorCancel(y, a);
  }

  /** Dropping the low bits commutes with exclusive or. */
  lemma {:induction false} XorShr(a: nat, b: nat, k: nat)
    ensures Shr(Xor(a, b), k) == Xor(Shr(a, k), Shr(b, k))
    decreases k
  {
    if k > 0 {
      XorShr(a / 2, b / 2, k - 1);
      assert Xor(a, b) / 2 == Xor(a / 2, b / 2);
    }
  }

  lemma {:induction false} ShrAdd(a: nat, m: nat, n: nat)
    ensures Shr(Shr(a, m), n) == Shr(a, m + n)
    decreases m
  {
    if m > 0 {
      ShrAdd(a / 2, m - 1, n);
    }
  }

  lemma ShrNibble(a: nat)
    ensures Shr(a, 4) == a / 16
    ensures Shr(a, 3) == a / 8
  {
    ShrAdd(a, 2, 2);
    ShrAdd(a, 2, 1);
    assert Shr(a / 2, 1) == a / 4;
    assert Shr(a / 4 / 2, 1) == a / 16;
    assert Shr(a / 4, 1) == a / 8;
  }

  lemma ShrByte(a: nat)
    ensures Shr(a, 8) == a / 256
  {
    ShrNibble(a);
    ShrAdd(a, 4, 4);
    ShrNibble(a / 16);
  }

  lemma ShrHalfWord(a: nat)
    ensures Shr(a, 16) == a / 0x1_0000
  {
    ShrByte(a);
    ShrAdd(a, 8, 8);
    ShrByte(a / 256);
  }

  lemma ShrWord(a: nat)
    ensures Shr(a, 32) == a / WORD
  {
    ShrHalfWord(a);
    ShrAdd(a, 16, 16);
    ShrHalfWord(a / 0x1_0000);
  }

  lemma ShrSeven(a: nat)
    ensures Shr(a, 7) == a / 128
  {
    ShrAdd(a, 4, 3);
    ShrNibble(a);
    ShrNibble(a / 16);
  }

  lemma ShrTopBit(a: nat)
    ensures Shr(a, 31) == a / 0x8000_0000
  {
    ShrHalfWord(a);
    ShrAdd(a, 16, 15);
    ShrByte(a / 0x1_0000);
    ShrAdd(a / 0x1_0000, 8, 7);
    ShrSeven(a / 0x1_0000 / 256);
  }

  lemma XorWord(a: word, b: word)
    ensures Xor(a, b) < WORD
  {
    XorShr(a, b, 32);
    ShrWord(a);
    ShrWord(b);
    ShrWord(Xor(a, b));
  }

  /** Words with no bit in common add. */
  lemma {:induction false} XorDisjoint(lo: nat, hi: nat, k: nat)
    requires Shr(lo, k) == 0
    ensures Xor(lo, Shl(hi, k)) == lo + Shl(hi, k)
    decreases k
  {
    if k == 0 {
      XorZero(hi);
    } else {
      XorDisjoint(lo / 2, hi, k - 1);
      assert Shl(hi, k) / 2 == Shl(hi, k - 1);
    }
  }

  lemma ShlByte(a: nat)
    ensures Shl(a, 8) == 256 * a
  {
    assert Shl(a, 1) == 2 * a;
    assert Shl(a, 4) == 4 * Shl(a, 2);
    assert Shl(a, 6) == 4 * Shl(a, 4);
    assert Shl(a, 8) == 4 * Shl(a, 6);
  }

  lemma XorLowByte(lo: byte, hi: nat)
    ensures Xor(lo, 256 * hi) == lo + 256 * hi
  {
    ShrByte(lo);
    ShlByte(hi);
    XorDisjoint(lo, hi, 8);
  }

  lemma XorHighBytes(a: nat, b: byte)
    ensures Xor(a, b) / 256 == a / 256
  {
    XorShr(a, b, 8);
    ShrByte(a);
    ShrByte(b);
    ShrByte(Xor(a, b));
    XorZero(a / 256);
  }

  // ---------- fields of a word ----------

  function Pow2(k: nat): (p: nat)
    ensures 0 < p
  {
    if k == 0 then 1 else 2 * Pow2(k - 1)
  }

  lemma Pow2Byte(k: nat)
    ensures Pow2(k + 8) == 256 * Pow2(k)
  {
    assert Pow2(k + 4) == 2 * Pow2(k + 3) == 4 * Pow2(k + 2) == 8 * Pow2(k + 1);
    assert Pow2(k + 8) == 2 * Pow2(k + 7) == 4 * Pow2(k + 6) == 8 * Pow2(k + 5);
  }

  /** The low k bits. */
  function Low(a: nat, k: nat): nat
    decreases k, a
  {
    if k == 0 then 0 else a % 2 + 2 * Low(a / 2, k - 1)
  }

  function Or(a: nat, b: nat): nat
    decreases a + b
  {
    if a == 0 && b == 0 then 0
    else (if a % 2 == 0 && b % 2 == 0 then 0 else 1) + 2 * Or(a / 2, b / 2)
  }

  lemma {:induction false} OrZero(a: nat)
    ensures Or(a, 0) == a == Or(0, a)
  {
    if a != 0 {
      OrZero(a / 2);
    }
  }

  /** Fields with no bit in common add. */
  lemma {:induction false} OrDisjoint(lo: nat, hi: nat, k: nat)
    requires Shr(lo, k) == 0
    ensures Or(lo, Shl(hi, k)) == lo + Shl(hi, k)
    decreases k
  {
    if k == 0 {
      OrZero(hi);
    } else {
      OrDisjoint(lo / 2, hi, k - 1);
      assert Shl(hi, k) / 2 == Shl(hi, k - 1);
    }
  }

  lemma OrDoubled(lo: nat, hi: nat, q: nat)
    requires Or(lo / 2, hi * q) == lo / 2 + hi * q
    ensures Or(lo, hi * (2 * q)) == lo + hi * (2 * q)
  {
    DoubledFactor(hi, q);
  }

  predicate IsPow2(p: nat)
    decreases p
  {
    p == 1 || (p != 0 && p % 2 == 0 && IsPow2(p / 2))
  }

  lemma {:induction false} OrAbove(lo: nat, hi: nat, p: nat)
    requires IsPow2(p) && lo < p
    ensures Or(lo, hi * p) == lo + hi * p
    decreases p
  {
    if p == 1 {
      OrZero(hi);
    } else {
      var q := p / 2;
      OrAbove(lo / 2, hi, q);
      OrDoubled(lo, hi, q);
      assert p == 2 * q;
    }
  }

  lemma {:induction false} ShrLow(a: nat, k: nat)
    ensures Shr(Low(a, k), k) == 0
    decreases k
  {
    if k > 0 {
      ShrLow(a / 2, k - 1);
      assert Low(a, k) / 2 == Low(a / 2, k - 1);
    }
  }

  /** A field of a field. */
  lemma {:induction false} LowShrLow(a: nat, m: nat, l: nat, n: nat)
    requires l + n <= m
    ensures Low(Shr(Low(a, m), l), n) == Low(Shr(a, l), n)
    decreases m
  {
    if l > 0 {
      LowShrLow(a / 2, m - 1, l - 1, n);
      assert Low(a, m) / 2 == Low(a / 2, m - 1);
    } else {
      LowLow(a, m, n);
    }
  }

  lemma {:induction false} LowLow(a: nat, m: nat, n: nat)
    requires n <= m
    ensures Low(Low(a, m), n) == Low(a, n)
    decreases n
  {
    if n > 0 {
      LowLow(a / 2, m - 1, n - 1);
      assert Low(a, m) / 2 == Low(a / 2, m - 1) && Low(a, m) % 2 == a % 2;
    }
  }

  /** Adjacent fields make one field. */
  lemma {:induction false} LowSplit(a: nat, m: nat, n: nat)
    ensures Low(a, m + n) == Low(a, m) + Shl(Low(Shr(a, m), n), m)
    decreases m
  {
    if m > 0 {
      LowSplit(a / 2, m - 1, n);
    }
  }

  // ---------- shifts as arithmetic ----------

  lemma {:induction false} ShlIsMul(a: nat, k: nat)
    ensures Shl(a, k) == a * Pow2(k)
    decreases k
  {
    if k > 0 {
      ShlIsMul(a, k - 1);
      DoubledFactor(a, Pow2(k - 1));
    }
  }

  lemma DoubledFactor(x: nat, y: nat)
    ensures x * (2 * y) == 2 * (x * y)
  {
  }

  /** Every number is its high part, shifted back, plus its low part. */
  lemma {:induction false} HighAndLow(a: nat, k: nat)
    ensures a == Shr(a, k) * Pow2(k) + Low(a, k)
    ensures Low(a, k) < Pow2(k)
    decreases k
  {
    if k > 0 {
      HighAndLow(a / 2, k - 1);
      DoubledFactor(Shr(a / 2, k - 1), Pow2(k - 1));
    }
  }

  lemma {:induction false} ConcatParts(hi: nat, lo: nat, k: nat)
    requires Shr(lo, k) == 0
    ensures Shr(Shl(hi, k) + lo, k) == hi
    ensures Low(Shl(hi, k) + lo, k) == lo
    decreases k
  {
    if k > 0 {
      ConcatParts(hi, lo / 2, k - 1);
      assert (Shl(hi, k) + lo) / 2 == Shl(hi, k - 1) + lo / 2;
    }
  }

  lemma {:induction false} ShlAdd(a: nat, m: nat, n: nat)
    ensures Shl(Shl(a, m), n) == Shl(a, m + n)
    decreases n
  {
    if n > 0 {
      ShlAdd(a, m, n - 1);
    }
  }

  lemma {:induction false} ShlZero(k: nat)
    ensures Shl(0, k) == 0 == Shr(0, k)
  {
    if k > 0 {
      ShlZero(k - 1);
    }
  }

  lemma {:induction false} ShlPositive(a: nat, k: nat)
    requires 0 < a
    ensures 0 < Shl(a, k)
  {
    if k > 0 {
      ShlPositive(a, k - 1);
    }
  }

  lemma ShrOfShl(a: nat, m: nat)
    ensures Shr(Shl(a, m), m) == a && Low(Shl(a, m), m) == 0
  {
    ShlZero(m);
    ConcatParts(a, 0, m);
  }

  lemma ShrIsDiv(a: nat, k: nat)
    ensures Shr(a, k) == a / Pow2(k)
    ensures Low(a, k) == a % Pow2(k)
  {
    HighAndLow(a, k);
    DivUnique(a, Pow2(k), Shr(a, k), Low(a, k));
  }

  lemma DivUnique(a: nat, d: int, q: nat, r: nat)
    requires 0 < d && r < d && a == q * d + r
    ensures a / d == q && a % d == r
  {
    var x := a / d - q;
    assert x * d == a / d * d - q * d;
    assert -d < x * d < d;
    MulSmall(x, d);
  }

  lemma MulSmall(x: int, d: int)
    requires -d < x * d < d
    ensures x == 0
  {
  }
}
