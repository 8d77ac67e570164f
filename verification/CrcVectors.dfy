/** The register of Crc32 as a bit vector, on which long runs of steps can be evaluated.
    The values found here belong to the distances in a boot image's header (UImage). */
module CrcVectors {
  import opened Bits
  import opened Crc32

  // ---------- vectors ----------

  lemma XorHalf(a: bv32, b: bv32)
    ensures (a ^ b) / 2 == (a / 2) ^ (b / 2)
  {
  }

  lemma XorLow(a: bv32, b: bv32)
    ensures (a ^ b) & 1 != 0 <==> (a & 1 != 0) != (b & 1 != 0)
  {
  }

  lemma ShiftIsHalf(v: bv32)
    ensures v >> 1 == v / 2
  {
  }

  lemma OrHalf(a: bv32, b: bv32)
    requires a | b != 0
    ensures (a / 2) | (b / 2) < a | b
  {
  }

  lemma OrZero(a: bv32, b: bv32)
    requires a | b == 0
    ensures a == 0 && b == 0
  {
  }

  function Halved(v: bv32, k: nat): bv32
    decreases k
  {
    if k == 0 then v else Halved(v / 2, k - 1)
  }

  predicate LowClear(v: bv32, k: nat)
    decreases k
  {
    k == 0 || (v & 1 == 0 && LowClear(v / 2, k - 1))
  }

  lemma ByteHalved(v: bv32)
    ensures Halved(v, 8) == v / 256
  {
  }

  lemma ByteClear(v: bv32)
    requires LowClear(v, 8)
    ensures v & 0xff == 0
  {
  }

  lemma Below8(v: bv32)
    requires Halved(v, 8) == 0
    ensures v < 0x100
  {
  }

  lemma Below7(v: bv32)
    requires Halved(v, 7) == 0
    ensures v < 0x80
  {
  }

  lemma Below16(v: bv32)
    requires v / 256 < 0x100
    ensures v < 0x1_0000
  {
  }

  lemma Below24(v: bv32)
    requires v / 256 < 0x1_0000
    ensures v < 0x100_0000
  {
  }

  lemma Below15(v: bv32)
    requires v / 256 < 0x80
    ensures v < 0x8000
  {
  }

  lemma Below23(v: bv32)
    requires v / 256 < 0x8000
    ensures v < 0x80_0000
  {
  }

  lemma NoTopBit(v: bv32)
    requires v / 256 < 0x80_0000
    ensures v * 2 / 2 == v
  {
  }

  lemma DoubledLow(v: bv32)
    ensures (v * 2) & 1 == 0 && ((v * 2) | 1) & 1 != 0
  {
  }

  lemma Doubled(v: bv32)
    requires v * 2 / 2 == v
    ensures ((v * 2) | 1) / 2 == v
  {
  }

  // ---------- vectors and numbers ----------

  function Val(v: bv32): nat
    decreases v
  {
    if v == 0 then 0 else (if v & 1 != 0 then 1 else 0) + 2 * Val(v / 2)
  }

  lemma ValHalf(v: bv32)
    ensures Val(v / 2) == Val(v) / 2 && (Val(v) % 2 != 0 <==> v & 1 != 0)
  {
  }

  lemma {:induction false} ValZero(v: bv32)
    requires Val(v) == 0
    ensures v == 0
    decreases v
  {
    if v != 0 {
      ValZero(v / 2);
    }
  }

  lemma XorFromHalves(x: nat, y: nat, z: nat)
    requires z / 2 == Xor(x / 2, y / 2)
    requires z % 2 != 0 <==> (x % 2 != 0) != (y % 2 != 0)
    ensures z == Xor(x, y)
  {
  }

  lemma ValXorStep(a: bv32, b: bv32)
    requires Val((a / 2) ^ (b / 2)) == Xor(Val(a / 2), Val(b / 2))
    ensures Val(a ^ b) == Xor(Val(a), Val(b))
  {
    XorHalf(a, b);
    XorLow(a, b);
    ValHalf(a);
    ValHalf(b);
    ValHalf(a ^ b);
    XorFromHalves(Val(a), Val(b), Val(a ^ b));
  }

  lemma {:induction false} ValXor(a: bv32, b: bv32)
    ensures Val(a ^ b) == Xor(Val(a), Val(b))
    decreases a | b
  {
    if a | b != 0 {
      OrHalf(a, b);
      ValXor(a / 2, b / 2);
      ValXorStep(a, b);
    } else {
      OrZero(a, b);
    }
  }

  lemma {:induction false} ValHalved(v: bv32, k: nat)
    ensures Val(Halved(v, k)) == Shr(Val(v), k)
    decreases k
  {
    if k > 0 {
      ValHalf(v);
      ValHalved(v / 2, k - 1);
    }
  }

  lemma ValByte(v: bv32)
    ensures Val(v / 256) == Val(v) / 256
  {
    ByteHalved(v);
    ValHalved(v, 8);
    ShrByte(Val(v));
  }

  lemma {:induction false} ValClear(v: bv32, k: nat)
    requires Val(v) % Pow2(k) == 0
    ensures LowClear(v, k)
    decreases k
  {
    if k > 0 {
      ValHalf(v);
      EvenHalf(Val(v), Pow2(k - 1));
      ValClear(v / 2, k - 1);
    }
  }

  lemma EvenHalf(x: nat, p: nat)
    requires p > 0 && x % (2 * p) == 0
    ensures x % 2 == 0 && x / 2 % p == 0
  {
    var q := x / (2 * p);
    assert x == q * p * 2 by {
      assert x == q * (2 * p);
    }
    DivUnique(x / 2, p, q, 0);
  }

  // ---------- steps ----------

  function St(c: bv32): bv32 {
    if c & 1 != 0 then 0xedb88320 ^ (c >> 1) else c >> 1
  }

  lemma PolyVal()
    ensures Val(0xedb88320) == POLY
  {
    assert Val(0xed) == 0xed;
    assert Val(0xedb8) == 0xedb8;
    assert Val(0xedb883) == 0xedb883;
  }

  lemma ValSt(c: bv32)
    ensures Val(St(c)) == Step(Val(c))
  {
    ShiftIsHalf(c);
    ValHalf(c);
    PolyVal();
    ValXor(0xedb88320, c / 2);
  }

  // ---------- small values ----------

  lemma SmallHalved(v: bv32, k: nat)
    requires Val(v) < Pow2(k)
    ensures Halved(v, k) == 0
  {
    ValHalved(v, k);
    ShrIsDiv(Val(v), k);
    ValZero(Halved(v, k));
  }

  lemma Small8(v: bv32)
    requires Val(v) < 0x100
    ensures v < 0x100
  {
    SmallHalved(v, 8);
    Below8(v);
  }

  lemma Small16(v: bv32)
    requires Val(v) < 0x1_0000
    ensures v < 0x1_0000
  {
    ValByte(v);
    Small8(v / 256);
    Below16(v);
  }

  lemma Small24(v: bv32)
    requires Val(v) < 0x100_0000
    ensures v < 0x100_0000
  {
    ValByte(v);
    Small16(v / 256);
    Below24(v);
  }

  lemma Small7(v: bv32)
    requires Val(v) < 0x80
    ensures v < 0x80
  {
    SmallHalved(v, 7);
    Below7(v);
  }

  lemma Small15(v: bv32)
    requires Val(v) < 0x8000
    ensures v < 0x8000
  {
    ValByte(v);
    Small7(v / 256);
    Below15(v);
  }

  lemma Small23(v: bv32)
    requires Val(v) < 0x80_0000
    ensures v < 0x80_0000
  {
    ValByte(v);
    Small15(v / 256);
    Below23(v);
  }

  lemma Small31(v: bv32)
    requires Val(v) < 0x8000_0000
    ensures v * 2 / 2 == v
  {
    ValByte(v);
    Small23(v / 256);
    NoTopBit(v);
  }

  /** Every word is the value of a vector. */
  lemma {:induction false} VectorOf(w: nat) returns (v: bv32)
    requires w < WORD
    ensures Val(v) == w
    decreases w
  {
    if w == 0 {
      v := 0;
    } else {
      var half := VectorOf(w / 2);
      Small31(half);
      Doubled(half);
      DoubledLow(half);
      v := if w % 2 == 1 then (half * 2) | 1 else half * 2;
      ValHalf(v);
    }
  }

  // ---------- long runs ----------

  /** 2^k steps. */
  function Run(c: bv32, k: nat): bv32
    decreases k
  {
    if k == 0 then St(c) else Run(Run(c, k - 1), k - 1)
  }

  lemma {:induction false} ValRun(c: bv32, k: nat)
    ensures Val(Run(c, k)) == Steps(Val(c), Pow2(k))
    decreases k
  {
    if k == 0 {
      ValSt(c);
      assert Steps(Step(Val(c)), 0) == Step(Val(c));
    } else {
      ValRun(c, k - 1);
      ValRun(Run(c, k - 1), k - 1);
      StepsAdd(Val(c), Pow2(k - 1), Pow2(k - 1));
    }
  }

  // X448 and X488 are what 0x80 becomes after so many steps; G504 and G448 become
  // 0x8000_0000 and 0x80.

  const X448: bv32 := 0x1101d988
  const X488: bv32 := 0x88d14467
  const G504: bv32 := 0xf3e84896
  const G448: bv32 := 0xac5c4721

  lemma BitHalf(c: bv32, i: nat)
    requires c == 0x00000080 && i == 8
    ensures Run(c, i) == 0xeacb7748
  {
    assert Run(0x00000080, 8) == 0xeacb7748;
  }

  lemma BitRest(c: bv32, i: nat, j: nat)
    requires c == 0xeacb7748 && i == 7 && j == 6
    ensures Run(Run(c, i), j) == 0x1101d988
  {
    assert Run(0xeacb7748, 7) == 0xd9040692;
    assert Run(0xd9040692, 6) == 0x1101d988;
  }

  lemma BitMore(c: bv32, i: nat, j: nat)
    requires c == 0x1101d988 && i == 5 && j == 3
    ensures Run(Run(c, i), j) == 0x88d14467
  {
    assert Run(0x1101d988, 5) == 0xd91e81d8;
    assert Run(0xd91e81d8, 3) == 0x88d14467;
  }

  lemma Back504Half(c: bv32, i: nat)
    requires c == 0xf3e84896 && i == 8
    ensures Run(c, i) == 0x58e5b551
  {
    assert Run(0xf3e84896, 8) == 0x58e5b551;
  }

  lemma Back504Middle(c: bv32, i: nat, j: nat, k: nat)
    requires c == 0x58e5b551 && i == 7 && j == 6 && k == 5
    ensures Run(Run(Run(c, i), j), k) == 0x1f81b6e1
  {
    assert Run(0x58e5b551, 7) == 0x0f125cae;
    assert Run(0x0f125cae, 6) == 0x97fc423c;
    assert Run(0x97fc423c, 5) == 0x1f81b6e1;
  }

  lemma Back504Rest(c: bv32, i: nat, j: nat)
    requires c == 0x1f81b6e1 && i == 4 && j == 3
    ensures Run(Run(c, i), j) == 0x80000000
  {
    assert Run(0x1f81b6e1, 4) == 0x6567cb95;
    assert Run(0x6567cb95, 3) == 0x80000000;
  }

  lemma Back448Half(c: bv32, i: nat)
    requires c == 0xac5c4721 && i == 8
    ensures Run(c, i) == 0x8f2fe471
  {
    assert Run(0xac5c4721, 8) == 0x8f2fe471;
  }

  lemma Back448Rest(c: bv32, i: nat, j: nat)
    requires c == 0x8f2fe471 && i == 7 && j == 6
    ensures Run(Run(c, i), j) == 0x00000080
  {
    assert Run(0x8f2fe471, 7) == 0xeb21cebf;
    assert Run(0xeb21cebf, 6) == 0x00000080;
  }

  lemma Pair448Half(c: bv32, i: nat)
    requires c == 0x00000d55 && i == 8
    ensures Run(c, i) == 0xaa2bc7d0
  {
    assert Run(0x00000d55, 8) == 0xaa2bc7d0;
  }

  lemma Pair448Rest(c: bv32, i: nat, j: nat)
    requires c == 0xaa2bc7d0 && i == 7 && j == 6
    ensures Run(Run(c, i), j) == 0x00006aef
  {
    assert Run(0xaa2bc7d0, 7) == 0x20ceeabd;
    assert Run(0x20ceeabd, 6) == 0x00006aef;
  }

  lemma Pair496Half(c: bv32, i: nat)
    requires c == 0x000048da && i == 8
    ensures Run(c, i) == 0x2101e50e
  {
    assert Run(0x000048da, 8) == 0x2101e50e;
  }

  lemma Pair496Middle(c: bv32, i: nat, j: nat)
    requires c == 0x2101e50e && i == 7 && j == 6
    ensures Run(Run(c, i), j) == 0xea9ec0e7
  {
    assert Run(0x2101e50e, 7) == 0xec5b8e7e;
    assert Run(0xec5b8e7e, 6) == 0xea9ec0e7;
  }

  lemma Pair496Rest(c: bv32, i: nat, j: nat)
    requires c == 0xea9ec0e7 && i == 5 && j == 4
    ensures Run(Run(c, i), j) == 0x1bbe0000
  {
    assert Run(0xea9ec0e7, 5) == 0x751a4333;
    assert Run(0x751a4333, 4) == 0x1bbe0000;
  }

  // ---------- combinations ----------

  lemma XorInto(p: nat, x: nat, y: nat)
    ensures Xor(p, Xor(x, y)) == Xor(Xor(p, x), y) == Xor(x, Xor(p, y))
    ensures Xor(Xor(p, x), Xor(p, y)) == Xor(x, y)
  {
    XorAssoc(p, x, y);
    XorAssoc(x, p, y);
    XorComm(p, x);
    XorAssoc(x, p, Xor(p, y));
    XorAssoc(p, p, y);
    XorSelf(p);
    XorZero(y);
    XorComm(0, y);
  }

  lemma StepXor(a: nat, b: nat)
    ensures Step(Xor(a, b)) == Xor(Step(a), Step(b))
  {
    XorBit(a, b);
    XorInto(POLY, a / 2, b / 2);
  }

  lemma {:induction false} StepsXor(a: nat, b: nat, n: nat)
    ensures Steps(Xor(a, b), n) == Xor(Steps(a, n), Steps(b, n))
    decreases n
  {
    if n > 0 {
      StepXor(a, b);
      StepsXor(Step(a), Step(b), n - 1);
    }
  }

  lemma {:induction false} StepsZero(n: nat)
    ensures Steps(0, n) == 0
    decreases n
  {
    if n > 0 {
      StepsZero(n - 1);
    }
  }

  function Bit(k: nat): bv32
    decreases k
  {
    if k == 0 then 1 else Bit(k - 1) * 2
  }

  /** The lowest k bits of c choose from g and what follows it. */
  function Comb(c: bv32, g: bv32, k: nat): bv32
    decreases k
  {
    if k == 0 then 0 else St(Comb(c, g, k - 1)) ^ if c & Bit(k - 1) != 0 then g else 0
  }

  function CombVal(c: bv32, g: nat, k: nat): nat
    decreases k, g
  {
    if k == 0 then 0 else Xor(Step(CombVal(c, g, k - 1)), if c & Bit(k - 1) != 0 then g else 0)
  }

  lemma ValNext(x: bv32, y: bv32)
    ensures Val(St(x) ^ y) == Xor(Step(Val(x)), Val(y))
  {
    ValSt(x);
    ValXor(St(x), y);
  }

  lemma {:induction false} ValComb(c: bv32, g: bv32, k: nat)
    ensures Val(Comb(c, g, k)) == CombVal(c, Val(g), k)
    decreases k
  {
    if k > 0 {
      ValComb(c, g, k - 1);
      ValNext(Comb(c, g, k - 1), if c & Bit(k - 1) != 0 then g else 0);
    }
  }

  lemma {:induction false} StepsCombVal(c: bv32, g: nat, k: nat, n: nat)
    ensures Steps(CombVal(c, g, k), n) == CombVal(c, Steps(g, n), k)
    decreases k
  {
    StepsZero(n);
    if k > 0 {
      var x, y := CombVal(c, g, k - 1), if c & Bit(k - 1) != 0 then g else 0;
      StepsCombVal(c, g, k - 1, n);
      StepsAdd(x, 1, n);
      StepsAdd(x, n, 1);
      assert Steps(x, 1) == Step(x) && Steps(Steps(x, n), 1) == Step(Steps(x, n));
      StepsXor(Step(x), y, n);
    }
  }

  lemma StepsComb(c: bv32, g: bv32, h: bv32, k: nat, n: nat)
    requires Steps(Val(g), n) == Val(h)
    ensures Steps(Val(Comb(c, g, k)), n) == Val(Comb(c, h, k))
  {
    ValComb(c, g, k);
    ValComb(c, h, k);
    StepsCombVal(c, Val(g), k, n);
  }

  lemma CombLow(c: bv32, k: nat)
    requires c < 0x100 && k == 8
    ensures Comb(c, 0x80, k) == c
  {
    assert Comb(c, 0x80, 8) == c;
  }

  lemma CombHigh(c: bv32, k: nat)
    requires c < 0x100 && k == 8
    ensures Comb(c, 0x8000_0000, k) == c * 0x100_0000
  {
    assert Comb(c, 0x8000_0000, 8) == c * 0x100_0000;
  }

  lemma Kernel488(c: bv32, k: nat)
    requires c < 0x100 && k == 8 && Comb(c, X488, k) & 0xff == 0
    ensures c == 0
  {
    assert Comb(c, X488, 8) & 0xff == 0;
  }

  lemma Kernel448(c: bv32, k: nat)
    requires c < 0x100 && k == 8 && Comb(c, X448, k) < 0x1_0000
    ensures c == 0
  {
    assert Comb(c, X448, 8) < 0x1_0000;
  }

  lemma KernelBack504(c: bv32, k: nat)
    requires c < 0x100 && k == 8 && Comb(c, G504, k) < 0x100_0000
    ensures c == 0
  {
    assert Comb(c, G504, 8) < 0x100_0000;
  }

  lemma KernelBack448(c: bv32, k: nat)
    requires c < 0x100 && k == 8 && Comb(c, G448, k) < 0x1_0000
    ensures c == 0
  {
    assert Comb(c, G448, 8) < 0x1_0000;
  }

  lemma Example5(c: bv32, k: nat)
    requires c == 0xe1 && k == 8
    ensures Comb(c, X448, k) == 0x5450f9
  {
    assert Comb(0xe1, X448, 8) == 0x5450f9;
  }

  lemma Example7(c: bv32, k: nat)
    requires c == 0xc8 && k == 8
    ensures Comb(c, G448, k) == 0xb83387
  {
    assert Comb(0xc8, G448, 8) == 0xb83387;
  }

  // ---------- the distances in a header ----------

  lemma ThenRun(x: nat, m: nat, v: bv32, k: nat, n: nat)
    requires Val(v) == Steps(x, m) && n == m + Pow2(k)
    ensures Val(Run(v, k)) == Steps(x, n)
  {
    ValRun(v, k);
    StepsAdd(x, m, Pow2(k));
  }

  lemma {:induction false} Powers(k: nat)
    requires 3 <= k <= 8
    ensures Pow2(k) == if k == 3 then 8 else if k == 4 then 16 else if k == 5 then 32 else
      if k == 6 then 64 else if k == 7 then 128 else 256
    decreases k
  {
    if k > 3 {
      Powers(k - 1);
    } else {
      assert Pow2(k) == 2 * (2 * (2 * Pow2(k - 3)));
    }
  }

  /** Run after run: a run of 2^ks[0] steps, and so on. */
  function Runs(v: bv32, ks: seq<nat>): bv32
    decreases |ks|
  {
    if ks == [] then v else Runs(Run(v, ks[0]), ks[1..])
  }

  function Total(ks: seq<nat>): nat
    decreases |ks|
  {
    if ks == [] then 0 else Pow2(ks[0]) + Total(ks[1..])
  }

  lemma {:induction false} ValRuns(x: nat, m: nat, v: bv32, ks: seq<nat>, n: nat)
    requires Val(v) == Steps(x, m) && n == m + Total(ks)
    ensures Val(Runs(v, ks)) == Steps(x, n)
    decreases |ks|
  {
    if ks != [] {
      var m' := m + Pow2(ks[0]);
      ThenRun(x, m, v, ks[0], m');
      ValRuns(x, m', Run(v, ks[0]), ks[1..], n);
    }
  }

  lemma FromStart(v: bv32, w: bv32, ks: seq<nat>, n: nat)
    requires Runs(v, ks) == w && n == Total(ks)
    ensures Steps(Val(v), n) == Val(w)
  {
    ValRuns(Val(v), 0, v, ks, n);
  }

  lemma OnePlace(v: bv32, ks: seq<nat>)
    requires ks != []
    ensures Runs(v, ks) == Runs(Run(v, ks[0]), ks[1..]) && Total(ks) == Pow2(ks[0]) + Total(ks[1..])
  {
  }

  lemma Runs2(v: bv32, ks: seq<nat>)
    requires |ks| == 2
    ensures Runs(v, ks) == Run(Run(v, ks[0]), ks[1])
    ensures Total(ks) == Pow2(ks[0]) + Pow2(ks[1])
  {
    OnePlace(v, ks);
    assert ks[1..][1..] == [];
    OnePlace(Run(v, ks[0]), ks[1..]);
  }

  lemma Runs3(v: bv32, ks: seq<nat>)
    requires |ks| == 3
    ensures Runs(v, ks) == Run(Run(Run(v, ks[0]), ks[1]), ks[2])
    ensures Total(ks) == Pow2(ks[0]) + Pow2(ks[1]) + Pow2(ks[2])
  {
    OnePlace(v, ks);
    Runs2(Run(v, ks[0]), ks[1..]);
  }

  lemma Runs5(v: bv32, ks: seq<nat>)
    requires |ks| == 5
    ensures Runs(v, ks) == Run(Run(Run(Run(Run(v, ks[0]), ks[1]), ks[2]), ks[3]), ks[4])
    ensures Total(ks) == Pow2(ks[0]) + Pow2(ks[1]) + Pow2(ks[2]) + Pow2(ks[3]) + Pow2(ks[4])
  {
    OnePlace(v, ks);
    Runs3(Run(Run(v, ks[0]), ks[1]), ks[1..][1..]);
    OnePlace(Run(v, ks[0]), ks[1..]);
  }

  lemma Runs6(v: bv32, ks: seq<nat>)
    requires |ks| == 6
    ensures Runs(v, ks) == Run(Run(Run(Run(Run(Run(v, ks[0]), ks[1]), ks[2]), ks[3]), ks[4]), ks[5])
    ensures Total(ks) == Pow2(ks[0]) + Pow2(ks[1]) + Pow2(ks[2]) + Pow2(ks[3]) + Pow2(ks[4]) + Pow2(ks[5])
  {
    OnePlace(v, ks);
    Runs5(Run(v, ks[0]), ks[1..]);
  }

  lemma Sum876(a: nat, b: nat, c: nat)
    requires a == 8 && b == 7 && c == 6
    ensures Pow2(a) + Pow2(b) + Pow2(c) == 448
  {
    Powers(a);
    Powers(b);
    Powers(c);
  }

  lemma Sum54(a: nat, b: nat)
    requires a == 5 && b == 4
    ensures Pow2(a) + Pow2(b) == 48
  {
    Powers(a);
    Powers(b);
  }

  lemma Sum3(a: nat)
    requires a == 3
    ensures Pow2(a) == 8
  {
    Powers(a);
  }

  lemma Total448(v: bv32, ks: seq<nat>)
    requires ks == [8, 7, 6]
    ensures Total(ks) == 448
  {
    Runs3(v, ks);
    Sum876(ks[0], ks[1], ks[2]);
  }

  lemma Total496(v: bv32, ks: seq<nat>)
    requires ks == [8, 7, 6, 5, 4]
    ensures Total(ks) == 496
  {
    Runs5(v, ks);
    Sum876(ks[0], ks[1], ks[2]);
    Sum54(ks[3], ks[4]);
  }

  lemma Total504(v: bv32, ks: seq<nat>)
    requires ks == [8, 7, 6, 5, 4, 3]
    ensures Total(ks) == 504
  {
    Runs6(v, ks);
    Sum876(ks[0], ks[1], ks[2]);
    Sum54(ks[3], ks[4]);
    Sum3(ks[5]);
  }

  lemma ValueBitMore(v: bv32, ks: seq<nat>, n: nat)
    requires v == 0x80 && ks == [8, 7, 6, 5, 3] && n == 488
    ensures Steps(Val(v), n) == Val(X488)
  {
    RunsBitMore(v, ks);
    Total488(v, ks);
    FromStart(v, X488, ks, n);
  }

  lemma Total488(v: bv32, ks: seq<nat>)
    requires ks == [8, 7, 6, 5, 3]
    ensures Total(ks) == 488
  {
    Runs5(v, ks);
    Sum876(ks[0], ks[1], ks[2]);
    Sum3(ks[4]);
    Powers(ks[3]);
  }

  lemma RunsBitMore(v: bv32, ks: seq<nat>)
    requires v == 0x80 && ks == [8, 7, 6, 5, 3]
    ensures Runs(v, ks) == X488
  {
    BitHalf(v, ks[0]);
    BitRest(Run(v, ks[0]), ks[1], ks[2]);
    BitMore(X448, ks[3], ks[4]);
    Runs5(v, ks);
  }

  lemma RunsBit(v: bv32, ks: seq<nat>)
    requires v == 0x80 && ks == [8, 7, 6]
    ensures Runs(v, ks) == X448
  {
    BitHalf(v, ks[0]);
    BitRest(Run(v, ks[0]), ks[1], ks[2]);
    Runs3(v, ks);
  }

  lemma ValueBit(v: bv32, ks: seq<nat>, n: nat)
    requires v == 0x80 && ks == [8, 7, 6] && n == 448
    ensures Steps(Val(v), n) == Val(X448)
  {
    RunsBit(v, ks);
    Total448(v, ks);
    FromStart(v, X448, ks, n);
  }

  lemma RunsBack448(v: bv32, ks: seq<nat>)
    requires v == G448 && ks == [8, 7, 6]
    ensures Runs(v, ks) == 0x80
  {
    Back448Half(v, ks[0]);
    Back448Rest(Run(v, ks[0]), ks[1], ks[2]);
    Runs3(v, ks);
  }

  lemma ValueBack448(v: bv32, ks: seq<nat>, n: nat)
    requires v == G448 && ks == [8, 7, 6] && n == 448
    ensures Steps(Val(v), n) == Val(0x80)
  {
    RunsBack448(v, ks);
    Total448(v, ks);
    FromStart(v, 0x80, ks, n);
  }

  lemma RunsPair448(v: bv32, ks: seq<nat>)
    requires v == 0x0d55 && ks == [8, 7, 6]
    ensures Runs(v, ks) == 0x6aef
  {
    Pair448Half(v, ks[0]);
    Pair448Rest(Run(v, ks[0]), ks[1], ks[2]);
    Runs3(v, ks);
  }

  lemma ValuePair448(v: bv32, ks: seq<nat>, n: nat)
    requires v == 0x0d55 && ks == [8, 7, 6] && n == 448
    ensures Steps(Val(v), n) == Val(0x6aef)
  {
    RunsPair448(v, ks);
    Total448(v, ks);
    FromStart(v, 0x6aef, ks, n);
  }

  lemma RunsBack504(v: bv32, ks: seq<nat>)
    requires v == G504 && ks == [8, 7, 6, 5, 4, 3]
    ensures Runs(v, ks) == 0x8000_0000
  {
    Back504Half(v, ks[0]);
    Back504Middle(Run(v, ks[0]), ks[1], ks[2], ks[3]);
    Back504Rest(Run(Run(Run(Run(v, ks[0]), ks[1]), ks[2]), ks[3]), ks[4], ks[5]);
    Runs6(v, ks);
  }

  lemma ValueBack504(v: bv32, ks: seq<nat>, n: nat)
    requires v == G504 && ks == [8, 7, 6, 5, 4, 3] && n == 504
    ensures Steps(Val(v), n) == Val(0x8000_0000)
  {
    RunsBack504(v, ks);
    Total504(v, ks);
    FromStart(v, 0x8000_0000, ks, n);
  }

  lemma RunsPair496(v: bv32, ks: seq<nat>)
    requires v == 0x48da && ks == [8, 7, 6, 5, 4]
    ensures Runs(v, ks) == 0x1bbe_0000
  {
    Pair496Half(v, ks[0]);
    Pair496Middle(Run(v, ks[0]), ks[1], ks[2]);
    Pair496Rest(Run(Run(Run(v, ks[0]), ks[1]), ks[2]), ks[3], ks[4]);
    Runs5(v, ks);
  }

  lemma ValuePair496(v: bv32, ks: seq<nat>, n: nat)
    requires v == 0x48da && ks == [8, 7, 6, 5, 4] && n == 496
    ensures Steps(Val(v), n) == Val(0x1bbe_0000)
  {
    RunsPair496(v, ks);
    Total496(v, ks);
    FromStart(v, 0x1bbe_0000, ks, n);
  }

  // ---------- what damage looks like at the other end ----------

  lemma ByteGone(v: bv32)
    requires v < 0x100
    ensures v / 256 == 0
  {
  }

  lemma Half16(v: bv32)
    requires v < 0x1_0000
    ensures v / 256 < 0x100
  {
  }

  lemma Half24(v: bv32)
    requires v < 0x100_0000
    ensures v / 256 < 0x1_0000
  {
  }

  lemma Half32(v: bv32)
    ensures v / 256 < 0x100_0000
  {
  }

  lemma ValBelow8(v: bv32)
    requires v < 0x100
    ensures Val(v) < 0x100
  {
    ByteGone(v);
    ValByte(v);
  }

  lemma ValBelow16(v: bv32)
    requires v < 0x1_0000
    ensures Val(v) < 0x1_0000
  {
    Half16(v);
    ValByte(v);
    ValBelow8(v / 256);
  }

  lemma ValBelow24(v: bv32)
    requires v < 0x100_0000
    ensures Val(v) < 0x100_0000
  {
    Half24(v);
    ValByte(v);
    ValBelow16(v / 256);
  }

  lemma ValWord(v: bv32)
    ensures Val(v) < WORD
  {
    Half32(v);
    ValByte(v);
    ValBelow24(v / 256);
  }

  lemma LowByte(v: bv32)
    requires Val(v) % 256 == 0
    ensures v & 0xff == 0
  {
    ValClear(v, 8);
    ByteClear(v);
  }

  lemma Divides(x: nat, q: nat)
    ensures x == 0x1_0000 * q ==> x % 256 == 0 && x / 256 % 256 == 0
    ensures x == 0x100_0000 * q ==> x % 256 == 0 && x / 256 % 0x1_0000 == 0
  {
    if x == 0x1_0000 * q {
      assert x / 256 == 256 * q;
    }
    if x == 0x100_0000 * q {
      assert x / 256 == 0x1_0000 * q;
    }
  }

  lemma LowTwo(v: bv32)
    requires Val(v) % 0x1_0000 == 0
    ensures v & 0xff == 0 && (v / 256) & 0xff == 0
  {
    Divides(Val(v), Val(v) / 0x1_0000);
    ValByte(v);
    LowByte(v);
    LowByte(v / 256);
  }

  lemma LowThree(v: bv32)
    requires Val(v) % 0x100_0000 == 0
    ensures v & 0xff == 0 && (v / 256) & 0xff == 0 && (v / 256 / 256) & 0xff == 0
  {
    Divides(Val(v), Val(v) / 0x100_0000);
    ValByte(v);
    LowByte(v);
    LowTwo(v / 256);
  }

  lemma ThreeClear(v: bv32)
    requires v & 0xff == 0 && (v / 256) & 0xff == 0 && (v / 256 / 256) & 0xff == 0
    ensures v / 0x100_0000 * 0x100_0000 == v && v / 0x100_0000 < 0x100
  {
  }

  /** A byte that is 448 steps away from the end shows above the lowest two bytes. */
  lemma OneByteAfter(d: nat, n: nat)
    requires d < 256 && n == 448 && Steps(d, n) < 0x1_0000
    ensures d == 0
  {
    var ks: seq<nat> :| ks == [8, 7, 6];
    var k: nat :| k == 8;
    var v := VectorOf(d);
    Small8(v);
    CombLow(v, k);
    ValueBit(0x80, ks, n);
    StepsComb(v, 0x80, X448, k, n);
    Small16(Comb(v, X448, k));
    Kernel448(v, k);
  }

  /** Two bytes 448 steps away show above the lowest byte. */
  lemma TwoBytesAfter(d: nat, n: nat)
    requires d < 0x1_0000 && n == 448 && Steps(d, n) < 256
    ensures d == 0
  {
    var ks: seq<nat> :| ks == [8, 7, 6];
    var k: nat :| k == 8;
    var u := VectorOf(Steps(d, n));
    Small8(u);
    CombLow(u, k);
    ValueBack448(G448, ks, n);
    StepsComb(u, G448, 0x80, k, n);
    var v := Comb(u, G448, k);
    ValWord(v);
    StepsInjective(Val(v), d, n);
    Small16(v);
    KernelBack448(u, k);
    StepsZero(n);
    StepsInjective(d, 0, n);
  }

  /** Three bytes 504 steps away show below the highest byte. */
  lemma ThreeBytesBefore(d: nat, n: nat)
    requires d < 0x100_0000 && n == 504 && Steps(d, n) % 0x100_0000 == 0
    ensures d == 0
  {
    var ks: seq<nat> :| ks == [8, 7, 6, 5, 4, 3];
    var k: nat :| k == 8;
    StepsWord(d, n);
    var w := VectorOf(Steps(d, n));
    LowThree(w);
    ThreeClear(w);
    var u := w / 0x100_0000;
    CombHigh(u, k);
    ValueBack504(G504, ks, n);
    StepsComb(u, G504, 0x8000_0000, k, n);
    var v := Comb(u, G504, k);
    ValWord(v);
    StepsInjective(Val(v), d, n);
    Small24(v);
    KernelBack504(u, k);
    ZeroTop(w);
    StepsZero(n);
    StepsInjective(d, 0, n);
  }

  lemma ZeroTop(w: bv32)
    requires w / 0x100_0000 * 0x100_0000 == w && w / 0x100_0000 == 0
    ensures w == 0
  {
  }

  /** A byte 488 steps away shows in the lowest byte. */
  lemma OneByteBefore(d: nat, n: nat)
    requires d < 256 && n == 488 && Steps(d, n) % 256 == 0
    ensures d == 0
  {
    var ks: seq<nat> :| ks == [8, 7, 6, 5, 3];
    var k: nat :| k == 8;
    var v := VectorOf(d);
    Small8(v);
    CombLow(v, k);
    ValueBitMore(0x80, ks, n);
    StepsComb(v, 0x80, X488, k, n);
    LowByte(Comb(v, X488, k));
    Kernel488(v, k);
  }

  // ---------- damage that does not show ----------

  lemma Number48da()
    ensures Val(0x48da) == 0x48da
  {
    assert Val(0x48) == 0x48;
    assert Val(0x48da) == 0x48da;
  }

  lemma Number1bbe0000()
    ensures Val(0x1bbe0000) == 0x1bbe0000
  {
    assert Val(0x1b) == 0x1b;
    assert Val(0x1bbe) == 0x1bbe;
    assert Val(0x1bbe00) == 0x1bbe00;
    assert Val(0x1bbe0000) == 0x1bbe0000;
  }

  lemma Numbere1()
    ensures Val(0xe1) == 0xe1
  {
    assert Val(0xe1) == 0xe1;
  }

  lemma Number5450f9()
    ensures Val(0x5450f9) == 0x5450f9
  {
    assert Val(0x54) == 0x54;
    assert Val(0x5450) == 0x5450;
    assert Val(0x5450f9) == 0x5450f9;
  }

  lemma Number0d55()
    ensures Val(0x0d55) == 0x0d55
  {
    assert Val(0x0d) == 0x0d;
    assert Val(0x0d55) == 0x0d55;
  }

  lemma Number6aef()
    ensures Val(0x6aef) == 0x6aef
  {
    assert Val(0x6a) == 0x6a;
    assert Val(0x6aef) == 0x6aef;
  }

  lemma Numberb83387()
    ensures Val(0xb83387) == 0xb83387
  {
    assert Val(0xb8) == 0xb8;
    assert Val(0xb833) == 0xb833;
    assert Val(0xb83387) == 0xb83387;
  }

  lemma Numberc8()
    ensures Val(0xc8) == 0xc8
  {
    assert Val(0xc8) == 0xc8;
  }

  /** Two bytes 496 steps away that show in the highest two bytes only. */
  lemma TwoBytesBefore(d: nat, n: nat)
    requires d == 0x48da && n == 496
    ensures Steps(d, n) == 0x1bbe_0000
  {
    var ks: seq<nat> :| ks == [8, 7, 6, 5, 4];
    Number48da();
    Number1bbe0000();
    ValuePair496(0x48da, ks, n);
  }

  /** Some bytes 448 steps away that show in the lowest three, two and one only. */
  lemma BytesAfter(d: nat, n: nat)
    requires n == 448
    ensures d == 0xe1 ==> Steps(d, n) == 0x5450f9
    ensures d == 0x0d55 ==> Steps(d, n) == 0x6aef
    ensures d == 0xb83387 ==> Steps(d, n) == 0xc8
  {
    if d == 0xe1 {
      OneByteHidden(d, n);
    } else if d == 0x0d55 {
      TwoBytesHidden(d, n);
    } else if d == 0xb83387 {
      ThreeBytesHidden(d, n);
    }
  }

  lemma OneByteHidden(d: nat, n: nat)
    requires d == 0xe1 && n == 448
    ensures Steps(d, n) == 0x5450f9
  {
    var ks: seq<nat> :| ks == [8, 7, 6];
    var k: nat :| k == 8;
    Numbere1();
    Number5450f9();
    CombLow(0xe1, k);
    Example5(0xe1, k);
    ValueBit(0x80, ks, n);
    StepsComb(0xe1, 0x80, X448, k, n);
  }

  lemma TwoBytesHidden(d: nat, n: nat)
    requires d == 0x0d55 && n == 448
    ensures Steps(d, n) == 0x6aef
  {
    var ks: seq<nat> :| ks == [8, 7, 6];
    Number0d55();
    Number6aef();
    ValuePair448(0x0d55, ks, n);
  }

  lemma ThreeBytesHidden(d: nat, n: nat)
    requires d == 0xb83387 && n == 448
    ensures Steps(d, n) == 0xc8
  {
    var ks: seq<nat> :| ks == [8, 7, 6];
    var k: nat :| k == 8;
    Numberb83387();
    Numberc8();
    CombLow(0xc8, k);
    Example7(0xc8, k);
    ValueBack448(G448, ks, n);
    StepsComb(0xc8, G448, 0x80, k, n);
  }
}
