/** The two forms of CRC-32 in the tree: table-driven (mkuimage/mkuimage.c) and
    bit-serial (devether.c).  Both compute the register of section 8 of RFC 1952,
    and the algebra of that register gives burst detection. */
module Crc32 {
  import opened Bits

  const POLY: word := 0xedb88320
  const ONES: word := 0xffffffff

  // ---------- the shift register ----------

  /** One step of the register: shift right, and subtract the polynomial when a
      one falls out. */
  function Step(c: nat): nat {
    if c % 2 != 0 then Xor(POLY, c / 2) else c / 2
  }

  function Steps(c: nat, n: nat): nat
    decreases n, c
  {
    if n == 0 then c else Steps(Step(c), n - 1)
  }

  /** The register after one more message byte. */
  function Absorb(c: nat, b: byte): nat {
    Steps(Xor(c, b), 8)
  }

  function Register(c: nat, m: seq<byte>): nat
    decreases |m|
  {
    if m == [] then c else Register(Absorb(c, m[0]), m[1..])
  }

  /** The CRC of section 8 of RFC 1952. */
  function Crc(m: seq<byte>): nat {
    Xor(Register(ONES, m), ONES)
  }

  /** Exclusive or with ones is the complement. */
  lemma {:induction false} XorOnes(x: nat, k: nat)
    requires x < Pow2(k)
    ensures Xor(x, Pow2(k) - 1) == Pow2(k) - 1 - x
    decreases k
  {
    if k > 0 {
      XorOnes(x / 2, k - 1);
      XorBit(x, Pow2(k) - 1);
      assert (Pow2(k) - 1) / 2 == Pow2(k - 1) - 1;
    }
  }

  lemma WordBits(k: nat)
    requires k == 32
    ensures Pow2(k) == WORD
  {
    Pow2Byte(k - 8);
    Pow2Byte(k - 16);
    Pow2Byte(k - 24);
    Pow2Byte(k - 32);
  }

  /** The register starts with 32 ones, and is complemented at the end. */
  lemma CrcIsComplement(m: seq<byte>)
    ensures Crc(m) == 0xffff_ffff - Register(0xffff_ffff, m)
  {
    var k: nat :| k == 32;
    WordBits(k);
    RegisterWord(0xffff_ffff, m);
    XorOnes(Register(0xffff_ffff, m), k);
  }

  // ---------- the table-driven form ----------

  ghost predicate IsTable(tab: seq<nat>) {
    |tab| == 256 && forall k :: 0 <= k < 256 ==> tab[k] == Steps(k, 8)
  }

  method MkCrcTab(tab: array<nat>)
    requires tab.Length == 256
    modifies tab
    ensures IsTable(tab[..])
  {
    var i := 0;
    while i < 256
      invariant 0 <= i <= 256
      invariant forall k :: 0 <= k < i ==> tab[k] == Steps(k, 8)
    {
      var c := i;
      var j := 0;
      while j < 8
        invariant 0 <= j <= 8 && 0 <= c
        invariant Steps(c, 8 - j) == Steps(i, 8)
      {
        assert Steps(c, 8 - j) == Steps(Step(c), 8 - (j + 1));
        c := if c % 2 != 0 then Xor(POLY, c / 2) else c / 2;
        j := j + 1;
      }
      tab[i] := c;
      i := i + 1;
    }
  }

  /** The loop continues the CRC of whatever bytes came before it. */
  method Crc32(tab: array<nat>, crc: word, buf: seq<byte>) returns (r: nat)
    requires IsTable(tab[..])
    ensures r == Xor(Register(Xor(crc, ONES), buf), ONES)
  {
    var c := Xor(crc, ONES);
    var i := 0;
    while i < |buf|
      invariant 0 <= i <= |buf|
      invariant Register(c, buf[i..]) == Register(Xor(crc, ONES), buf)
    {
      TableStep(c, buf[i]);
      assert buf[i..][1..] == buf[i + 1..];
      c := Xor(tab[Xor(c, buf[i]) % 256], c / 256);
      i := i + 1;
    }
    r := Xor(c, ONES);
  }

  lemma TableSplit(x: nat)
    ensures Steps(x, 8) == Xor(Steps(x % 256, 8), x / 256)
  {
    var lo, hi := x % 256, x / 256;
    XorLowByte(lo, hi);
    assert x == Xor(lo, 256 * hi);
    ByteSplit(lo, hi);
  }

  lemma TableStep(c: nat, b: byte)
    ensures Absorb(c, b) == Xor(Steps(Xor(c, b) % 256, 8), c / 256)
  {
    XorHighBytes(c, b);
    TableSplit(Xor(c, b));
  }

  // ---------- the bit-serial form ----------

  method EtherCrc(p: seq<byte>) returns (crc: nat)
    ensures crc == Register(ONES, p)
  {
    crc := ONES;
    var i := 0;
    while i < |p|
      invariant 0 <= i <= |p|
      invariant Register(crc, p[i..]) == Register(ONES, p)
    {
      ghost var before := crc;
      var b: nat := p[i];
      ShrByte(b);
      var j := 0;
      while j < 8
        invariant 0 <= j <= 8
        invariant Steps(Xor(crc, b), 8 - j) == Absorb(before, p[i])
        invariant Shr(b, 8 - j) == 0
      {
        SerialStep(crc, b);
        assert Steps(Xor(crc, b), 8 - j) == Steps(Step(Xor(crc, b)), 8 - (j + 1));
        assert Shr(b, 8 - j) == Shr(b / 2, 8 - (j + 1));
        crc, b := Xor(crc / 2, if Xor(crc, b) % 2 != 0 then POLY else 0), b / 2;
        j := j + 1;
      }
      XorZero(crc);
      assert p[i..][1..] == p[i + 1..];
      i := i + 1;
    }
  }

  lemma SerialStep(c: nat, b: nat)
    ensures Xor(Xor(c / 2, if Xor(c, b) % 2 != 0 then POLY else 0), b / 2) == Step(Xor(c, b))
  {
    XorBit(c, b);
    XorZero(c / 2);
    XorComm(c / 2, POLY);
    XorAssoc(POLY, c / 2, b / 2);
  }

  // ---------- how the two forms relate ----------

  /** The table-driven form is the complement of the bit-serial one, and both give
      the standard's CRC. */
  method FormsAgree(tab: array<nat>, m: seq<byte>) returns (table: nat, serial: nat)
    requires IsTable(tab[..])
    ensures table == Xor(serial, ONES) == Crc(m)
  {
    table := Crc32(tab, 0, m);
    serial := EtherCrc(m);
    XorZero(ONES);
  }

  /** A CRC can be computed piece by piece. */
  method Piecewise(tab: array<nat>, a: seq<byte>, b: seq<byte>) returns (r: nat)
    requires IsTable(tab[..])
    ensures r == Crc(a + b)
  {
    XorZero(ONES);
    CrcWord(a);
    r := Crc32(tab, 0, a);
    r := Crc32(tab, r, b);
    XorCancel(Register(ONES, a), ONES);
    RegisterConcat(ONES, a, b);
  }

  lemma {:induction false} RegisterConcat(c: nat, a: seq<byte>, b: seq<byte>)
    ensures Register(c, a + b) == Register(Register(c, a), b)
    decreases |a|
  {
    if a == [] {
      assert a + b == b;
    } else {
      assert (a + b)[1..] == a[1..] + b;
      RegisterConcat(Absorb(c, a[0]), a[1..], b);
    }
  }

  // ---------- the register as a linear map ----------

  lemma StepSplit(d: nat, h: nat)
    ensures Step(Xor(d, 2 * h)) == Xor(Step(d), h)
  {
    XorBit(d, 2 * h);
    XorAssoc(POLY, d / 2, h);
  }

  /** Bits above the low end only move down. */
  lemma {:induction false} StepsSplit(d: nat, h: nat, n: nat)
    ensures Steps(Xor(d, Shl(h, n)), n) == Xor(Steps(d, n), h)
    decreases n
  {
    if n > 0 {
      StepSplit(d, Shl(h, n - 1));
      StepsSplit(Step(d), h, n - 1);
    }
  }

  lemma ByteSplit(d: nat, h: nat)
    ensures Steps(Xor(d, 256 * h), 8) == Xor(Steps(d, 8), h)
  {
    ShlByte(h);
    StepsSplit(d, h, 8);
  }

  lemma {:induction false} StepsAdd(c: nat, m: nat, n: nat)
    ensures Steps(Steps(c, m), n) == Steps(c, m + n)
    decreases m
  {
    if m > 0 {
      StepsAdd(Step(c), m - 1, n);
    }
  }

  /** The polynomial's top bit says which bit fell out. */
  lemma StepTopBit(c: word)
    ensures Step(c) < WORD
    ensures Step(c) >= 0x8000_0000 <==> c % 2 != 0
  {
    XorWord(POLY, c / 2);
    XorShr(POLY, c / 2, 31);
    ShrTopBit(POLY);
    ShrTopBit(c / 2);
    ShrTopBit(Xor(POLY, c / 2));
    XorZero(1);
  }

  lemma StepInjective(a: word, b: word)
    requires Step(a) == Step(b)
    ensures a == b
  {
    StepTopBit(a);
    StepTopBit(b);
    XorInjective(POLY, a / 2, b / 2);
  }

  lemma {:induction false} StepsInjective(a: word, b: word, n: nat)
    requires Steps(a, n) == Steps(b, n)
    ensures a == b
    decreases n
  {
    if n > 0 {
      StepTopBit(a);
      StepTopBit(b);
      StepsInjective(Step(a), Step(b), n - 1);
      StepInjective(a, b);
    }
  }

  lemma {:induction false} StepsWord(c: word, n: nat)
    ensures Steps(c, n) < WORD
    decreases n
  {
    if n > 0 {
      StepTopBit(c);
      StepsWord(Step(c), n - 1);
    }
  }

  lemma AbsorbWord(c: word, b: byte)
    ensures Xor(c, b) < WORD && Absorb(c, b) < WORD
  {
    XorWord(c, b);
    StepsWord(Xor(c, b), 8);
  }

  lemma {:induction false} RegisterWord(c: word, m: seq<byte>)
    ensures Register(c, m) < WORD
    decreases |m|
  {
    if m != [] {
      AbsorbWord(c, m[0]);
      RegisterWord(Absorb(c, m[0]), m[1..]);
    }
  }

  lemma CrcWord(m: seq<byte>)
    ensures Crc(m) < WORD
  {
    RegisterWord(ONES, m);
    XorWord(Register(ONES, m), ONES);
  }

  /** Equal bytes keep different registers different. */
  lemma {:induction false} RegisterInjective(c: word, d: word, m: seq<byte>)
    ensures Register(c, m) == Register(d, m) <==> c == d
    decreases |m|
  {
    if m != [] && c != d {
      AbsorbWord(c, m[0]);
      AbsorbWord(d, m[0]);
      XorInjective(m[0], c, d);
      if Absorb(c, m[0]) == Absorb(d, m[0]) {
        StepsInjective(Xor(c, m[0]), Xor(d, m[0]), 8);
      }
      RegisterInjective(Absorb(c, m[0]), Absorb(d, m[0]), m[1..]);
    }
  }

  // ---------- burst detection ----------

  function Pack(w: seq<byte>): nat
    decreases |w|
  {
    if w == [] then 0 else w[0] + 256 * Pack(w[1..])
  }

  lemma {:induction false} PackInjective(v: seq<byte>, w: seq<byte>)
    requires |v| == |w| && Pack(v) == Pack(w)
    ensures v == w
    decreases |v|
  {
    if v != [] {
      PackInjective(v[1..], w[1..]);
      assert v == [v[0]] + v[1..] && w == [w[0]] + w[1..];
    }
  }

  lemma PackWord(w: seq<byte>)
    requires |w| <= 4
    ensures Pack(w) < WORD
  {
    PackTwo(w[|w| / 2..]);
    if |w| == 3 {
      PackTwo(w[1..]);
    } else if |w| == 4 {
      assert w[2..] == w[1..][1..];
    }
  }

  lemma PackTwo(w: seq<byte>)
    requires |w| <= 2
    ensures Pack(w) < 0x1_0000
  {
    if |w| == 2 {
      assert Pack(w[1..]) == w[1] + 256 * Pack(w[1..][1..]);
    }
  }

  lemma PackHead(c: nat, b: byte, p: nat, n: nat)
    ensures Steps(Xor(c, b + 256 * p), 8 + n) == Steps(Xor(Absorb(c, b), p), n)
  {
    var x := Xor(c, b + 256 * p);
    assert x == Xor(Xor(c, b), 256 * p) by {
      XorLowByte(b, p);
      XorAssoc(c, b, 256 * p);
    }
    StepsAdd(x, 8, n);
    ByteSplit(Xor(c, b), p);
  }

  /** Bytes enter the register as if they had all been added before shifting. */
  lemma {:induction false} RegisterPack(c: nat, w: seq<byte>)
    ensures Register(c, w) == Steps(Xor(c, Pack(w)), 8 * |w|)
    decreases |w|
  {
    if w == [] {
      XorZero(c);
    } else {
      var d, p, n := Absorb(c, w[0]), Pack(w[1..]), 8 * |w[1..]|;
      assert 8 * |w| == 8 + n && Pack(w) == w[0] + 256 * p;
      assert Register(c, w) == Register(d, w[1..]);
      PackHead(c, w[0], p, n);
      RegisterPack(d, w[1..]);
    }
  }

  lemma WindowInjective(c: word, v: seq<byte>, w: seq<byte>)
    requires |v| == |w| <= 4
    ensures Register(c, v) == Register(c, w) <==> v == w
  {
    if Register(c, v) == Register(c, w) {
      RegisterPack(c, v);
      RegisterPack(c, w);
      PackWord(v);
      PackWord(w);
      XorWord(c, Pack(v));
      XorWord(c, Pack(w));
      StepsInjective(Xor(c, Pack(v)), Xor(c, Pack(w)), 8 * |v|);
      XorInjective(c, Pack(v), Pack(w));
      PackInjective(v, w);
    }
  }

  /** Messages that agree outside a window of four consecutive bytes have the same
      CRC only if they are the same message. */
  lemma BurstDetected(x: seq<byte>, y: seq<byte>, at: nat, len: nat)
    requires |x| == |y| && at + len <= |x| && len <= 4
    requires x[..at] == y[..at] && x[at + len..] == y[at + len..]
    ensures Crc(x) == Crc(y) <==> x == y
  {
    var head, tail := x[..at], x[at + len..];
    var v, w := x[at..at + len], y[at..at + len];
    assert x == head + (v + tail) && y == head + (w + tail);
    var c := Register(ONES, head);
    RegisterConcat(ONES, head, v + tail);
    RegisterConcat(ONES, head, w + tail);
    RegisterConcat(c, v, tail);
    RegisterConcat(c, w, tail);
    RegisterWord(ONES, head);
    RegisterWord(c, v);
    RegisterWord(c, w);
    WindowInjective(c, v, w);
    RegisterInjective(Register(c, v), Register(c, w), tail);
    XorInjective(ONES, Register(ONES, x), Register(ONES, y));
  }
}
