/** Which windows of damage the header checksum of a boot image (mkuimage/mkuimage.c)
    always detects.  A window across an end of the checksum field changes the checksum
    and the bytes it is computed from together, and then the two may still agree. */
module HeaderBursts {
  import opened Bits
  import opened Crc32
  import CrcVectors
  import UImage

  predicate IsHeader(p: seq<byte>) {
    |p| == UImage.UIMAGE_HDRSIZE
  }

  /** p and q differ only in the len bytes from at on. */
  predicate DamagedWithin(p: seq<byte>, q: seq<byte>, at: nat, len: nat)
    requires IsHeader(p) && IsHeader(q)
  {
    forall i :: 0 <= i < |p| && p[i] != q[i] ==> at <= i < at + len
  }

  /** No damage in the window turns an accepted header into another accepted one. */
  ghost predicate Detects(at: nat, len: nat) {
    forall p, q | IsHeader(p) && IsHeader(q) && DamagedWithin(p, q, at, len) ::
      UImage.HeaderAccepted(p) && UImage.HeaderAccepted(q) ==> p == q
  }

  // ---------- what a change does to a CRC ----------

  lemma RegisterDifference(c: nat, d: nat, m: seq<byte>)
    ensures Xor(Register(c, m), Register(d, m)) == Steps(Xor(c, d), 8 * |m|)
  {
    var p := Pack(m);
    RegisterPack(c, m);
    RegisterPack(d, m);
    CrcVectors.StepsXor(Xor(c, p), Xor(d, p), 8 * |m|);
    XorComm(c, p);
    XorComm(d, p);
    CrcVectors.XorInto(p, c, d);
  }

  lemma WindowDifference(c: nat, v: seq<byte>, w: seq<byte>)
    requires |v| == |w|
    ensures Xor(Register(c, v), Register(c, w)) == Steps(Xor(Pack(v), Pack(w)), 8 * |v|)
  {
    RegisterPack(c, v);
    RegisterPack(c, w);
    CrcVectors.StepsXor(Xor(c, Pack(v)), Xor(c, Pack(w)), 8 * |v|);
    CrcVectors.XorInto(c, Pack(v), Pack(w));
  }

  lemma TailDifference(r: nat, s: nat, tail: seq<byte>, e: nat, n: nat)
    requires Xor(r, s) == Steps(e, n)
    ensures Xor(Register(r, tail), Register(s, tail)) == Steps(e, n + 8 * |tail|)
  {
    RegisterDifference(r, s, tail);
    StepsAdd(e, n, 8 * |tail|);
  }

  lemma RegisterInParts(c: nat, x: seq<byte>, head: seq<byte>, v: seq<byte>, tail: seq<byte>)
    requires x == head + v + tail
    ensures Register(c, x) == Register(Register(Register(c, head), v), tail)
  {
    RegisterConcat(c, head + v, tail);
    RegisterConcat(c, head, v);
  }

  lemma ComplementDifference(r: nat, s: nat)
    ensures Xor(Xor(r, ONES), Xor(s, ONES)) == Xor(r, s)
  {
    XorComm(r, ONES);
    XorComm(s, ONES);
    CrcVectors.XorInto(ONES, r, s);
  }

  lemma RunDifference(c: nat, x: seq<byte>, y: seq<byte>, head: seq<byte>, v: seq<byte>, w: seq<byte>,
                      tail: seq<byte>, e: nat)
    requires x == head + v + tail && y == head + w + tail && |v| == |w| && e == Xor(Pack(v), Pack(w))
    ensures Xor(Register(c, x), Register(c, y)) == Steps(e, 8 * |v| + 8 * |tail|)
  {
    var d := Register(c, head);
    RegisterInParts(c, x, head, v, tail);
    RegisterInParts(c, y, head, w, tail);
    WindowDifference(d, v, w);
    TailDifference(Register(d, v), Register(d, w), tail, e, 8 * |v|);
  }

  lemma CrcOfRuns(x: seq<byte>, y: seq<byte>, e: nat, n: nat)
    requires Xor(Register(ONES, x), Register(ONES, y)) == Steps(e, n)
    ensures Xor(Crc(x), Crc(y)) == Steps(e, n)
  {
    ComplementDifference(Register(ONES, x), Register(ONES, y));
  }

  lemma InParts(x: seq<byte>, at: nat, to: nat)
    requires at <= to <= |x|
    ensures x == x[..at] + x[at..to] + x[to..]
  {
  }

  /** How far two CRCs are apart depends only on the bytes that differ and on their
      distance from the end. */
  lemma CrcDifference(x: seq<byte>, y: seq<byte>, at: nat, len: nat)
    requires |x| == |y| && at + len <= |x|
    requires x[..at] == y[..at] && x[at + len..] == y[at + len..]
    ensures Xor(Crc(x), Crc(y))
         == Steps(Xor(Pack(x[at..at + len]), Pack(y[at..at + len])), 8 * (|x| - at))
  {
    var head, v, w, tail := x[..at], x[at..at + len], y[at..at + len], x[at + len..];
    InParts(x, at, at + len);
    InParts(y, at, at + len);
    RunDifference(ONES, x, y, head, v, w, tail, Xor(Pack(v), Pack(w)));
    assert 8 * |v| + 8 * |tail| == 8 * (|x| - at);
    CrcOfRuns(x, y, Xor(Pack(v), Pack(w)), 8 * (|x| - at));
  }

  // ---------- equal parts of words ----------

  lemma {:induction false} XorOfEqualLow(a: nat, b: nat, k: nat)
    requires Low(a, k) == Low(b, k)
    ensures Low(Xor(a, b), k) == 0
    decreases k
  {
    if k > 0 {
      XorBit(a, b);
      XorOfEqualLow(a / 2, b / 2, k - 1);
    }
  }

  lemma XorMod(a: nat, b: nat, k: nat)
    requires a % Pow2(k) == b % Pow2(k)
    ensures Xor(a, b) % Pow2(k) == 0
  {
    ShrIsDiv(a, k);
    ShrIsDiv(b, k);
    ShrIsDiv(Xor(a, b), k);
    XorOfEqualLow(a, b, k);
  }

  lemma XorDiv(a: nat, b: nat, k: nat)
    requires a / Pow2(k) == b / Pow2(k)
    ensures Xor(a, b) < Pow2(k)
  {
    var x := Xor(a, b);
    ShrIsDiv(a, k);
    ShrIsDiv(b, k);
    XorShr(a, b, k);
    XorSelf(Shr(a, k));
    HighAndLow(x, k);
  }

  lemma XorBelow(a: nat, b: nat, k: nat)
    requires a < Pow2(k) && b < Pow2(k)
    ensures Xor(a, b) < Pow2(k)
  {
    HighAndLow(a, k);
    HighAndLow(b, k);
    DivUnique(a, Pow2(k), 0, a);
    DivUnique(b, Pow2(k), 0, b);
    XorDiv(a, b, k);
  }

  lemma XorIsZero(a: nat, b: nat)
    requires Xor(a, b) == 0
    ensures a == b
  {
    XorSelf(a);
    XorInjective(a, b, a);
  }

  lemma {:induction false} PackBelow(w: seq<byte>)
    ensures Pack(w) < Pow2(8 * |w|)
    decreases |w|
  {
    if w != [] {
      PackBelow(w[1..]);
      var k := 8 * |w[1..]|;
      assert 8 * |w| == k + 8;
      Pow2Byte(k);
    }
  }

  lemma PowersOfBytes()
    ensures Pow2(8) == 256 && Pow2(16) == 0x1_0000 && Pow2(24) == 0x100_0000
  {
    Pow2Byte(0);
    Pow2Byte(8);
    Pow2Byte(16);
  }

  // ---------- windows across an end of the field ----------

  /** The bytes outside the field that differ, and what they did to the checksum. */
  lemma Outside(p: seq<byte>, q: seq<byte>, a: nat, b: nat) returns (d: nat)
    requires IsHeader(p) && IsHeader(q) && a <= b <= |p|
    requires b <= 4 || 8 <= a
    requires forall i :: 0 <= i < |p| && p[i] != q[i] ==> 4 <= i < 8 || a <= i < b
    requires UImage.HeaderAccepted(p) && UImage.HeaderAccepted(q)
    ensures d < Pow2(8 * (b - a))
    ensures Steps(d, 8 * (|p| - a)) == Xor(Be(p, 4), Be(q, 4))
    ensures d == 0 ==> p == q
  {
    var x, y := UImage.Cleared(p), UImage.Cleared(q);
    ClearedOutside(p, q, a, b);
    assert a + (b - a) == b;
    CrcDifference(x, y, a, b - a);
    d := PackDifference(x[a..b], y[a..b]);
    if d == 0 {
      assert x == x[..a] + x[a..b] + x[b..] && y == y[..a] + y[a..b] + y[b..];
      BeInjective(p, q, 4);
      SameHeader(p, q);
    }
  }

  lemma PackDifference(v: seq<byte>, w: seq<byte>) returns (d: nat)
    requires |v| == |w|
    ensures d == Xor(Pack(v), Pack(w)) < Pow2(8 * |v|)
    ensures d == 0 ==> v == w
  {
    d := Xor(Pack(v), Pack(w));
    PackBelow(v);
    PackBelow(w);
    XorBelow(Pack(v), Pack(w), 8 * |v|);
    if d == 0 {
      XorIsZero(Pack(v), Pack(w));
      PackInjective(v, w);
    }
  }

  lemma ClearedOutside(p: seq<byte>, q: seq<byte>, a: nat, b: nat)
    requires IsHeader(p) && IsHeader(q) && a <= b <= |p|
    requires forall i :: 0 <= i < |p| && p[i] != q[i] ==> 4 <= i < 8 || a <= i < b
    ensures UImage.Cleared(p)[..a] == UImage.Cleared(q)[..a]
    ensures UImage.Cleared(p)[b..] == UImage.Cleared(q)[b..]
  {
    var x, y := UImage.Cleared(p), UImage.Cleared(q);
    forall i | 0 <= i < |x| && !(a <= i < b)
      ensures x[i] == y[i]
    {
      assert 4 <= i < 8 || (x[i] == p[i] && y[i] == q[i]);
    }
  }

  lemma SameHeader(p: seq<byte>, q: seq<byte>)
    requires IsHeader(p) && IsHeader(q)
    requires UImage.Cleared(p) == UImage.Cleared(q) && p[4..8] == q[4..8]
    ensures p == q
  {
    var x, y := UImage.Cleared(p), UImage.Cleared(q);
    assert p[..4] == x[..4] && q[..4] == y[..4];
    assert p[8..] == x[8..] && q[8..] == y[8..];
    assert p == p[..4] + p[4..8] + p[8..] && q == q[..4] + q[4..8] + q[8..];
  }

  lemma LowBytesOfWord(a: byte, b: byte, c: byte, d: byte)
    ensures Word(a, b, c, d) % 0x100_0000 == (b as int) * 0x1_0000 + (c as int) * 256 + d as int
    ensures Word(a, b, c, d) % 256 == d
  {
  }

  lemma HighBytesOfWord(a: byte, b: byte, c: byte, d: byte)
    ensures Word(a, b, c, d) / 0x100_0000 == a
    ensures Word(a, b, c, d) / 0x1_0000 == 256 * (a as int) + b as int
    ensures Word(a, b, c, d) / 256 == 256 * (256 * (a as int) + b as int) + c as int
  {
  }

  lemma SplitByte(a: nat, b: byte, a': nat, b': byte)
    ensures 256 * a + b == 256 * a' + b' <==> a == a' && b == b'
  {
  }

  lemma SameThreeBytes(p: seq<byte>, q: seq<byte>)
    requires IsHeader(p) && IsHeader(q)
    requires p[5] == q[5] && p[6] == q[6] && p[7] == q[7]
    ensures Xor(Be(p, 4), Be(q, 4)) % Pow2(24) == 0
  {
    PowersOfBytes();
    LowBytesOfWord(p[4], p[5], p[6], p[7]);
    LowBytesOfWord(q[4], q[5], q[6], q[7]);
    XorMod(Be(p, 4), Be(q, 4), 24);
  }

  lemma SameLastByte(p: seq<byte>, q: seq<byte>)
    requires IsHeader(p) && IsHeader(q) && p[7] == q[7]
    ensures Xor(Be(p, 4), Be(q, 4)) % Pow2(8) == 0
  {
    PowersOfBytes();
    LowBytesOfWord(p[4], p[5], p[6], p[7]);
    LowBytesOfWord(q[4], q[5], q[6], q[7]);
    XorMod(Be(p, 4), Be(q, 4), 8);
  }

  predicate SameFirst(p: seq<byte>, q: seq<byte>, n: nat)
    requires IsHeader(p) && IsHeader(q) && 1 <= n <= 3
  {
    p[4] == q[4] && (1 < n ==> p[5] == q[5]) && (2 < n ==> p[6] == q[6])
  }

  /** The quotients tell the same as the bytes of the field. */
  lemma HighBytes(p: seq<byte>, q: seq<byte>, n: nat)
    requires IsHeader(p) && IsHeader(q) && 1 <= n <= 3
    ensures SameFirst(p, q, n)
       <==> Be(p, 4) / Pow2(8 * (4 - n)) == Be(q, 4) / Pow2(8 * (4 - n))
  {
    HighBytesOfWord(p[4], p[5], p[6], p[7]);
    HighBytesOfWord(q[4], q[5], q[6], q[7]);
    PowersOfBytes();
    if n == 1 {
      assert 8 * (4 - n) == 24;
    } else if n == 2 {
      assert 8 * (4 - n) == 16;
      SplitByte(p[4], p[5], q[4], q[5]);
    } else {
      assert 8 * (4 - n) == 8;
      SplitByte(p[4], p[5], q[4], q[5]);
      SplitByte(256 * (p[4] as int) + p[5] as int, p[6], 256 * (q[4] as int) + q[5] as int, q[6]);
    }
  }

  lemma SameHighBytes(p: seq<byte>, q: seq<byte>, n: nat)
    requires IsHeader(p) && IsHeader(q) && 1 <= n <= 3 && SameFirst(p, q, n)
    ensures Xor(Be(p, 4), Be(q, 4)) < Pow2(8 * (4 - n))
  {
    HighBytes(p, q, n);
    XorDiv(Be(p, 4), Be(q, 4), 8 * (4 - n));
  }

  /** Three bytes in front of the field and the first one of it. */
  lemma OneToFour(p: seq<byte>, q: seq<byte>)
    requires IsHeader(p) && IsHeader(q) && DamagedWithin(p, q, 1, 4)
    requires UImage.HeaderAccepted(p) && UImage.HeaderAccepted(q)
    ensures p == q
  {
    SameThreeBytes(p, q);
    var d := Outside(p, q, 1, 4);
    OneToFourShows(d, 8 * (|p| - 1));
  }

  lemma OneToFourShows(d: nat, n: nat)
    requires d < Pow2(24) && n == 504 && Steps(d, n) % Pow2(24) == 0
    ensures d == 0
  {
    PowersOfBytes();
    CrcVectors.ThreeBytesBefore(d, n);
  }

  /** One byte in front of the field and the first three of it. */
  lemma ThreeToSix(p: seq<byte>, q: seq<byte>)
    requires IsHeader(p) && IsHeader(q) && DamagedWithin(p, q, 3, 4)
    requires UImage.HeaderAccepted(p) && UImage.HeaderAccepted(q)
    ensures p == q
  {
    SameLastByte(p, q);
    var d := Outside(p, q, 3, 4);
    ThreeToSixShows(d, 8 * (|p| - 3));
  }

  lemma ThreeToSixShows(d: nat, n: nat)
    requires d < Pow2(8) && n == 488 && Steps(d, n) % Pow2(8) == 0
    ensures d == 0
  {
    PowersOfBytes();
    CrcVectors.OneByteBefore(d, n);
  }

  /** The last two bytes of the field and one behind it. */
  lemma SixToEight(p: seq<byte>, q: seq<byte>)
    requires IsHeader(p) && IsHeader(q) && DamagedWithin(p, q, 6, 3)
    requires UImage.HeaderAccepted(p) && UImage.HeaderAccepted(q)
    ensures p == q
  {
    SameHighBytes(p, q, 2);
    var d := Outside(p, q, 8, 9);
    SixToEightShows(d, 8 * (|p| - 8));
  }

  lemma SixToEightShows(d: nat, n: nat)
    requires d < Pow2(8) && n == 448 && Steps(d, n) < Pow2(16)
    ensures d == 0
  {
    PowersOfBytes();
    CrcVectors.OneByteAfter(d, n);
  }

  /** The last byte of the field and two behind it. */
  lemma SevenToNine(p: seq<byte>, q: seq<byte>)
    requires IsHeader(p) && IsHeader(q) && DamagedWithin(p, q, 7, 3)
    requires UImage.HeaderAccepted(p) && UImage.HeaderAccepted(q)
    ensures p == q
  {
    SameHighBytes(p, q, 3);
    var d := Outside(p, q, 8, 10);
    SevenToNineShows(d, 8 * (|p| - 8));
  }

  lemma SevenToNineShows(d: nat, n: nat)
    requires d < Pow2(16) && n == 448 && Steps(d, n) < Pow2(8)
    ensures d == 0
  {
    PowersOfBytes();
    CrcVectors.TwoBytesAfter(d, n);
  }

  lemma Detected(p: seq<byte>, q: seq<byte>, at: nat, len: nat)
    requires at + len <= UImage.UIMAGE_HDRSIZE && len <= 4
    requires !(len == 4 && at in [2, 5, 6, 7])
    requires IsHeader(p) && IsHeader(q) && DamagedWithin(p, q, at, len)
    requires UImage.HeaderAccepted(p) && UImage.HeaderAccepted(q)
    ensures p == q
  {
    if at + len <= 4 || 8 <= at || (4 <= at && at + len <= 8) {
      if p != q {
        UImage.DamagedHeaderRejected(p, q, at, len);
      }
    } else if at < 4 {
      if at == 3 {
        ThreeToSix(p, q);
      } else {
        OneToFour(p, q);
      }
    } else if at == 6 {
      SixToEight(p, q);
    } else {
      SevenToNine(p, q);
    }
  }

  // ---------- damage that stays hidden ----------

  /** A header can be given its checksum. */
  lemma WithChecksum(x: seq<byte>) returns (p: seq<byte>)
    requires IsHeader(x) && x[4..8] == [0, 0, 0, 0]
    ensures IsHeader(p) && UImage.HeaderAccepted(p)
    ensures p[..4] == x[..4] && p[8..] == x[8..] && Be(p, 4) == Crc(x)
  {
    CrcWord(x);
    var field := SomeBytes(Crc(x));
    p := x[..4] + field + x[8..];
    BeOfSlice(p, 4);
    assert p[4..8] == field;
    assert UImage.Cleared(p) == x[..4] + x[4..8] + x[8..] == x;
  }

  function AddByte(a: byte, b: byte): byte {
    XorHighBytes(a, b);
    Xor(a, b)
  }

  /** The bytes v, each with that of d added. */
  function Added(v: seq<byte>, d: seq<byte>): (w: seq<byte>)
    requires |v| == |d|
    ensures |w| == |v|
  {
    if v == [] then [] else [AddByte(v[0], d[0])] + Added(v[1..], d[1..])
  }

  lemma {:induction false} XorShl(a: nat, b: nat, k: nat)
    ensures Xor(Shl(a, k), Shl(b, k)) == Shl(Xor(a, b), k)
    decreases k
  {
    if k > 0 {
      XorShl(a, b, k - 1);
      XorDouble(Shl(a, k - 1), Shl(b, k - 1));
    }
  }

  lemma XorDouble(a: nat, b: nat)
    ensures Xor(2 * a, 2 * b) == 2 * Xor(a, b)
  {
    XorBit(2 * a, 2 * b);
  }

  lemma XorByteShifted(a: nat, b: nat)
    ensures Xor(256 * a, 256 * b) == 256 * Xor(a, b)
  {
    ShlByte(a);
    ShlByte(b);
    ShlByte(Xor(a, b));
    XorShl(a, b, 8);
  }

  /** Exclusive or in any order. */
  lemma XorPairs(a: nat, p: nat, b: nat, q: nat)
    ensures Xor(Xor(a, p), Xor(b, q)) == Xor(Xor(a, b), Xor(p, q))
  {
    XorAssoc(a, p, Xor(b, q));
    CrcVectors.XorInto(p, b, q);
    XorAssoc(a, b, Xor(p, q));
  }

  lemma XorJoin(a: byte, p: nat, b: byte, q: nat)
    ensures Xor(a + 256 * p, b + 256 * q) == AddByte(a, b) + 256 * Xor(p, q)
  {
    XorLowByte(a, p);
    XorLowByte(b, q);
    XorPairs(a, 256 * p, b, 256 * q);
    XorByteShifted(p, q);
    XorLowByte(AddByte(a, b), Xor(p, q));
  }

  lemma {:induction false} PackAdded(v: seq<byte>, d: seq<byte>)
    requires |v| == |d|
    ensures Xor(Pack(v), Pack(Added(v, d))) == Pack(d)
    decreases |v|
  {
    if v != [] {
      var w := Added(v, d);
      assert w[1..] == Added(v[1..], d[1..]);
      PackAdded(v[1..], d[1..]);
      XorJoin(v[0], Pack(v[1..]), w[0], Pack(w[1..]));
      XorCancel(d[0], v[0]);
    }
  }

  /** The header with d added to its bytes from a on, and its checksum made right. */
  lemma Tampered(p: seq<byte>, a: nat, d: seq<byte>) returns (q: seq<byte>)
    requires IsHeader(p) && UImage.HeaderAccepted(p)
    requires a + |d| <= 4 || 8 <= a <= a + |d| <= |p|
    ensures IsHeader(q) && UImage.HeaderAccepted(q)
    ensures q[..4] == Patched(UImage.Cleared(p), a, d)[..4] && q[8..] == Patched(UImage.Cleared(p), a, d)[8..]
    ensures Xor(Be(p, 4), Be(q, 4)) == Steps(Pack(d), 8 * (UImage.UIMAGE_HDRSIZE - a))
  {
    var x := UImage.Cleared(p);
    assert x[4..8] == [0, 0, 0, 0];
    var y := Patched(x, a, d);
    assert y[4..8] == x[4..8];
    PatchDifference(x, a, d);
    q := WithChecksum(y);
  }

  function Patched(x: seq<byte>, a: nat, d: seq<byte>): (y: seq<byte>)
    requires a + |d| <= |x|
    ensures |y| == |x| && y[..a] == x[..a] && y[a + |d|..] == x[a + |d|..]
    ensures y[a..a + |d|] == Added(x[a..a + |d|], d)
  {
    x[..a] + Added(x[a..a + |d|], d) + x[a + |d|..]
  }

  lemma PatchDifference(x: seq<byte>, a: nat, d: seq<byte>)
    requires IsHeader(x) && a + |d| <= |x|
    ensures Xor(Crc(x), Crc(Patched(x, a, d))) == Steps(Pack(d), 8 * (UImage.UIMAGE_HDRSIZE - a))
  {
    CrcDifference(x, Patched(x, a, d), a, |d|);
    PackAdded(x[a..a + |d|], d);
  }

  lemma OnlyPatch(p: seq<byte>, q: seq<byte>, a: nat, d: seq<byte>)
    requires a + |d| <= 4 || 8 <= a <= a + |d| <= UImage.UIMAGE_HDRSIZE
    requires IsHeader(p) && IsHeader(q)
    requires q[..4] == Patched(UImage.Cleared(p), a, d)[..4] && q[8..] == Patched(UImage.Cleared(p), a, d)[8..]
    ensures forall i :: 0 <= i < |p| && p[i] != q[i] ==> 4 <= i < 8 || a <= i < a + |d|
    ensures d != [] && d[0] != 0 ==> p != q
  {
    var x, y := UImage.Cleared(p), Patched(UImage.Cleared(p), a, d);
    forall i | 0 <= i < |p| && !(4 <= i < 8)
      ensures p[i] == x[i] && q[i] == y[i]
    {
      if i < 4 {
        assert q[i] == q[..4][i];
      } else {
        assert q[i] == q[8..][i - 8];
      }
    }
    forall i | 0 <= i < |x| && !(a <= i < a + |d|)
      ensures x[i] == y[i]
    {
      if i < a {
        assert x[i] == x[..a][i] && y[i] == y[..a][i];
      } else {
        assert x[i] == x[a + |d|..][i - a - |d|] && y[i] == y[a + |d|..][i - a - |d|];
      }
    }
    if d != [] && d[0] != 0 {
      assert y[a] == y[a..a + |d|][0] == AddByte(x[a], d[0]);
      XorCancel(d[0], x[a]);
      XorSelf(x[a]);
      assert p[a] != q[a];
    }
  }

  lemma {:induction false} EqualLow(a: nat, b: nat, k: nat)
    requires Low(Xor(a, b), k) == 0
    ensures Low(a, k) == Low(b, k)
    decreases k
  {
    if k > 0 {
      XorBit(a, b);
      EqualLow(a / 2, b / 2, k - 1);
    }
  }

  lemma EqualMod(a: nat, b: nat, k: nat)
    requires Xor(a, b) % Pow2(k) == 0
    ensures a % Pow2(k) == b % Pow2(k)
  {
    ShrIsDiv(a, k);
    ShrIsDiv(b, k);
    ShrIsDiv(Xor(a, b), k);
    EqualLow(a, b, k);
  }

  lemma EqualDiv(a: nat, b: nat, k: nat)
    requires Xor(a, b) < Pow2(k)
    ensures a / Pow2(k) == b / Pow2(k)
  {
    ShrIsDiv(a, k);
    ShrIsDiv(b, k);
    HighAndLow(Xor(a, b), k);
    DivUnique(Xor(a, b), Pow2(k), 0, Xor(a, b));
    ShrIsDiv(Xor(a, b), k);
    XorShr(a, b, k);
    XorIsZero(Shr(a, k), Shr(b, k));
  }

  lemma PackTwo(a: byte, b: byte)
    ensures Pack([a, b]) == (a as int) + 256 * (b as int)
  {
    assert [a, b][1..] == [b];
    assert Pack([b]) == b;
  }

  lemma PackThree(a: byte, b: byte, c: byte)
    ensures Pack([a, b, c]) == (a as int) + 256 * (b as int) + 0x1_0000 * (c as int)
  {
    assert [a, b, c][1..] == [b, c];
    PackTwo(b, c);
  }

  /** Bytes 2 to 5. */
  lemma AcrossTheStart(p: seq<byte>, d: seq<byte>) returns (q: seq<byte>)
    requires IsHeader(p) && UImage.HeaderAccepted(p)
    requires |d| == 2 && d[0] != 0 && Steps(Pack(d), 8 * 62) % Pow2(16) == 0
    ensures IsHeader(q) && DamagedWithin(p, q, 2, 4) && UImage.HeaderAccepted(q) && p != q
  {
    q := Tampered(p, 2, d);
    OnlyPatch(p, q, 2, d);
    EqualMod(Be(p, 4), Be(q, 4), 16);
    EqualEnd(p, q);
    BothSides(p, q, d);
  }

  lemma BothSides(p: seq<byte>, q: seq<byte>, d: seq<byte>)
    requires IsHeader(p) && IsHeader(q) && |d| == 2
    requires forall i :: 0 <= i < |p| && p[i] != q[i] ==> 4 <= i < 8 || 2 <= i < 2 + |d|
    requires p[6] == q[6] && p[7] == q[7]
    ensures DamagedWithin(p, q, 2, 4)
  {
  }

  lemma EqualEnd(p: seq<byte>, q: seq<byte>)
    requires IsHeader(p) && IsHeader(q) && Be(p, 4) % Pow2(16) == Be(q, 4) % Pow2(16)
    ensures p[6] == q[6] && p[7] == q[7]
  {
    PowersOfBytes();
    LowHalfOfWord(p[4], p[5], p[6], p[7]);
    LowHalfOfWord(q[4], q[5], q[6], q[7]);
  }

  lemma LowHalfOfWord(a: byte, b: byte, c: byte, d: byte)
    ensures Word(a, b, c, d) % 0x1_0000 == (c as int) * 256 + d as int
  {
    LowBytesOfWord(a, b, c, d);
  }

  /** Bytes 5 to 8, 6 to 9, or 7 to 10. */
  lemma AcrossTheEnd(p: seq<byte>, at: nat, d: seq<byte>, n: nat) returns (q: seq<byte>)
    requires IsHeader(p) && UImage.HeaderAccepted(p)
    requires 5 <= at <= 7 && |d| == at - 4 && d[0] != 0
    requires n == 8 * (UImage.UIMAGE_HDRSIZE - 8) && Steps(Pack(d), n) < Pow2(8 * (8 - at))
    ensures IsHeader(q) && DamagedWithin(p, q, at, 4) && UImage.HeaderAccepted(q) && p != q
  {
    q := Tampered(p, 8, d);
    OnlyPatch(p, q, 8, d);
    var k := at - 4;
    assert 8 * (4 - k) == 8 * (8 - at);
    EqualDiv(Be(p, 4), Be(q, 4), 8 * (4 - k));
    HighBytes(p, q, k);
    BehindToo(p, q, d);
  }

  lemma BehindToo(p: seq<byte>, q: seq<byte>, d: seq<byte>)
    requires IsHeader(p) && IsHeader(q) && 1 <= |d| <= 3 && SameFirst(p, q, |d|)
    requires forall i :: 0 <= i < |p| && p[i] != q[i] ==> 4 <= i < 8 || 8 <= i < 8 + |d|
    ensures DamagedWithin(p, q, 4 + |d|, 4)
  {
  }

  /** Every accepted header can be damaged in one of these windows and stay accepted. */
  lemma Hidden(p: seq<byte>, at: nat) returns (q: seq<byte>)
    requires IsHeader(p) && UImage.HeaderAccepted(p) && at in [2, 5, 6, 7]
    ensures IsHeader(q) && DamagedWithin(p, q, at, 4) && UImage.HeaderAccepted(q) && p != q
  {
    if at == 2 {
      PowersOfBytes();
      var d := TwoHiddenBytes(8 * 62);
      q := AcrossTheStart(p, d);
    } else {
      q := HiddenBehind(p, at);
    }
  }

  lemma HiddenBehind(p: seq<byte>, at: nat) returns (q: seq<byte>)
    requires IsHeader(p) && UImage.HeaderAccepted(p) && 5 <= at <= 7
    ensures IsHeader(q) && DamagedWithin(p, q, at, 4) && UImage.HeaderAccepted(q) && p != q
  {
    var n := 8 * (|p| - 8);
    var d := HiddenBytes(at, n);
    HiddenBound(at, Steps(Pack(d), n));
    q := AcrossTheEnd(p, at, d, n);
  }

  lemma HiddenBound(at: nat, x: nat)
    requires 5 <= at <= 7
    requires x < if at == 5 then 0x100_0000 else if at == 6 then 0x1_0000 else 256
    ensures x < Pow2(8 * (8 - at))
  {
    PowersOfBytes();
  }

  lemma TwoHiddenBytes(n: nat) returns (d: seq<byte>)
    requires n == 496
    ensures |d| == 2 && d[0] != 0 && Steps(Pack(d), n) == 0x1bbe_0000
  {
    d := [0xda, 0x48];
    PackTwo(0xda, 0x48);
    CrcVectors.TwoBytesBefore(Pack(d), n);
  }

  lemma HiddenBytes(at: nat, n: nat) returns (d: seq<byte>)
    requires 5 <= at <= 7 && n == 448
    ensures |d| == at - 4 && d[0] != 0
    ensures at == 5 ==> Steps(Pack(d), n) < 0x100_0000
    ensures at == 6 ==> Steps(Pack(d), n) < 0x1_0000
    ensures at == 7 ==> Steps(Pack(d), n) < 256
  {
    PackTwo(0x55, 0x0d);
    PackThree(0x87, 0x33, 0xb8);
    d := if at == 5 then [0xe1] else if at == 6 then [0x55, 0x0d] else [0x87, 0x33, 0xb8];
    CrcVectors.BytesAfter(Pack(d), n);
  }

  /** Of the windows of at most four bytes, exactly those of four bytes that begin at
      byte 2, 5, 6 or 7 can hide damage. */
  lemma DetectsExactlyWhen(at: nat, len: nat)
    requires at + len <= UImage.UIMAGE_HDRSIZE && len <= 4
    ensures Detects(at, len) <==> !(len == 4 && at in [2, 5, 6, 7])
  {
    if len == 4 && at in [2, 5, 6, 7] {
      var p := SomeLoaded();
      var q := Hidden(p, at);
    } else {
      forall p, q | IsHeader(p) && IsHeader(q) && DamagedWithin(p, q, at, len)
                    && UImage.HeaderAccepted(p) && UImage.HeaderAccepted(q)
        ensures p == q
      {
        Detected(p, q, at, len);
      }
    }
  }

  // ---------- with the magic number ----------

  /** A loader that looks at the magic number as well. */
  predicate Loads(p: seq<byte>)
    requires IsHeader(p)
  {
    Be(p, 0) == UImage.UIMAGE_MAGIC && UImage.HeaderAccepted(p)
  }

  lemma SomeLoaded() returns (p: seq<byte>)
    ensures IsHeader(p) && Loads(p)
  {
    var m := SomeBytes(UImage.UIMAGE_MAGIC);
    var x := m + Zeros(UImage.UIMAGE_HDRSIZE - 4);
    p := WithChecksum(x);
    assert p[0..4] == m;
    BeOfSlice(p, 0);
  }

  ghost predicate LoaderDetects(at: nat, len: nat) {
    forall p, q | IsHeader(p) && IsHeader(q) && DamagedWithin(p, q, at, len) :: Loads(p) && Loads(q) ==> p == q
  }

  lemma SameMagic(p: seq<byte>, q: seq<byte>)
    requires IsHeader(p) && IsHeader(q) && Loads(p) && Loads(q) && DamagedWithin(p, q, 2, 4)
    ensures DamagedWithin(p, q, 4, 2)
  {
    BeInjective(p, q, 0);
    forall i | 0 <= i < 4
      ensures p[i] == q[i]
    {
      assert p[i] == p[0..4][i] && q[i] == q[0..4][i];
    }
  }

  lemma MagicKept(p: seq<byte>, q: seq<byte>, at: nat)
    requires IsHeader(p) && IsHeader(q) && DamagedWithin(p, q, at, 4) && at >= 4
    ensures Be(p, 0) == Be(q, 0)
  {
  }

  /** Then damage to the bytes from 2 to 5 does not stay hidden either. */
  lemma LoaderDetectsExactlyWhen(at: nat, len: nat)
    requires at + len <= UImage.UIMAGE_HDRSIZE && len <= 4
    ensures LoaderDetects(at, len) <==> !(len == 4 && at in [5, 6, 7])
  {
    if len == 4 && at in [5, 6, 7] {
      var p := SomeLoaded();
      var q := Hidden(p, at);
      MagicKept(p, q, at);
    } else {
      forall p, q | IsHeader(p) && IsHeader(q) && DamagedWithin(p, q, at, len) && Loads(p) && Loads(q)
        ensures p == q
      {
        if len == 4 && at == 2 {
          SameMagic(p, q);
          Detected(p, q, 4, 2);
        } else {
          Detected(p, q, at, len);
        }
      }
    }
  }
}
