/** Responses of an SD card: the three 64-bit words that sdcmd assembles from
    16-bit registers (kwsdio.c), the fields that bits extracts from them
    (sdcard.c), and the capacity computed from the card-specific data. */
module SdCard {
  import opened Bits

  const BASE := 0x1_0000_0000_0000_0000

  /** The number whose base-2^64 digits are the response words, most significant
      first. */
  function Whole(r: seq<nat>): nat
    requires |r| == 3
  {
    (r[0] * BASE + r[1]) * BASE + r[2]
  }

  predicate Words(r: seq<nat>) {
    |r| == 3 && forall i :: 0 <= i < 3 ==> r[i] < BASE
  }

  // ---------- extracting a field ----------

  /** bits drops the top bit of a field that ends at a word boundary, and finds no
      bits in a field of one bit. */
  function Found(h: nat, l: nat): nat
    requires l <= h
  {
    if h == l || h % 64 == 0 then h - l else h - l + 1
  }

  method ExtractBits(r: seq<nat>, h: nat, l: nat) returns (v: nat)
    requires Words(r) && l <= h < 192 && h - l < 32
    ensures v == Low(Shr(Whole(r), l), Found(h, l))
    ensures l < h && h % 64 != 0 ==> v == Field(r, h, l)
    ensures l == h ==> v == 0
  {
    ghost var k := 0;
    v := 0;
    var o := 0;
    var i := 2;
    var h', l': int := h, l;
    while h' > l' && l' >= 0
      invariant 0 <= o <= h - l + 1 && 0 <= k <= 3 && i == 2 - k
      invariant h' == h - 64 * k && l' == l + o - 64 * k
      invariant v == Low(Shr(Whole(r), l), o)
      invariant o == 0 ==> l' >= 0
      invariant o == h - l + 1 ==> l < h && h % 64 != 0
      invariant 0 < o <= h - l ==> l + o == 64 * k
      decreases h'
    {
      if l' < 64 {
        var n := Min(h', 63) - l' + 1;
        v := OrField(r, i, l', n, l, o, v);
        l' := l' + n;
        o := o + n;
      }
      h' := h' - 64;
      l' := l' - 64;
      i := i - 1;
      k := k + 1;
    }
  }

  /** One round of the loop: n bits of a word, from bit l' of it on. */
  method OrField(r: seq<nat>, i: nat, l': nat, n: nat, ghost l: nat, o: nat, v: nat) returns (v': nat)
    requires Words(r) && i < 3 && l' + n <= 64 && l + o == 64 * (2 - i) + l'
    requires v == Low(Shr(Whole(r), l), o)
    ensures v' == Low(Shr(Whole(r), l), o + n)
  {
    FieldGrows(r, 2 - i, l', n, l, o);
    v' := Or(v, Shl(Low(Shr(r[i], l'), n), o));
  }

  /** A field that is found whole. */
  method ExtractField(r: seq<nat>, h: nat, l: nat) returns (v: nat)
    requires Words(r) && l < h < 192 && h - l < 32 && h % 64 != 0
    ensures v == Field(r, h, l)
  {
    v := ExtractBits(r, h, l);
  }

  // In these lemmas w is the width of a word: as a constant it would have the verifier
  // unfold the definition of powers 64 times.

  lemma BaseIsPower(w: nat)
    requires w == 64
    ensures Pow2(w) == BASE
  {
    var a: nat :| a == 4;
    assert Pow2(a) == 16;
    PowerSquared(a, 16);
    PowerSquared(2 * a, 256);
    PowerSquared(4 * a, 0x1_0000);
    PowerSquared(8 * a, 0x1_0000_0000);
  }

  lemma PowerSquared(m: nat, p: nat)
    requires Pow2(m) == p
    ensures Pow2(2 * m) == p * p
  {
    PowersMultiply(m, m);
  }

  lemma {:induction false} PowersMultiply(m: nat, n: nat)
    ensures Pow2(m + n) == Pow2(m) * Pow2(n)
    decreases n
  {
    if n > 0 {
      PowersMultiply(m, n - 1);
      DoubledFactor(Pow2(m), Pow2(n - 1));
    }
  }

  lemma DigitParts(x: nat, hi: nat, lo: nat, w: nat)
    requires x == hi * BASE + lo && lo < BASE && w == 64
    ensures Shr(x, w) == hi && Low(x, w) == lo
  {
    BaseIsPower(w);
    ShrIsDiv(x, w);
    DivUnique(x, BASE, hi, lo);
  }

  lemma DigitsParts(x: nat, u: nat, r0: nat, r1: nat, r2: nat, w: nat)
    requires x == u * BASE + r2 && u == r0 * BASE + r1
    requires r0 < BASE && r1 < BASE && r2 < BASE && w == 64
    ensures Low(x, w) == r2 && Low(Shr(x, w), w) == r1 && Low(Shr(x, w + w), w) == r0
  {
    DigitParts(x, u, r2, w);
    DigitParts(u, r0, r1, w);
    DigitParts(r0, 0, r0, w);
    ShrAdd(x, w, w);
  }

  lemma WordAt(r: seq<nat>, k: nat, at: nat, w: nat)
    requires Words(r) && k < 3 && at == 64 * k && w == 64
    ensures Low(Shr(Whole(r), at), w) == r[2 - k]
  {
    var x, r0, r1, r2 := Whole(r), r[0], r[1], r[2];
    DigitsParts(x, r0 * BASE + r1, r0, r1, r2, w);
    if k == 0 {
      assert at == 0;
    } else if k == 1 {
      assert at == w;
    } else {
      assert at == w + w;
    }
  }

  /** A field inside one word is the same field of the whole response. */
  lemma WordField(r: seq<nat>, k: nat, at: nat, l: nat, n: nat)
    requires Words(r) && k < 3 && at == 64 * k && l + n <= 64
    ensures Low(Shr(r[2 - k], l), n) == Low(Shr(Whole(r), at + l), n)
  {
    var w: nat :| w == 64;
    WordAt(r, k, at, w);
    ShrAdd(Whole(r), at, l);
    LowShrLow(Shr(Whole(r), at), w, l, n);
  }

  /** One more word's part of the field that starts at bit l of the response. */
  lemma FieldGrows(r: seq<nat>, k: nat, l': nat, n: nat, l: nat, o: nat)
    requires Words(r) && k < 3 && l' + n <= 64 && l + o == 64 * k + l'
    ensures Or(Low(Shr(Whole(r), l), o), Shl(Low(Shr(r[2 - k], l'), n), o)) == Low(Shr(Whole(r), l), o + n)
  {
    var x := Shr(Whole(r), l);
    WordField(r, k, 64 * k, l', n);
    ShrAdd(Whole(r), l, o);
    LowSplit(x, o, n);
    ShrLow(x, o);
    OrDisjoint(Low(x, o), Low(Shr(x, o), n), o);
  }

  /** The field from bit h down to bit l of the response. */
  function Field(r: seq<nat>, h: nat, l: nat): nat
    requires |r| == 3 && l <= h
  {
    Low(Shr(Whole(r), l), h - l + 1)
  }

  lemma FieldIsQuotient(r: seq<nat>, h: nat, l: nat)
    requires |r| == 3 && l <= h
    ensures Field(r, h, l) == Whole(r) / Pow2(l) % Pow2(h - l + 1)
  {
    ShrIsDiv(Whole(r), l);
    ShrIsDiv(Shr(Whole(r), l), h - l + 1);
  }

  /** Exactly the fields of at least two bits that do not end at a word boundary are
      extracted from every response. */
  lemma FieldFound(h: nat, l: nat)
    requires l <= h < 192 && h - l < 32
    ensures (forall r :: Words(r) ==> Low(Shr(Whole(r), l), Found(h, l)) == Field(r, h, l))
       <==> (l < h && h % 64 != 0)
  {
    if l < h && h % 64 != 0 {
    } else {
      var r := TopBitAlone(h);
      TopBitAlonePlace(h);
      TopBitLost(h, l);
      assert Low(Shr(Whole(r), l), Found(h, l)) != Field(r, h, l);
    }
  }

  /** A response in which only bit h is set. */
  function TopBitAlone(h: nat): seq<nat>
    requires h < 192
  {
    [0, 0, 0][2 - h / 64 := Shl(1, h % 64)]
  }

  lemma TopBitAlonePlace(h: nat)
    requires h < 192
    ensures Words(TopBitAlone(h)) && Whole(TopBitAlone(h)) == Shl(1, h)
  {
    DigitPlace(h, h / 64, h % 64);
  }

  lemma DigitPlace(h: nat, k: nat, j: nat)
    requires k < 3 && j < 64 && h == 64 * k + j
    ensures Shl(1, j) < BASE && Whole([0, 0, 0][2 - k := Shl(1, j)]) == Shl(1, h)
  {
    var w: nat :| w == 64;
    BaseIsPower(w);
    PowersGrow(j, w);
    ShlIsMul(1, j);
    ShlIsMul(1, h);
    PowerAt(j, h, k, w);
    DigitAlone(Shl(1, j), k);
  }

  function Weight(k: nat): nat {
    if k == 0 then 1 else BASE * Weight(k - 1)
  }

  lemma {:induction false} PowerAt(j: nat, h: nat, k: nat, w: nat)
    requires h == 64 * k + j && w == 64
    ensures Pow2(h) == Pow2(j) * Weight(k)
    decreases k
  {
    if k > 0 {
      BaseIsPower(w);
      PowersMultiply(h - w, w);
      PowerAt(j, h - w, k - 1, w);
      BaseInside(Pow2(j), Weight(k - 1));
    }
  }

  lemma BaseInside(p: nat, m: nat)
    ensures p * m * BASE == p * (BASE * m)
  {
  }

  lemma DigitAlone(p: nat, k: nat)
    requires k < 3
    ensures Whole([0, 0, 0][2 - k := p]) == p * Weight(k)
  {
    assert Weight(1) == BASE;
    assert Weight(2) == BASE * BASE;
  }

  lemma {:induction false} PowersGrow(j: nat, w: nat)
    requires j < w
    ensures Pow2(j) < Pow2(w)
  {
    if j + 1 < w {
      PowersGrow(j, w - 1);
    }
  }

  /** Of a response in which only the top bit of a field is set, the fields that are not
      found lose that bit. */
  lemma TopBitLost(h: nat, l: nat)
    requires l <= h < 192
    ensures Words(TopBitAlone(h))
    ensures h == l || h % 64 == 0 ==> Low(Shr(Whole(TopBitAlone(h)), l), Found(h, l)) != Field(TopBitAlone(h), h, l)
    ensures Low(Shr(Whole(TopBitAlone(h)), l), h - l) != Low(Shr(Whole(TopBitAlone(h)), l), h - l + 1)
  {
    TopBitAlonePlace(h);
    var n := h - l;
    ShlAdd(1, n, l);
    ShrOfShl(Shl(1, n), l);
    ShrOfShl(1, n);
    LowSplit(Shl(1, n), n, 1);
    assert Low(1, 1) == 1;
    ShlPositive(1, n);
  }

  // ---------- assembling a response ----------

  /** Eight 16-bit registers. */
  predicate Halves(g: seq<nat>) {
    |g| == 8 && forall i :: 0 <= i < 8 ==> g[i] < 0x1_0000
  }

  /** The 134 bits the registers hold: eight 16-bit registers, of which the last has
      only 14 bits, then a 7-bit checksum and an end bit. */
  function Response136(g: seq<nat>, crc7: nat): nat
    requires Halves(g)
  {
    crc7 * 2 + g[7] % 0x4000 * 0x100 + g[6] * 0x40_0000 + g[5] * 0x40_0000_0000
    + g[4] * 0x40_0000_0000_0000 + BASE * (g[3] * 0x40 + g[2] * 0x40_0000 + g[1] * 0x40_0000_0000
    + g[0] * 0x40_0000_0000_0000)
  }

  /** The registers up to i as one number. */
  function Leading(g: seq<nat>, i: nat): nat
    requires i < |g|
  {
    if i == 0 then g[0] else Leading(g, i - 1) * 0x1_0000 + g[i]
  }

  lemma LeadingShr(g: seq<nat>, i: nat)
    requires Halves(g) && 0 < i < 8
    ensures Shr(Leading(g, i), 16) == Leading(g, i - 1) && Low(Leading(g, i), 16) == g[i]
  {
    ShrHalfWord(Leading(g, i));
    LowHalf(Leading(g, i - 1), g[i]);
  }

  lemma LowHalf(x: nat, y: nat)
    requires y < 0x1_0000
    ensures Low(x * 0x1_0000 + y, 16) == y
  {
    var k: nat :| k == 16;
    Pow2Byte(0);
    Pow2Byte(8);
    ShrIsDiv(x * 0x1_0000 + y, k);
  }

  /** What is above the last register's part. */
  lemma ResponseAbove(g: seq<nat>, crc7: nat)
    requires Halves(g) && crc7 < 128
    ensures Shr(Response136(g, crc7), 22) == Leading(g, 6)
  {
    var x, lo := Leading(g, 6), crc7 * 2 + g[7] % 0x4000 * 0x100;
    LeadingSum(g);
    assert Response136(g, crc7) == x * 0x40_0000 + lo && lo < 0x40_0000;
    ShrAdd(Response136(g, crc7), 16, 6);
    ShrHalfWord(Response136(g, crc7));
    ShrAdd(Response136(g, crc7) / 0x1_0000, 4, 2);
    ShrNibble(Response136(g, crc7) / 0x1_0000);
    ShrTwo(Response136(g, crc7) / 0x1_0000 / 16);
  }

  lemma ShrTwo(a: nat)
    ensures Shr(a, 2) == a / 4
  {
    assert Shr(a / 2, 1) == a / 2 / 2;
  }

  lemma LeadingSum(g: seq<nat>)
    requires Halves(g)
    ensures Leading(g, 6) * 0x40_0000 == g[6] * 0x40_0000 + g[5] * 0x40_0000_0000
      + g[4] * 0x40_0000_0000_0000 + BASE * (g[3] * 0x40 + g[2] * 0x40_0000 + g[1] * 0x40_0000_0000
      + g[0] * 0x40_0000_0000_0000)
  {
    assert Leading(g, 0) == g[0] && Leading(g, 1) == Leading(g, 0) * 0x1_0000 + g[1];
    assert Leading(g, 2) == Leading(g, 1) * 0x1_0000 + g[2] && Leading(g, 3) == Leading(g, 2) * 0x1_0000 + g[3];
    assert Leading(g, 4) == Leading(g, 3) * 0x1_0000 + g[4] && Leading(g, 5) == Leading(g, 4) * 0x1_0000 + g[5];
    assert Leading(g, 6) == Leading(g, 5) * 0x1_0000 + g[6];
  }

  lemma {:induction false} LeadingAt(g: seq<nat>, i: nat, x: nat)
    requires Halves(g) && i <= 6 && Shr(x, 22) == Leading(g, 6)
    ensures Shr(x, 118 - 16 * i) == Leading(g, i)
    decreases 6 - i
  {
    if i < 6 {
      LeadingAt(g, i + 1, x);
      LeadingShr(g, i + 1);
      ShrAdd(x, 118 - 16 * (i + 1), 16);
    }
  }

  /** Where the bits of the registers are found in the response. */
  lemma RegisterInResponse(r: seq<nat>, g: seq<nat>, crc7: nat, i: nat)
    requires Halves(g) && crc7 < 128 && |r| == 3 && Whole(r) == Response136(g, crc7) && i < 7
    ensures Field(r, 133 - 16 * i, 118 - 16 * i) == g[i]
  {
    ResponseAbove(g, crc7);
    LeadingAt(g, i, Whole(r));
    if i > 0 {
      LeadingShr(g, i);
    } else {
      LowWhole(g[0]);
    }
  }

  /** The 46 bits of a short response. */
  function Response48(g: seq<nat>, crc7: nat): nat
    requires Halves(g)
  {
    crc7 * 2 + g[2] % 0x40 * 0x100 + g[1] * 0x4000 + g[0] * 0x4000_0000
  }

  lemma RegistersInResponse(r: seq<nat>, g: seq<nat>, crc7: nat)
    requires Halves(g) && crc7 < 128 && |r| == 3 && Whole(r) == Response136(g, crc7)
    ensures forall i :: 0 <= i < 7 ==> Field(r, 133 - 16 * i, 118 - 16 * i) == g[i]
  {
    forall i | 0 <= i < 7
      ensures Field(r, 133 - 16 * i, 118 - 16 * i) == g[i]
    {
      RegisterInResponse(r, g, crc7, i);
    }
  }

  lemma ShortAbove(g: seq<nat>, crc7: nat)
    requires Halves(g) && crc7 < 128
    ensures Shr(Response48(g, crc7), 14) == g[0] * 0x1_0000 + g[1]
  {
    var x := Response48(g, crc7);
    var y, lo := g[0] * 0x1_0000 + g[1], crc7 * 2 + g[2] % 0x40 * 0x100;
    assert x == y * 0x4000 + lo && lo < 0x4000;
    ShrFourteen(x);
  }

  lemma ShrFourteen(x: nat)
    ensures Shr(x, 14) == x / 0x4000
  {
    ShrAdd(x, 8, 6);
    ShrByte(x);
    ShrAdd(x / 256, 4, 2);
    ShrNibble(x / 256);
    ShrTwo(x / 256 / 16);
  }

  lemma LowWhole(y: nat)
    requires y < 0x1_0000
    ensures Low(y, 16) == y
  {
    LowHalf(0, y);
  }

  lemma UpperHalf(x: nat, n: nat, y: nat)
    requires y < WORD && Shr(x, n) == y
    ensures Low(Shr(x, n + 16), 16) == y / 0x1_0000
  {
    ShrAdd(x, n, 16);
    ShrHalfWord(y);
    LowWhole(y / 0x1_0000);
  }

  /** And in a short response. */
  lemma RegistersInShort(r: seq<nat>, g: seq<nat>, crc7: nat)
    requires Halves(g) && crc7 < 128 && |r| == 3 && Whole(r) == Response48(g, crc7)
    ensures Field(r, 45, 30) == g[0] && Field(r, 29, 14) == g[1]
  {
    ShortAbove(g, crc7);
    UpperHalf(Whole(r), 14, g[0] * 0x1_0000 + g[1]);
    LowHalf(g[0], g[1]);
  }

  /** w |= field, where the field's bits all lie at or above the power of two p, and
      w's below it. */
  method OrIn(w: nat, field: nat, ghost value: nat, ghost p: nat) returns (r: nat)
    requires field == value * p && w < p
    requires p in {0x40, 0x100, 0x4000, 0x40_0000, 0x4000_0000, 0x40_0000_0000, 0x40_0000_0000_0000}
    ensures r == w + field
  {
    UsedPower(p);
    OrAbove(w, value, p);
    r := Or(w, field);
  }

  lemma UsedPower(p: nat)
    requires p in {0x40, 0x100, 0x4000, 0x40_0000, 0x4000_0000, 0x40_0000_0000, 0x4000_0000_0000,
                   0x40_0000_0000_0000}
    ensures IsPow2(p)
    decreases p
  {
    if 0x100 < p {
      UsedPower(0x100);
      UsedPower(p / 256);
      PowersAbove(p, 256, p / 256);
    }
  }

  lemma {:induction false} PowersAbove(p: nat, m: nat, q: nat)
    requires IsPow2(m) && IsPow2(q) && p == m * q
    ensures IsPow2(p)
    decreases m
  {
    if m != 1 {
      assert p == 2 * (m / 2 * q);
      PowersAbove(p / 2, m / 2, q);
    }
  }

  /** A shift by 54 keeps ten bits of a register in a 64-bit word. */
  lemma Truncated(h: nat)
    ensures h * 0x40_0000_0000_0000 % BASE == h % 0x400 * 0x40_0000_0000_0000
  {
  }

  /** The words a long response is split into hold all of its bits. */
  method Assemble136(g: seq<nat>, crc7: nat) returns (resp: seq<nat>)
    requires Halves(g) && crc7 < 128
    ensures Words(resp) && Whole(resp) == Response136(g, crc7)
    ensures forall i :: 0 <= i < 7 ==> Field(resp, 133 - 16 * i, 118 - 16 * i) == g[i]
  {
    resp := [g[0] / 0x400, 0, 0];

    Truncated(g[0]);
    Truncated(g[4]);
    var w := g[4] / 0x400;
    w := OrIn(w, g[3] * 0x40, g[3], 0x40);
    w := OrIn(w, g[2] * 0x40_0000, g[2], 0x40_0000);
    w := OrIn(w, g[1] * 0x40_0000_0000, g[1], 0x40_0000_0000);
    w := OrIn(w, g[0] * 0x40_0000_0000_0000 % BASE, g[0] % 0x400, 0x40_0000_0000_0000);
    resp := resp[1 := w];

    w := crc7 * 2;
    w := OrIn(w, g[7] % 0x4000 * 0x100, g[7] % 0x4000, 0x100);
    w := OrIn(w, g[6] * 0x40_0000, g[6], 0x40_0000);
    w := OrIn(w, g[5] * 0x40_0000_0000, g[5], 0x40_0000_0000);
    w := OrIn(w, g[4] * 0x40_0000_0000_0000 % BASE, g[4] % 0x400, 0x40_0000_0000_0000);
    resp := resp[2 := w];
    RegistersInResponse(resp, g, crc7);
  }

  method Assemble48(g: seq<nat>, crc7: nat) returns (resp: seq<nat>)
    requires Halves(g) && crc7 < 128
    ensures Words(resp) && Whole(resp) == Response48(g, crc7)
    ensures Field(resp, 45, 30) == g[0] && Field(resp, 29, 14) == g[1]
  {
    var w := crc7 * 2;
    w := OrIn(w, g[2] % 0x40 * 0x100, g[2] % 0x40, 0x100);
    w := OrIn(w, g[1] * 0x4000, g[1], 0x4000);
    w := OrIn(w, g[0] * 0x4000_0000, g[0], 0x4000_0000);
    resp := [0, 0, w];
    RegistersInShort(resp, g, crc7);
  }

  // ---------- the card-specific data and the capacity ----------

  /** The fields of the card-specific data that say how large the card is. */
  class Csd {
    var vers: nat
    var rbl: nat
    var size: nat
    var sizemult: nat

    predicate Holds(r: seq<nat>)
      requires |r| == 3
      reads this
    {
      && vers == Field(r, 127, 126) && vers < 2
      && rbl == Field(r, 83, 80)
      && (vers == 0 ==> size == Field(r, 75, 62) && sizemult == Field(r, 49, 47))
      && (vers == 1 ==> size == Field(r, 69, 48))
    }

    /** False for a structure version the driver does not know. */
    method ParseCsd(r: seq<nat>) returns (ok: bool)
      requires Words(r)
      modifies this
      ensures ok <==> Field(r, 127, 126) < 2
      ensures ok ==> Holds(r)
    {
      vers := ExtractField(r, 127, 126);
      if vers != 0 && vers != 1 {
        return false;
      }
      rbl := ExtractField(r, 83, 80);
      if vers == 0 {
        size := ExtractField(r, 75, 62);
        sizemult := ExtractField(r, 49, 47);
      } else {
        size := ExtractField(r, 69, 48);
      }
      ok := true;
    }

    /** The block size and capacity in bytes that sdinit computes. */
    method Capacity() returns (bs: nat, bytes: nat)
      ensures vers == 0 ==> bs == Pow2(rbl) && bytes == (size + 1) * Pow2(sizemult + 2) * Pow2(rbl)
      ensures vers != 0 ==> bs == 512 && bytes == (size + 1) * 0x8_0000
    {
      if vers == 0 {
        bs := Pow2(rbl);
        bytes := size + 1;
        bytes := bytes * Pow2(sizemult + 2);
        bytes := bytes * Pow2(rbl);
      } else {
        bs := 512;
        bytes := (size + 1) * bs * 1024;
      }
    }
  }

  /** Section 5.3 of the SD Physical Layer Simplified Specification. */
  function StandardCapacity(r: seq<nat>): nat
    requires |r| == 3
  {
    if Field(r, 127, 126) == 0 then
      (Field(r, 73, 62) + 1) * Pow2(Field(r, 49, 47) + 2) * Pow2(Field(r, 83, 80))
    else
      (Field(r, 69, 48) + 1) * 512 * 1024
  }

  /** From the registers to the capacity: it is the standard's, except that for a
      version 1 structure the two reserved bits above C_SIZE must be clear. */
  method CardCapacity(g: seq<nat>, crc7: nat, csd: Csd) returns (resp: seq<nat>, ok: bool, bytes: nat)
    requires Halves(g) && crc7 < 128
    modifies csd
    ensures Words(resp) && Whole(resp) == Response136(g, crc7)
    ensures ok <==> Field(resp, 127, 126) < 2
    ensures ok ==>
      (bytes == StandardCapacity(resp) <==> Field(resp, 127, 126) == 1 || Field(resp, 75, 74) == 0)
  {
    resp := Assemble136(g, crc7);
    ok := csd.ParseCsd(resp);
    bytes := 0;
    if ok {
      var bs;
      bs, bytes := csd.Capacity();
      CapacityIsStandard(resp, csd.size, csd.sizemult, csd.rbl);
    }
  }

  lemma CapacityIsStandard(r: seq<nat>, size: nat, mult: nat, rbl: nat)
    requires Words(r) && rbl == Field(r, 83, 80)
    requires Field(r, 127, 126) == 0 ==> size == Field(r, 75, 62) && mult == Field(r, 49, 47)
    ensures Field(r, 127, 126) == 0 ==>
      ((size + 1) * Pow2(mult + 2) * Pow2(rbl) == StandardCapacity(r) <==> Field(r, 75, 74) == 0)
  {
    ReservedBits(r);
    var c, p, q := Field(r, 73, 62), Pow2(mult + 2), Pow2(rbl);
    if size != c {
      Product(size + 1, c + 1, p, q);
    }
  }

  /** A structure in which one of the reserved bits is set. */
  lemma CapacityExample(h: nat)
    requires h == 74 || h == 75
    ensures var r := TopBitAlone(h);
      && Words(r) && Field(r, 127, 126) == 0 && Field(r, 75, 74) != 0
      && (Field(r, 75, 62) + 1) * Pow2(Field(r, 49, 47) + 2) * Pow2(Field(r, 83, 80)) != StandardCapacity(r)
  {
    var r := TopBitAlone(h);
    TopBitAlonePlace(h);
    BitInField(h, 75, 74);
    BitBeyond(h, 126);
    assert Low(0, 2) == 0;
    CapacityIsStandard(r, Field(r, 75, 62), Field(r, 49, 47), Field(r, 83, 80));
  }

  lemma BitInField(h: nat, top: nat, l: nat)
    requires l <= h <= top < 192
    ensures Field(TopBitAlone(h), top, l) != 0
  {
    TopBitAlonePlace(h);
    ShlAdd(1, h - l, l);
    ShrOfShl(Shl(1, h - l), l);
    LowSplit(Shl(1, h - l), h - l, top - h + 1);
    ShrOfShl(1, h - l);
    LowOne(top - h + 1);
    ShlPositive(1, h - l);
  }

  lemma {:induction false} LowOne(k: nat)
    ensures Low(0, k) == 0 && (k > 0 ==> Low(1, k) == 1)
    decreases k
  {
    if k > 0 {
      LowOne(k - 1);
    }
  }

  lemma BitBeyond(h: nat, l: nat)
    requires h < l && h < 192
    ensures Shr(Whole(TopBitAlone(h)), l) == 0
  {
    TopBitAlonePlace(h);
    ShrAdd(Shl(1, h), h, l - h);
    ShrOfShl(1, h);
    ShrIsDiv(1, l - h);
    PowersGrow(0, l - h);
  }

  lemma Product(a: nat, b: nat, p: nat, q: nat)
    requires a != b && 0 < p && 0 < q
    ensures a * p * q != b * p * q
  {
    if a * p * q == b * p * q {
      MulSmall(a * p - b * p, q);
      MulSmall(a - b, p);
    }
  }

  lemma ReservedBits(r: seq<nat>)
    requires |r| == 3
    ensures Field(r, 75, 62) == Field(r, 73, 62) + 4096 * Field(r, 75, 74)
  {
    var x := Shr(Whole(r), 62);
    ShrAdd(Whole(r), 62, 12);
    LowSplit(x, 12, 2);
    ShlIsMul(Field(r, 75, 74), 12);
    assert Pow2(12) == 4096;
  }
}
