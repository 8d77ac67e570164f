/** The image header written by mkuimage (mkuimage/mkuimage.c): its layout, and the
    two-pass checksum that a boot loader checks by clearing the checksum field. */
module UImage {
  import opened Bits
  import opened Crc32

  const UIMAGE_MAGIC: word := 0x27051956
  const UIMAGE_NAMELEN := 32
  const UIMAGE_HDRSIZE := 0x40

  type name = s: seq<byte> | |s| == UIMAGE_NAMELEN witness seq(UIMAGE_NAMELEN, _ => 0)

  datatype Uhdr = Uhdr(
    magic: word, hcrc: word, time: word, size: word, load: word, entry: word, dcrc: word,
    os: byte, arch: byte, typ: byte, comp: byte, name: name)

  // ---------- the layout ----------

  /** What strncpy leaves of a string: nothing after its first NUL. */
  predicate Copied(dst: seq<byte>, src: seq<byte>) {
    && |dst| == |src|
    && forall k :: 0 <= k < |dst| ==> dst[k] == if 0 in src[..k] then 0 else src[k]
  }

  function Words(h: Uhdr): seq<word> {
    [h.magic, h.hcrc, h.time, h.size, h.load, h.entry, h.dcrc]
  }

  predicate HoldsWords(p: seq<byte>, ws: seq<word>) {
    && 4 * |ws| <= |p|
    && forall k :: 0 <= k < |ws| ==> Be(p, 4 * k) == ws[k]
  }

  /** A reader finds every field of h in the header p. */
  predicate Holds(p: seq<byte>, h: Uhdr) {
    && |p| == UIMAGE_HDRSIZE
    && HoldsWords(p, Words(h))
    && p[28..32] == [h.os, h.arch, h.typ, h.comp]
    && Copied(p[32..], h.name)
  }

  lemma HoldsWordsPrefix(p: seq<byte>, q: seq<byte>, ws: seq<word>)
    requires HoldsWords(p, ws) && 4 * |ws| <= |q| && p[..4 * |ws|] == q[..4 * |ws|]
    ensures HoldsWords(q, ws)
  {
    forall k | 0 <= k < |ws|
      ensures Be(q, 4 * k) == ws[k]
    {
      assert p[4 * k..4 * k + 4] == p[..4 * |ws|][4 * k..4 * k + 4];
      assert q[4 * k..4 * k + 4] == q[..4 * |ws|][4 * k..4 * k + 4];
      BeOfSlice(p, 4 * k);
      BeOfSlice(q, 4 * k);
    }
  }

  /** The fields determine the header's bytes. */
  lemma HoldsDetermines(p: seq<byte>, q: seq<byte>, h: Uhdr)
    requires Holds(p, h) && Holds(q, h)
    ensures p == q
  {
    forall i | 0 <= i < 28
      ensures p[i] == q[i]
    {
      var at := i / 4 * 4;
      assert Be(p, 4 * (i / 4)) == Be(q, 4 * (i / 4));
      BeInjective(p, q, at);
      assert p[i] == p[at..at + 4][i - at] && q[i] == q[at..at + 4][i - at];
    }
    assert p == p[..28] + p[28..32] + p[32..] && q == q[..28] + q[28..32] + q[32..];
  }

  /** Where a reader finds the fields. */
  lemma FieldsAt(p: seq<byte>, h: Uhdr)
    requires Holds(p, h)
    ensures Be(p, 0) == h.magic && Be(p, 4) == h.hcrc && Be(p, 8) == h.time && Be(p, 12) == h.size
    ensures Be(p, 16) == h.load && Be(p, 20) == h.entry && Be(p, 24) == h.dcrc
    ensures p[28] == h.os && p[29] == h.arch && p[30] == h.typ && p[31] == h.comp
    ensures forall i :: 0 <= i < 32 ==> p[32 + i] == if 0 in h.name[..i] then 0 else h.name[i]
  {
    assert Be(p, 4 * 0) == Words(h)[0] && Be(p, 4 * 1) == Words(h)[1] && Be(p, 4 * 2) == Words(h)[2];
    assert Be(p, 4 * 3) == Words(h)[3] && Be(p, 4 * 4) == Words(h)[4];
    assert Be(p, 4 * 5) == Words(h)[5] && Be(p, 4 * 6) == Words(h)[6];
    assert p[28] == p[28..32][0] && p[29] == p[28..32][1] && p[30] == p[28..32][2] && p[31] == p[28..32][3];
    forall i | 0 <= i < 32
      ensures p[32 + i] == if 0 in h.name[..i] then 0 else h.name[i]
    {
      assert p[32 + i] == p[32..][i];
    }
  }

  // ---------- packing ----------

  method P32(p: array<byte>, at: nat, v: word) returns (n: nat)
    requires at + 4 <= p.Length
    modifies p
    ensures n == 4 && Be(p[..], at) == v
    ensures p[..at] == old(p[..at]) && p[at + 4..] == old(p[at + 4..])
  {
    StoreBe(p, at, v);
    n := 4;
  }

  /** Copies up to the first NUL, then pads with NULs. */
  method StrNCopy(p: array<byte>, at: nat, s: seq<byte>)
    requires at + |s| <= p.Length
    modifies p
    ensures Copied(p[at..at + |s|], s)
    ensures p[..at] == old(p[..at])
  {
    var i, ended := 0, false;
    while i < |s|
      invariant 0 <= i <= |s|
      invariant ended <==> 0 in s[..i]
      invariant forall k :: 0 <= k < i ==> p[at + k] == if 0 in s[..k] then 0 else s[k]
      invariant p[..at] == old(p[..at])
    {
      p[at + i] := if ended then 0 else s[i];
      assert s[..i + 1] == s[..i] + [s[i]];
      ended := ended || s[i] == 0;
      i := i + 1;
    }
  }

  method Clear(p: array<byte>)
    modifies p
    ensures forall k :: 0 <= k < p.Length ==> p[k] == 0
  {
    for i := 0 to p.Length
      invariant forall k :: 0 <= k < i ==> p[k] == 0
    {
      p[i] := 0;
    }
  }

  /** Stores the next word of the header, and returns the pointer behind it. */
  method NextWord(buf: array<byte>, p: nat, v: word, ghost ws: seq<word>) returns (p': nat)
    requires p == 4 * |ws| && p + 4 <= buf.Length && HoldsWords(buf[..], ws)
    modifies buf
    ensures p' == p + 4 && HoldsWords(buf[..], ws + [v])
  {
    ghost var before := buf[..];
    var n := P32(buf, p, v);
    p' := p + n;
    assert before[..p] == buf[..p] == buf[..][..p];
    HoldsWordsPrefix(before, buf[..], ws);
  }

  method PackWords(h: Uhdr, buf: array<byte>) returns (p: nat)
    requires 28 <= buf.Length
    modifies buf
    ensures p == 28 && HoldsWords(buf[..], Words(h))
  {
    p := NextWord(buf, 0, h.magic, []);
    p := NextWord(buf, p, h.hcrc, [h.magic]);
    p := NextWord(buf, p, h.time, [h.magic, h.hcrc]);
    p := NextWord(buf, p, h.size, [h.magic, h.hcrc, h.time]);
    p := NextWord(buf, p, h.load, [h.magic, h.hcrc, h.time, h.size]);
    p := NextWord(buf, p, h.entry, [h.magic, h.hcrc, h.time, h.size, h.load]);
    p := NextWord(buf, p, h.dcrc, [h.magic, h.hcrc, h.time, h.size, h.load, h.entry]);
  }

  method Pack(h: Uhdr, buf: array<byte>)
    requires buf.Length == UIMAGE_HDRSIZE
    modifies buf
    ensures Holds(buf[..], h)
  {
    Clear(buf);
    var p := PackWords(h, buf);
    ghost var words := buf[..];
    buf[p] := h.os;
    p := p + 1;
    buf[p] := h.arch;
    p := p + 1;
    buf[p] := h.typ;
    p := p + 1;
    buf[p] := h.comp;
    p := p + 1;
    ghost var bytes := buf[..];
    assert bytes[..28] == words[..28];
    assert bytes[28..32] == [h.os, h.arch, h.typ, h.comp];
    StrNCopy(buf, p, h.name);
    ghost var all := buf[..];
    assert all[..32] == bytes[..32];
    assert all[..28] == all[..32][..28] && bytes[..28] == bytes[..32][..28];
    HoldsWordsPrefix(words, all, Words(h));
    assert all[28..32] == all[..32][28..32] && bytes[28..32] == bytes[..32][28..32];
    assert all[32..] == buf[32..32 + |h.name|];
  }

  // ---------- the checksums ----------

  /** The boot loader's test: the header, with its checksum field cleared, has the
      checksum the field held. */
  predicate HeaderAccepted(hdr: seq<byte>)
    requires |hdr| == UIMAGE_HDRSIZE
  {
    Crc(Cleared(hdr)) == Be(hdr, 4)
  }

  function Cleared(hdr: seq<byte>): seq<byte>
    requires |hdr| == UIMAGE_HDRSIZE
  {
    hdr[..4] + [0, 0, 0, 0] + hdr[8..]
  }

  predicate DataAccepted(hdr: seq<byte>, data: seq<byte>)
    requires |hdr| == UIMAGE_HDRSIZE
  {
    Be(hdr, 12) == |data| && Be(hdr, 24) == Crc(data)
  }

  /** The part of main that makes the header: both packing passes and both
      checksums.  The boot loader accepts the result. */
  method MakeHeader(h: Uhdr, data: seq<byte>, buf: array<byte>)
    requires buf.Length == UIMAGE_HDRSIZE && |data| == h.size
    modifies buf
    ensures Holds(buf[..], h.(hcrc := Be(buf[..], 4), dcrc := Be(buf[..], 24)))
    ensures HeaderAccepted(buf[..]) && DataAccepted(buf[..], data)
    ensures var p := buf[..];
      && Be(p, 0) == h.magic && Be(p, 8) == h.time && Be(p, 12) == h.size && Be(p, 16) == h.load && Be(p, 20) == h.entry
      && p[28] == h.os && p[29] == h.arch && p[30] == h.typ && p[31] == h.comp
      && (forall i :: 0 <= i < 32 ==> p[32 + i] == if 0 in h.name[..i] then 0 else h.name[i])
  {
    var tab := new nat[256];
    MkCrcTab(tab);
    XorZero(ONES);
    CrcWord(data);
    var dcrc := Crc32.Crc32(tab, 0, data);
    var h' := h.(dcrc := dcrc, hcrc := 0);
    Pack(h', buf);
    ghost var first := buf[..];
    CrcWord(first);
    var hcrc := Crc32.Crc32(tab, 0, buf[..]);
    h' := h'.(hcrc := hcrc);
    Pack(h', buf);
    ghost var second := buf[..];
    CheckedField(first, second, h');
    FieldsAt(second, h');
  }

  lemma WordKept(p: seq<byte>, at: nat)
    requires |p| == UIMAGE_HDRSIZE && at + 4 <= |p| && (at + 4 <= 4 || 8 <= at)
    ensures Be(Cleared(p), at) == Be(p, at)
  {
  }

  lemma CheckedField(first: seq<byte>, second: seq<byte>, h: Uhdr)
    requires Holds(first, h.(hcrc := 0)) && Holds(second, h)
    ensures Cleared(second) == first
  {
    var c, ws := Cleared(second), Words(h.(hcrc := 0));
    forall k | 0 <= k < |ws|
      ensures Be(c, 4 * k) == ws[k]
    {
      if k != 1 {
        assert Be(second, 4 * k) == Words(h)[k] == ws[k];
        WordKept(second, 4 * k);
      }
    }
    assert c[28..32] == second[28..32];
    assert c[32..] == second[32..];
    HoldsDetermines(first, c, h.(hcrc := 0));
  }

  /** An accepted header that is damaged inside a window of four bytes, either all in
      the checksum field or all outside it, is no longer accepted. */
  lemma DamagedHeaderRejected(p: seq<byte>, q: seq<byte>, at: nat, len: nat)
    requires |p| == |q| == UIMAGE_HDRSIZE && at + len <= UIMAGE_HDRSIZE && len <= 4
    requires p[..at] == q[..at] && p[at + len..] == q[at + len..]
    requires at + len <= 4 || 8 <= at || (4 <= at && at + len <= 8)
    requires HeaderAccepted(p) && p != q
    ensures !HeaderAccepted(q)
  {
    if 4 <= at && at + len <= 8 {
      assert p[..4] == p[..at][..4] && q[..4] == q[..at][..4];
      assert p[8..] == p[at + len..][8 - at - len..] && q[8..] == q[at + len..][8 - at - len..];
      if Be(p, 4) == Be(q, 4) {
        BeInjective(p, q, 4);
      }
    } else {
      DamageSurvivesClearing(p, q, at, len);
      BurstDetected(Cleared(p), Cleared(q), at, len);
    }
  }

  lemma DamageSurvivesClearing(p: seq<byte>, q: seq<byte>, at: nat, len: nat)
    requires |p| == |q| == UIMAGE_HDRSIZE && at + len <= UIMAGE_HDRSIZE
    requires p[..at] == q[..at] && p[at + len..] == q[at + len..]
    requires at + len <= 4 || 8 <= at
    requires p != q
    ensures Cleared(p)[..at] == Cleared(q)[..at]
    ensures Cleared(p)[at + len..] == Cleared(q)[at + len..]
    ensures Cleared(p) != Cleared(q)
    ensures Be(p, 4) == Be(q, 4)
  {
    var x, y := Cleared(p), Cleared(q);
    forall i | 0 <= i < UIMAGE_HDRSIZE && (i < at || at + len <= i)
      ensures p[i] == q[i] && x[i] == y[i]
    {
      if i < at {
        assert p[i] == p[..at][i];
      } else {
        assert p[i] == p[at + len..][i - at - len];
      }
    }
    SameTail(x, y, at + len);
    assert p[4] == q[4] && p[5] == q[5] && p[6] == q[6] && p[7] == q[7];
    var i :| 0 <= i < UIMAGE_HDRSIZE && p[i] != q[i];
    assert x[i] == p[i] && y[i] == q[i];
  }

  lemma SameTail(x: seq<byte>, y: seq<byte>, from: nat)
    requires |x| == |y| && from <= |x| && forall i :: from <= i < |x| ==> x[i] == y[i]
    ensures x[from..] == y[from..]
  {
  }

  /** Data damaged inside a window of four bytes no longer matches the header. */
  lemma DamagedDataRejected(hdr: seq<byte>, x: seq<byte>, y: seq<byte>, at: nat, len: nat)
    requires |hdr| == UIMAGE_HDRSIZE && DataAccepted(hdr, x)
    requires |x| == |y| && at + len <= |x| && len <= 4
    requires x[..at] == y[..at] && x[at + len..] == y[at + len..] && x != y
    ensures !DataAccepted(hdr, y)
  {
    BurstDetected(x, y, at, len);
  }
}
