/** Reading and writing a partition of a block store: requests that do not fit the
    device's blocks go through a wider buffer (devbs.c). */
module BlockIo {
  import opened Bits

  // ---------- alignment ----------

  predicate Aligned(x: int, a: nat)
    requires a > 0
  {
    x % a == 0
  }

  /** x & ~(a-1) for a power of two a. */
  function Down(x: nat, a: nat): (d: nat)
    requires a > 0
    ensures d <= x
  {
    x - x % a
  }

  lemma AlignedSum(x: nat, y: int, a: nat)
    requires a > 0 && Aligned(x, a) && Aligned(y, a)
    ensures Aligned(x + y, a) && Aligned(x - y, a)
  {
    var p, q := x / a, y / a;
    assert x + y == (p + q) * a && x - y == (p - q) * a;
    Multiple(p + q, a);
    Multiple(p - q, a);
  }

  lemma Multiple(q: int, a: nat)
    requires a > 0
    ensures Aligned(q * a, a)
  {
    var x := q * a;
    assert x == x / a * a + x % a;
    assert (q - x / a) * a == x % a;
    MulSmall(q - x / a, a);
  }

  lemma DownAligned(x: nat, a: nat)
    requires a > 0
    ensures Aligned(Down(x, a), a) && x < Down(x, a) + a
  {
    assert Down(x, a) == x / a * a;
    Multiple(x / a, a);
  }

  /** Down gives the largest multiple that is not larger. */
  lemma DownGreatest(x: nat, y: int, a: nat)
    requires a > 0 && Aligned(y, a)
    ensures y <= x ==> y <= Down(x, a)
    ensures x < y + a ==> Down(x, a) <= y
  {
    DownAligned(x, a);
    AlignedSum(Down(x, a), y, a);
    var d := Down(x, a) - y;
    assert d == d / a * a;
    if d < a && 0 < d + a {
      MulSmall(d / a, a);
    }
  }

  // ---------- widening ----------

  /** The mask has 32 bits and no sign: and-ing with its complement clears the higher
      bits of an offset as well. */
  const WRAP := 0x1_0000_0000

  /** C's long has 32 bits; a request leaves room for rounding it up. */
  const LONGEST := 0x7FFF_FC00

  /** What the device is asked for, to serve the n bytes at s. */
  function Widen(s: nat, n: nat, a: nat): (nat, nat)
    requires a > 0
  {
    (Down(s % WRAP, a), Down(n + s % a + a - 1, a))
  }

  predicate BlockSize(a: nat) {
    a > 0 && Aligned(512, a)
  }

  lemma BlockIsSmall(a: nat)
    requires BlockSize(a)
    ensures a <= 512
  {
    if a > 512 {
      DivUnique(512, a, 0, 512);
    }
  }

  lemma SectorsAligned(q: nat, a: nat)
    requires BlockSize(a)
    ensures Aligned(q * 512, a)
  {
    var k := 512 / a;
    Multiple(q * k, a);
    Regroup(q, k, a);
    assert q * 512 == q * k * a;
  }

  lemma Regroup(p: nat, q: nat, r: nat)
    ensures p * q * r == p * (q * r)
  {
  }

  /** Where the bytes at s are looked for. */
  function Place(s: nat): nat {
    s % WRAP
  }

  /** A place is some multiple of 2^32 too low, and in the same position in its block. */
  lemma PlaceInBlock(s: nat, a: nat)
    requires BlockSize(a)
    ensures Aligned(s - Place(s), a) && Place(s) % a == s % a
    ensures Down(s, a) == s - Place(s) + Down(Place(s), a)
  {
    var high, x := s - Place(s), Place(s);
    SectorsAligned(s / WRAP * 0x80_0000, a);
    DownAligned(x, a);
    AlignedSum(high, Down(x, a), a);
    var d := high + Down(x, a);
    assert d == d / a * a;
    DivUnique(s, a, d / a, x % a);
  }

  /** The bytes looked for are in the wider range, which stays inside every aligned range
      around the bytes asked for, moved down as they are. */
  lemma WidenCovers(s: nat, n: nat, a: nat, lo: nat, hi: nat)
    requires BlockSize(a) && Aligned(lo, a) && Aligned(hi, a) && lo <= s && s + n <= hi
    ensures var (xs, xn) := Widen(s, n, a); var high := s - Place(s);
      && Aligned(xs, a) && Aligned(xn, a)
      && lo <= high + xs && high + xs + xn <= hi
      && xs + s % a == Place(s) && s % a + n <= xn
  {
    var (xs, xn) := Widen(s, n, a);
    PlaceInBlock(s, a);
    DownAligned(s, a);
    DownAligned(Place(s), a);
    DownGreatest(s, lo, a);
    DownAligned(n + s % a + a - 1, a);
    AlignedSum(hi, Down(s, a), a);
    DownGreatest(n + s % a + a - 1, hi - Down(s, a), a);
  }

  /** The request goes to the device as it is exactly when it is aligned and its
      offset fits in 32 bits. */
  lemma DirectExactlyWhen(s: nat, n: nat, a: nat)
    requires BlockSize(a)
    ensures Widen(s, n, a) == (s, n) <==> s < WRAP && Aligned(s, a) && Aligned(n, a)
  {
    var (xs, xn) := Widen(s, n, a);
    DownAligned(Place(s), a);
    DownAligned(n + s % a + a - 1, a);
    if xs == s && xn == n {
      assert s <= Place(s);
    }
    if Aligned(s, a) && Aligned(n, a) {
      DownGreatest(n + a - 1, n, a);
    }
  }

  lemma AlignedStays(n: nat, a: nat)
    requires a > 0 && Aligned(n, a)
    ensures Down(n + a - 1, a) == n
  {
    DownAligned(n + a - 1, a);
    DownGreatest(n + a - 1, n, a);
  }

  /** How far behind the start of the wider range the bytes are: the difference is a long,
      and an offset from a pointer, of 32 bits each. */
  lemma SkipInBlock(s: nat, a: nat, k: nat)
    requires BlockSize(a) && k <= 0x7FFF_FFFF
    ensures var xs := Down(Place(s), a);
      xs <= s && (s - xs) % WRAP == s % a && Long(k - (s - xs)) == k - s % a
  {
    PlaceInBlock(s, a);
    BlockIsSmall(a);
    DownAligned(Place(s), a);
    assert s - Down(Place(s), a) == s / WRAP * WRAP + s % a;
    Periodic(s % a, s / WRAP);
    LongPeriodic(k - s % a, s / WRAP);
    LongSmall(k - s % a);
  }

  lemma Periodic(x: nat, q: nat)
    requires x < WRAP
    ensures (q * WRAP + x) % WRAP == x
  {
  }

  // ---------- the device ----------

  datatype Request = Request(write: bool, off: nat, n: nat)

  datatype Result = Ok(n: nat) | Error

  /** How a device answers: it moves at most so many bytes, and then may report an
      error. */
  datatype Answer = Answer(most: nat, fails: bool)

  /** data with the bytes b put at off. */
  function Splice(data: seq<byte>, off: nat, b: seq<byte>): (r: seq<byte>)
    requires b != [] ==> off + |b| <= |data|
    ensures |r| == |data|
  {
    if b == [] then data else data[..off] + b + data[off + |b|..]
  }

  /** The n bytes of data at off. */
  function Bytes(data: seq<byte>, off: nat, n: nat): (r: seq<byte>)
    requires n > 0 ==> off + n <= |data|
    ensures |r| == n
  {
    if n == 0 then [] else data[off..off + n]
  }

  class Device {
    const data: array<byte>
    ghost var asked: seq<Request>

    constructor (data: array<byte>)
      ensures this.data == data && asked == []
    {
      this.data, asked := data, [];
    }

    /** How many bytes a request moves. */
    ghost function Moves(n: nat, off: nat, ans: Answer): nat {
      Min(Min(ans.most, n), if off < data.Length then data.Length - off else 0)
    }

    method Transfer(write: bool, buf: array<byte>, n: nat, off: nat, ans: Answer) returns (r: Result)
      requires n <= buf.Length && buf != data
      modifies `asked, if write then data else buf
      ensures asked == old(asked) + [Request(write, off, n)]
      ensures var k := Moves(n, off, ans);
        && r == (if ans.fails then Error else Ok(k))
        && (write ==> data[..] == Splice(old(data[..]), off, buf[..k]))
        && (!write ==> buf[..] == Bytes(data[..], off, k) + old(buf[k..]))
    {
      asked := asked + [Request(write, off, n)];
      var k := Min(Min(ans.most, n), if off < data.Length then data.Length - off else 0);
      ghost var was := data[..];
      if write {
        forall i | off <= i < off + k {
          data[i] := buf[i - off];
        }
        assert data[..] == Splice(was, off, buf[..k]);
      } else {
        ghost var rest := buf[k..];
        forall i | 0 <= i < k {
          buf[i] := data[off + i];
        }
        assert buf[..k] == Bytes(data[..], off, k) && buf[k..] == rest;
        assert buf[..] == buf[..k] + buf[k..];
      }
      r := if ans.fails then Error else Ok(k);
    }
  }

  // ---------- io ----------

  /** The bytes of the device that belong to a partition. */
  datatype Extent = Extent(start: nat, size: nat)

  /** What a partition table promises of an entry (see Partitions). */
  predicate Fits(p: Extent, a: nat, size: nat)
    requires a > 0
  {
    Aligned(p.start, a) && Aligned(p.size, a) && p.start + p.size <= size
  }

  predicate Refuses(ready: bool, a: nat, write: bool, n: int, off: int)
    requires a > 0
  {
    !ready || off < 0 || n < 0 || (write && (!Aligned(off, a) || !Aligned(n, a)))
  }

  /** Where on the device an offset in the partition is, and how many of the n bytes
      from there the partition has. */
  function Clip(p: Extent, n: nat, off: nat): (nat, nat) {
    var s, e := Min(off, p.size), Min(off + n, p.size);
    (p.start + s, e - s)
  }

  /** What the driver computes, in 64 and in 32 bits. */
  function Clipped(p: Extent, n: nat, off: nat): (int, int) {
    var s, e := Min(off, p.size), Min(Vlong(off + n), p.size);
    (Vlong(s + p.start), Long(Vlong(Vlong(e + p.start) - Vlong(s + p.start))))
  }

  lemma SmallEnd(p: Extent, n: nat, off: nat)
    requires p.start + p.size < TWO63 && n <= LONGEST && off + n < TWO63
    ensures Clipped(p, n, off) == Clip(p, n, off)
  {
    var s, e := Min(off, p.size), Min(off + n, p.size);
    VlongSmall(off + n);
    VlongSmall(s + p.start);
    VlongSmall(e + p.start);
    VlongSmall(e - s);
    LongIs(e - s, e - s);
  }

  lemma WrappedEnd(p: Extent, n: nat, off: nat)
    requires p.start + p.size < TWO63 && n <= LONGEST && off < TWO63 <= off + n
    ensures Clipped(p, n, off) == (p.start + Min(off, p.size), Long(off + n - Min(off, p.size)))
  {
    var s, e := Min(off, p.size), off + n - TWO64;
    VlongWraps(off + n);
    VlongSmall(s + p.start);
    VlongSmall(e + p.start);
    LongOfVlong(e - s);
    LongWraps(off + n - s);
  }

  /** It is the same exactly when the end of the request fits in 64 bits, but for an end
      whole multiples of 2^32 behind the partition's. */
  lemma ClippedExactlyWhen(p: Extent, n: nat, off: nat)
    requires p.start + p.size < TWO63 && n <= LONGEST && off < TWO63
    ensures Clipped(p, n, off) == Clip(p, n, off)
       <==> off + n < TWO63 || (off + n - p.size) % WRAP == 0
  {
    if off + n < TWO63 {
      SmallEnd(p, n, off);
    } else {
      var s := Min(off, p.size);
      WrappedEnd(p, n, off);
      LongIs(off + n - s, p.size - s);
    }
  }

  /** With 512 bytes at the last offset there is, the count is negative. */
  lemma LastOffsetExample()
    ensures Clipped(Extent(0, 0x10_0000), 512, TWO63 - 1) == (0x10_0000, -1048065)
    ensures Clip(Extent(0, 0x10_0000), 512, TWO63 - 1) == (0x10_0000, 0)
  {
    WrappedEnd(Extent(0, 0x10_0000), 512, TWO63 - 1);
  }

  /** Of k bytes transferred into the wider buffer, those the caller asked for. */
  function Wanted(k: nat, skip: nat, n: nat): nat {
    if k < skip then 0 else Min(k - skip, n)
  }

  lemma ClipFits(p: Extent, n: nat, off: nat, a: nat, size: nat)
    requires BlockSize(a) && Fits(p, a, size)
    ensures var (s, m) := Clip(p, n, off);
      && p.start <= s && s + m <= p.start + p.size && m <= n
      && Aligned(p.start + p.size, a)
      && (Aligned(off, a) && Aligned(n, a) ==> Aligned(s, a) && Aligned(m, a))
  {
    AlignedSum(p.start, p.size, a);
    if Aligned(off, a) && Aligned(n, a) {
      AlignedSum(off, n, a);
      AlignedSum(p.start, Min(off, p.size), a);
      AlignedSum(Min(off + n, p.size), Min(off, p.size), a);
    }
  }

  /** A request is for whole blocks of the partition, and for a write exactly for the
      bytes to be written, moved down by the part of the place above 32 bits. */
  lemma RequestStaysInside(ready: bool, p: Extent, a: nat, size: nat, write: bool, n: nat, off: nat)
    requires BlockSize(a) && Fits(p, a, size) && !Refuses(ready, a, write, n, off)
    ensures var (s, m) := Clip(p, n, off); var (xs, xn) := Widen(s, m, a); var high := s - Place(s);
      && Aligned(xs, a) && Aligned(xn, a)
      && p.start <= high + xs && high + xs + xn <= p.start + p.size
      && xs + s % a == Place(s) && s % a + m <= xn
      && (write ==> (xs, xn) == (Place(s), m) && s % a == 0)
  {
    ClipFits(p, n, off, a, size);
    var (s, m) := Clip(p, n, off);
    WidenCovers(s, m, a, p.start, p.start + p.size);
    if write {
      AlignedStays(m, a);
    }
  }

  /** What a write of b is to the disk: beyond 32 bits zeros, at another place. */
  function Written(disk: seq<byte>, s: nat, b: seq<byte>): (disk': seq<byte>)
    requires s + |b| <= |disk|
    ensures |disk'| == |disk|
  {
    if s < WRAP then Splice(disk, s, b) else Splice(disk, Place(s), Zeros(|b|))
  }

  /** What a request does that moves k bytes: a read puts the bytes of its place in front
      of the buffer and leaves the rest of it; a write changes the disk, and, if its place
      is beyond 32 bits, the caller's buffer as well. */
  ghost predicate Served(write: bool, r: Result, s: nat, k: nat, disk: seq<byte>, disk': seq<byte>,
                         buf: seq<byte>, buf': seq<byte>) {
    && |disk'| == |disk| && |buf'| == |buf|
    && (!write ==> disk' == disk)
    && (!write && r.Ok? ==>
          r.n <= |buf| && s + r.n <= |disk| && buf' == Bytes(disk, Place(s), r.n) + buf[r.n..])
    && (write ==>
          && k <= |buf| && s + k <= |disk| && disk' == Written(disk, s, buf[..k])
          && buf' == if s < WRAP || r.Error? then buf else Zeros(k) + buf[k..])
  }

  /** The path through a buffer of its own: all of it is transferred, and of
      that the caller gets what it asked for. */
  method Widened(d: Device, write: bool, buf: array<byte>, a: nat, s: nat, m: nat, xn: nat, ans: Answer)
      returns (r: Result)
    requires BlockSize(a) && buf != d.data && m <= buf.Length && s + m <= d.data.Length
    requires s % a + m <= xn <= 0x7FFF_FFFF
    requires write ==> s % a == 0 && xn == m && WRAP <= s
    modifies d`asked, d.data, buf
    ensures d.asked == old(d.asked) + [Request(write, Down(Place(s), a), xn)]
    ensures r == if ans.fails then Error else Ok(Wanted(d.Moves(xn, Down(Place(s), a), ans), s % a, m))
    ensures Served(write, r, s, d.Moves(xn, Down(Place(s), a), ans),
                   old(d.data[..]), d.data[..], old(buf[..]), buf[..])
  {
    var wide := new byte[xn](_ => 0);
    var xs := Down(Place(s), a);
    ghost var k, disk, was := d.Moves(xn, xs, ans), d.data[..], buf[..];
    PlaceInBlock(s, a);
    assert wide[..k] == Zeros(k);
    r := d.Transfer(write, wide, xn, xs, ans);
    if r.Ok? {
      ghost var w := wide[..];
      var got := CopyBack(wide, buf, a, s, m, r.n);
      r := Ok(got);
      if write {
        FarServed(r, s, k, disk, d.data[..], w, was, buf[..]);
      } else {
        ReadServed(r, s, k, disk, xs, w, s % a, was, buf[..]);
      }
    }
  }

  lemma ReadServed(r: Result, s: nat, k: nat, disk: seq<byte>, xs: nat, w: seq<byte>, skip: nat,
                   buf: seq<byte>, buf': seq<byte>)
    requires r.Ok? && r.n <= |buf| && s + r.n <= |disk| && Place(s) == xs + skip
    requires (k > 0 ==> xs + k <= |disk|) && (r.n > 0 ==> skip + r.n <= k) && k <= |w|
    requires w[..k] == Bytes(disk, xs, k) && buf' == Bytes(w, skip, r.n) + buf[r.n..]
    ensures Served(false, r, s, k, disk, disk, buf, buf')
  {
    BytesOfPrefix(disk, xs, w, k, skip, r.n);
  }

  lemma FarServed(r: Result, s: nat, k: nat, disk: seq<byte>, disk': seq<byte>, w: seq<byte>,
                  buf: seq<byte>, buf': seq<byte>)
    requires r.Ok? && r.n == k <= |buf| && s + k <= |disk| && WRAP <= s && k <= |w| && w[..k] == Zeros(k)
    requires disk' == Splice(disk, Place(s), Zeros(k)) && buf' == Bytes(w, 0, k) + buf[k..]
    ensures Served(true, r, s, k, disk, disk', buf, buf')
  {
    assert Bytes(w, 0, k) == w[..k];
    assert |buf[..k]| == k;
  }

  /** What the caller gets of k bytes in the wider buffer. */
  method CopyBack(wide: array<byte>, buf: array<byte>, a: nat, s: nat, m: nat, k: nat) returns (got: nat)
    requires BlockSize(a) && buf != wide && m <= buf.Length && k <= wide.Length <= 0x7FFF_FFFF
    modifies buf
    ensures got == Wanted(k, s % a, m)
    ensures buf[..] == Bytes(wide[..], s % a, got) + old(buf[got..])
  {
    var xs := Down(s % WRAP, a);
    SkipInBlock(s, a, k);
    var n := Long(k - (s - xs));
    if n < 0 {
      n := 0;
    }
    if m < n {
      n := m;
    }
    CopyOut(wide, buf, (s - xs) % WRAP, n);
    got := n;
  }

  lemma BytesOfPrefix(data: seq<byte>, off: nat, w: seq<byte>, k: nat, skip: nat, n: nat)
    requires (k > 0 ==> off + k <= |data|) && (n > 0 ==> skip + n <= k) && k <= |w|
    requires w[..k] == Bytes(data, off, k)
    ensures Bytes(w, skip, n) == Bytes(data, off + skip, n)
  {
    forall i | 0 <= i < n
      ensures Bytes(w, skip, n)[i] == Bytes(data, off + skip, n)[i]
    {
      assert w[skip + i] == w[..k][skip + i] == Bytes(data, off, k)[skip + i];
    }
  }

  /** memmove of got bytes from wide, skip bytes on, to the front of buf. */
  method CopyOut(wide: array<byte>, buf: array<byte>, skip: nat, got: nat)
    requires buf != wide && got <= buf.Length && (got > 0 ==> skip + got <= wide.Length)
    modifies buf
    ensures buf[..] == Bytes(wide[..], skip, got) + old(buf[got..])
  {
    ghost var rest := buf[got..];
    forall i | 0 <= i < got {
      buf[i] := wide[skip + i];
    }
    assert buf[..got] == Bytes(wide[..], skip, got) && buf[got..] == rest;
    assert buf[..] == buf[..got] + buf[got..];
  }

  /** The path of a request that already suits the device. */
  method Direct(d: Device, write: bool, buf: array<byte>, s: nat, m: nat, ans: Answer) returns (r: Result)
    requires buf != d.data && m <= buf.Length && s + m <= d.data.Length && s < WRAP
    modifies d`asked, if write then d.data else buf
    ensures d.asked == old(d.asked) + [Request(write, s, m)]
    ensures var k := d.Moves(m, s, ans);
      && k <= m && r == (if ans.fails then Error else Ok(k))
      && Served(write, r, s, k, old(d.data[..]), d.data[..], old(buf[..]), buf[..])
  {
    ghost var k, was := d.Moves(m, s, ans), buf[..];
    r := d.Transfer(write, buf, m, s, ans);
    assert !write ==> was[k..] == old(buf[k..]);
  }

  method ClipTo(p: Extent, n: nat, off: nat) returns (s: int, m: int)
    ensures (s, m) == Clipped(p, n, off)
  {
    var e;
    s, e := off, Vlong(off + n);
    if s > p.size {
      s := p.size;
    }
    if e > p.size {
      e := p.size;
    }
    s, e := Vlong(s + p.start), Vlong(e + p.start);
    m := Long(Vlong(e - s));
  }

  /** What a caller is promised: an error that touches nothing for a store that is not
      ready, for negative arguments, and for a write that is not aligned; else, below 2^32
      and with a device that answers in full, as many bytes as the partition has, aligned
      or not. */
  ghost predicate AsPromised(ready: bool, a: nat, p: Extent, write: bool, n: int, off: int, full: bool, r: Result,
                             disk: seq<byte>, disk': seq<byte>, buf: seq<byte>, buf': seq<byte>)
    requires a > 0
  {
    && (!ready || off < 0 || n < 0 || (write && (off % a != 0 || n % a != 0)) ==>
          r == Error && disk' == disk && buf' == buf)
    && (ready && 0 <= off && 0 <= n && (write ==> off % a == 0 && n % a == 0) && full
        && p.start + off < 0x1_0000_0000 ==>
          var m := if off >= p.size then 0 else if n < p.size - off then n else p.size - off;
          r == Ok(m) && HandedOver(write, p.start + off, m, disk, disk', buf, buf'))
  }

  /** The m bytes at s of the disk and the first m of the buffer. */
  ghost predicate HandedOver(write: bool, s: nat, m: nat, disk: seq<byte>, disk': seq<byte>,
                             buf: seq<byte>, buf': seq<byte>) {
    && m <= |buf|
    && (m > 0 ==> s + m <= |disk|)
    && (write ==> buf' == buf && disk' == if m == 0 then disk else disk[..s] + buf[..m] + disk[s + m..])
    && (!write ==> disk' == disk && buf' == if m == 0 then buf else disk[s..s + m] + buf[m..])
  }

  lemma FullyServed(d: nat, a: nat, p: Extent, write: bool, n: nat, off: nat, r: Result,
                    disk: seq<byte>, disk': seq<byte>, buf: seq<byte>, buf': seq<byte>)
    requires BlockSize(a) && Fits(p, a, d) && |disk| == d && !Refuses(true, a, write, n, off) && n <= |buf|
    requires p.start + off < WRAP
    requires var (s, m) := Clip(p, n, off); var (xs, xn) := Widen(s, m, a);
      r == Ok(Wanted(xn, s % a, m)) && Served(write, r, s, xn, disk, disk', buf, buf')
    ensures AsPromised(true, a, p, write, n, off, true, r, disk, disk', buf, buf')
  {
    var (s, m) := Clip(p, n, off);
    WholeIsReported(p, a, d, write, n, off);
    RequestStaysInside(true, p, a, d, write, n, off);
    if m > 0 {
      InFull(write, r, s, m, Widen(s, m, a).1, disk, disk', buf, buf');
    } else {
      assert Bytes(disk, Place(s), 0) + buf[0..] == buf;
    }
  }

  lemma InFull(write: bool, r: Result, s: nat, m: nat, k: nat, disk: seq<byte>, disk': seq<byte>,
               buf: seq<byte>, buf': seq<byte>)
    requires s < WRAP && m > 0 && r == Ok(m) && (write ==> k == m)
    requires Served(write, r, s, k, disk, disk', buf, buf')
    ensures HandedOver(write, s, m, disk, disk', buf, buf')
  {
    assert Place(s) == s;
  }

  /** The call, as long as the end of the request fits in 64 bits. */
  method Io(d: Device, ready: bool, a: nat, p: Extent, write: bool, buf: array<byte>, n: int, off: int, ans: Answer)
      returns (r: Result)
    requires BlockSize(a) && Fits(p, a, d.data.Length) && buf != d.data && n <= buf.Length && n <= LONGEST
    requires d.data.Length < TWO63 && off < TWO63 && off + n < TWO63
    modifies d`asked, d.data, buf
    ensures Refuses(ready, a, write, n, off) ==>
      r == Error && d.asked == old(d.asked) && d.data[..] == old(d.data[..]) && buf[..] == old(buf[..])
    ensures !Refuses(ready, a, write, n, off) ==>
      var (s, m) := Clip(p, n, off); var (xs, xn) := Widen(s, m, a); var k := d.Moves(xn, xs, ans);
      && d.asked == old(d.asked) + [Request(write, xs, xn)]
      && r == (if ans.fails then Error else Ok(Wanted(k, s % a, m)))
      && Served(write, r, s, k, old(d.data[..]), d.data[..], old(buf[..]), buf[..])
    ensures AsPromised(ready, a, p, write, n, off, !ans.fails && d.data.Length <= ans.most, r,
                       old(d.data[..]), d.data[..], old(buf[..]), buf[..])
    ensures !ready || off < 0 || n < 0 || (write && (off % a != 0 || n % a != 0)) ==> r == Error
    ensures ready && off >= 0 && n > 0 && off + n <= p.size && p.start + off < 0x1_0000_0000 && !ans.fails
            && d.data.Length <= ans.most && !write ==>
      r == Ok(n) && buf[..n] == View(old(d.data[..]), p)[off..off + n] && d.data[..] == old(d.data[..])
    ensures ready && off >= 0 && n > 0 && off + n <= p.size && p.start + off < 0x1_0000_0000 && !ans.fails
            && d.data.Length <= ans.most && write && off % a == 0 && n % a == 0 ==>
      r == Ok(n) && View(d.data[..], p)[off..off + n] == buf[..n] && buf[..] == old(buf[..])
  {
    if !ready {
      return Error;
    }
    if off < 0 || n < 0 {
      return Error;
    }
    if write && (off % a != 0 || n % a != 0) {
      return Error;
    }
    r := Serve(d, a, p, write, buf, n, off, ans);
    if n > 0 && off + n <= p.size {
      ViewSlice(old(d.data[..]), p, off, n);
      ViewSlice(d.data[..], p, off, n);
    }
  }

  /** What io does with a request it accepts. */
  method Serve(d: Device, a: nat, p: Extent, write: bool, buf: array<byte>, n: nat, off: nat, ans: Answer)
      returns (r: Result)
    requires BlockSize(a) && Fits(p, a, d.data.Length) && buf != d.data && n <= buf.Length && n <= LONGEST
    requires d.data.Length < TWO63 && off + n < TWO63 && !Refuses(true, a, write, n, off)
    modifies d`asked, d.data, buf
    ensures var (s, m) := Clip(p, n, off); var (xs, xn) := Widen(s, m, a); var k := d.Moves(xn, xs, ans);
      && d.asked == old(d.asked) + [Request(write, xs, xn)]
      && r == (if ans.fails then Error else Ok(Wanted(k, s % a, m)))
      && Served(write, r, s, k, old(d.data[..]), d.data[..], old(buf[..]), buf[..])
    ensures AsPromised(true, a, p, write, n, off, !ans.fails && d.data.Length <= ans.most, r,
                       old(d.data[..]), d.data[..], old(buf[..]), buf[..])
  {
    r := Choose(d, a, p, write, buf, n, off, ans);
    if p.start + off < WRAP && !ans.fails && d.data.Length <= ans.most {
      WholeIsReported(p, a, d.data.Length, write, n, off);
      FullyServed(d.data.Length, a, p, write, n, off, r, old(d.data[..]), d.data[..], old(buf[..]), buf[..]);
    }
  }

  /** The choice between the two paths. */
  method Choose(d: Device, a: nat, p: Extent, write: bool, buf: array<byte>, n: nat, off: nat, ans: Answer)
      returns (r: Result)
    requires BlockSize(a) && Fits(p, a, d.data.Length) && buf != d.data && n <= buf.Length && n <= LONGEST
    requires d.data.Length < TWO63 && off + n < TWO63 && !Refuses(true, a, write, n, off)
    modifies d`asked, d.data, buf
    ensures var (s, m) := Clip(p, n, off); var (xs, xn) := Widen(s, m, a); var k := d.Moves(xn, xs, ans);
      && d.asked == old(d.asked) + [Request(write, xs, xn)]
      && r == (if ans.fails then Error else Ok(Wanted(k, s % a, m)))
      && Served(write, r, s, k, old(d.data[..]), d.data[..], old(buf[..]), buf[..])
  {
    var s, m := ClipTo(p, n, off);
    ClippedExactlyWhen(p, n, off);
    ClipFits(p, n, off, a, d.data.Length);
    RequestStaysInside(true, p, a, d.data.Length, write, n, off);
    BlockIsSmall(a);
    DirectExactlyWhen(s, m, a);
    var xs, xn := Down(s % WRAP, a), Down(m + s % a + a - 1, a);
    assert (xs, xn) == Widen(s, m, a);
    if xs != s || xn != m {
      r := Widened(d, write, buf, a, s, m, xn, ans);
    } else {
      r := Direct(d, write, buf, s, m, ans);
    }
  }

  // ---------- what this means for a partition ----------

  /** The partition as a disk of its own. */
  function View(disk: seq<byte>, p: Extent): (v: seq<byte>)
    requires p.start + p.size <= |disk|
    ensures |v| == p.size
  {
    disk[p.start..p.start + p.size]
  }

  predicate Disjoint(p: Extent, q: Extent) {
    p.start + p.size <= q.start || q.start + q.size <= p.start
  }

  /** A device that answers in full has the request, and the caller is told that all the
      partition has was served, wherever that is. */
  lemma WholeIsReported(p: Extent, a: nat, size: nat, write: bool, n: nat, off: nat)
    requires BlockSize(a) && Fits(p, a, size) && !Refuses(true, a, write, n, off)
    ensures var (s, m) := Clip(p, n, off); var (xs, xn) := Widen(s, m, a);
      xs + xn <= size && Wanted(xn, s % a, m) == m
  {
    RequestStaysInside(true, p, a, size, write, n, off);
  }

  /** What is reported as read is the partition's own, whatever the disk holds, exactly
      when the place on the device is below 2^32, or there is nothing. */
  lemma OwnBytesExactlyWhen(p: Extent, n: nat, off: nat, size: nat)
    requires p.start + p.size <= size && off + n <= p.size
    ensures n == 0 || p.start + off < WRAP <==>
      forall disk: seq<byte> | |disk| == size ::
        Bytes(disk, Place(p.start + off), n) == Bytes(View(disk, p), off, n)
  {
    if n > 0 && WRAP <= p.start + off {
      var disk := OneByte(size, p.start + off);
      BytesAt(disk, Place(p.start + off), n, 0);
      BytesAt(View(disk, p), off, n, 0);
    } else {
      forall disk: seq<byte> | |disk| == size
        ensures Bytes(disk, Place(p.start + off), n) == Bytes(View(disk, p), off, n)
      {
        if n > 0 {
          ViewSlice(disk, p, off, n);
        }
      }
    }
  }

  lemma OneByte(size: nat, at: nat) returns (b: seq<byte>)
    requires at < size
    ensures |b| == size && forall i :: 0 <= i < size ==> b[i] == if i == at then 1 else 0
  {
    b := Zeros(size)[at := 1];
  }

  lemma BytesAt(data: seq<byte>, off: nat, n: nat, i: nat)
    requires off + n <= |data| && i < n
    ensures Bytes(data, off, n)[i] == data[off + i]
  {
  }

  /** And what is written is in the partition, whatever it is, under the same condition. */
  lemma WritesExactlyWhen(p: Extent, n: nat, off: nat, size: nat)
    requires p.start + p.size <= size && off + n <= p.size
    ensures n == 0 || p.start + off < WRAP <==>
      forall disk: seq<byte>, b: seq<byte> | |disk| == size && |b| == n ::
        View(Written(disk, p.start + off, b), p) == Splice(View(disk, p), off, b)
  {
    if n > 0 && WRAP <= p.start + off {
      var b := OneByte(n, 0);
      FarWriteDiffers(Zeros(size), p, off, b);
    } else {
      forall disk: seq<byte>, b: seq<byte> | |disk| == size && |b| == n
        ensures View(Written(disk, p.start + off, b), p) == Splice(View(disk, p), off, b)
      {
        SplicedView(disk, p, off, b);
      }
    }
  }

  lemma FarWriteDiffers(disk: seq<byte>, p: Extent, off: nat, b: seq<byte>)
    requires p.start + p.size <= |disk| && off + |b| <= p.size && WRAP <= p.start + off
    requires b != [] && b[0] == 1 && disk == Zeros(|disk|)
    ensures View(Written(disk, p.start + off, b), p) != Splice(View(disk, p), off, b)
  {
    var s := p.start + off;
    SpliceAt(View(disk, p), off, b, off);
    SpliceAt(disk, Place(s), Zeros(|b|), s);
    assert View(Written(disk, s, b), p)[off] == Written(disk, s, b)[s] == 0;
  }

  /** The sector at 2^32: the device is asked for the one at 0; a read hands that over as
      if it were the right one, and a write puts zeros there, and into the caller's buffer. */
  lemma FarExample(a: nat, disk: seq<byte>, b: seq<byte>)
    requires BlockSize(a) && |disk| == WRAP + 512 && |b| == 512
    ensures var p := Extent(WRAP, 512); var (s, m) := Clip(p, 512, 0);
      && Fits(p, a, |disk|) && (s, m) == (WRAP, 512)
      && Widen(s, m, a) == (0, 512) && Wanted(512, s % a, m) == 512
      && Bytes(disk, Place(s), m) == disk[..512]
      && Written(disk, s, b) == Zeros(512) + disk[512..]
  {
    SectorsAligned(0x80_0000, a);
    SectorsAligned(1, a);
    PlaceInBlock(WRAP, a);
    DirectExactlyWhen(0, 512, a);
    WholeIsReported(Extent(WRAP, 512), a, |disk|, false, 512, 0);
  }

  /** Below 2^32 a read gives the bytes at its offset in the partition, a write changes
      the partition there and nowhere else, and no other partition changes. */
  lemma PartitionIsADisk(p: Extent, q: Extent, n: nat, off: nat, write: bool, r: Result, k: nat,
                         disk: seq<byte>, disk': seq<byte>, buf: seq<byte>, buf': seq<byte>)
    requires p.start + p.size <= |disk| && q.start + q.size <= |disk| && Disjoint(p, q)
    requires var (s, m) := Clip(p, n, off);
      && s < WRAP && k <= m && (r.Ok? ==> r.n <= m)
      && Served(write, r, s, k, disk, disk', buf, buf')
    ensures View(disk', q) == View(disk, q)
    ensures !write ==> View(disk', p) == View(disk, p)
    ensures !write && r.Ok? ==>
      r.n <= n && (r.n > 0 ==> off + r.n <= p.size) && buf' == Bytes(View(disk, p), off, r.n) + buf[r.n..]
    ensures write ==>
      && k <= n && (k > 0 ==> off + k <= p.size)
      && View(disk', p) == Splice(View(disk, p), off, buf[..k]) && buf' == buf
  {
    if write {
      WrittenToPartition(p, q, n, off, r, k, disk, disk', buf, buf');
    } else {
      ReadFromPartition(p, n, off, r, k, disk, disk', buf, buf');
    }
  }

  lemma WrittenToPartition(p: Extent, q: Extent, n: nat, off: nat, r: Result, k: nat,
                           disk: seq<byte>, disk': seq<byte>, buf: seq<byte>, buf': seq<byte>)
    requires p.start + p.size <= |disk| && q.start + q.size <= |disk| && Disjoint(p, q)
    requires var (s, m) := Clip(p, n, off);
      s < WRAP && k <= m && Served(true, r, s, k, disk, disk', buf, buf')
    ensures k <= n && (k > 0 ==> off + k <= p.size) && buf' == buf
    ensures |disk'| == |disk| && View(disk', q) == View(disk, q)
    ensures View(disk', p) == Splice(View(disk, p), off, buf[..k])
  {
    if k > 0 {
      WriteInView(p, q, off, disk, buf[..k]);
    }
  }

  lemma ReadFromPartition(p: Extent, n: nat, off: nat, r: Result, k: nat,
                          disk: seq<byte>, disk': seq<byte>, buf: seq<byte>, buf': seq<byte>)
    requires p.start + p.size <= |disk|
    requires var (s, m) := Clip(p, n, off);
      s < WRAP && (r.Ok? ==> r.n <= m) && Served(false, r, s, k, disk, disk', buf, buf')
    ensures disk' == disk
    ensures r.Ok? ==>
      r.n <= n && (r.n > 0 ==> off + r.n <= p.size) && buf' == Bytes(View(disk, p), off, r.n) + buf[r.n..]
  {
    if r.Ok? && r.n > 0 {
      ReadFromView(p, off, r.n, disk);
    }
  }

  lemma ReadFromView(p: Extent, off: nat, n: nat, disk: seq<byte>)
    requires p.start + p.size <= |disk| && off + n <= p.size && p.start + off < WRAP && n > 0
    ensures Bytes(disk, Place(p.start + off), n) == Bytes(View(disk, p), off, n)
  {
    assert Place(p.start + off) == p.start + off;
    ViewSlice(disk, p, off, n);
  }

  lemma WriteInView(p: Extent, q: Extent, off: nat, disk: seq<byte>, b: seq<byte>)
    requires p.start + p.size <= |disk| && q.start + q.size <= |disk| && Disjoint(p, q)
    requires off + |b| <= p.size && p.start + off < WRAP
    ensures View(Written(disk, p.start + off, b), p) == Splice(View(disk, p), off, b)
    ensures View(Written(disk, p.start + off, b), q) == View(disk, q)
  {
    SplicedView(disk, p, off, b);
    SplicedElsewhere(disk, q, p.start + off, b);
  }

  lemma ViewSlice(disk: seq<byte>, p: Extent, o: nat, k: nat)
    requires p.start + p.size <= |disk| && o + k <= p.size
    ensures View(disk, p)[o..o + k] == disk[p.start + o..p.start + o + k]
  {
    var v := View(disk, p);
    var x, y := v[o..o + k], disk[p.start + o..p.start + o + k];
    forall i | 0 <= i < k
      ensures x[i] == y[i]
    {
      assert x[i] == v[o + i];
    }
  }

  lemma SpliceAt(data: seq<byte>, off: nat, b: seq<byte>, i: nat)
    requires (b != [] ==> off + |b| <= |data|) && i < |data|
    ensures Splice(data, off, b)[i] == if off <= i < off + |b| then b[i - off] else data[i]
  {
  }

  lemma ViewAt(disk: seq<byte>, p: Extent, i: nat)
    requires p.start + p.size <= |disk| && i < p.size
    ensures View(disk, p)[i] == disk[p.start + i]
  {
  }

  lemma SplicedView(disk: seq<byte>, p: Extent, o: nat, b: seq<byte>)
    requires p.start + p.size <= |disk| && o + |b| <= p.size
    ensures View(Splice(disk, p.start + o, b), p) == Splice(View(disk, p), o, b)
  {
    forall i | 0 <= i < p.size
      ensures View(Splice(disk, p.start + o, b), p)[i] == Splice(View(disk, p), o, b)[i]
    {
      SplicedViewAt(disk, p, o, b, i);
    }
  }

  lemma SplicedViewAt(disk: seq<byte>, p: Extent, o: nat, b: seq<byte>, i: nat)
    requires p.start + p.size <= |disk| && o + |b| <= p.size && i < p.size
    ensures View(Splice(disk, p.start + o, b), p)[i] == Splice(View(disk, p), o, b)[i]
  {
    ViewOfSplice(disk, p, o, b, i);
    SpliceOfView(disk, p, o, b, i);
  }

  lemma ViewOfSplice(disk: seq<byte>, p: Extent, o: nat, b: seq<byte>, i: nat)
    requires p.start + p.size <= |disk| && o + |b| <= p.size && i < p.size
    ensures View(Splice(disk, p.start + o, b), p)[i] == if o <= i < o + |b| then b[i - o] else disk[p.start + i]
  {
    SpliceAt(disk, p.start + o, b, p.start + i);
    var x := Splice(disk, p.start + o, b)[p.start + i];
    assert x == if o <= i < o + |b| then b[i - o] else disk[p.start + i];
    ViewAt(Splice(disk, p.start + o, b), p, i);
  }

  lemma SpliceOfView(disk: seq<byte>, p: Extent, o: nat, b: seq<byte>, i: nat)
    requires p.start + p.size <= |disk| && o + |b| <= p.size && i < p.size
    ensures Splice(View(disk, p), o, b)[i] == if o <= i < o + |b| then b[i - o] else disk[p.start + i]
  {
    SpliceAt(View(disk, p), o, b, i);
    ViewAt(disk, p, i);
  }

  lemma SplicedElsewhere(disk: seq<byte>, q: Extent, s: nat, b: seq<byte>)
    requires q.start + q.size <= |disk| && s + |b| <= |disk|
    requires s + |b| <= q.start || q.start + q.size <= s
    ensures View(Splice(disk, s, b), q) == View(disk, q)
  {
    var x, y := View(Splice(disk, s, b), q), View(disk, q);
    forall i | 0 <= i < q.size
      ensures x[i] == y[i]
    {
      SpliceAt(disk, s, b, q.start + i);
    }
  }

  /** What was written is what is read there afterwards. */
  lemma ReadsBack(disk: seq<byte>, p: Extent, off: nat, b: seq<byte>)
    requires p.start + p.size <= |disk| && off + |b| <= p.size
    ensures View(Splice(disk, p.start + off, b), p)[off..off + |b|] == b
  {
    SplicedView(disk, p, off, b);
    assert Splice(View(disk, p), off, b)[off..off + |b|] == b;
  }
}
