/** What one request of the sata driver asks the disk to do, and what a read or write
    of any length does by a series of requests (devsata.c). */
module SataIo {
  import opened Bits

  const SECTOR := 512
  const K64 := 0x1_0000
  const MAXPRD := 8
  const ENDOFTABLE := 0x8000_0000

  /** The numbers from start on, n of them. */
  function Span(start: nat, n: nat): (s: seq<nat>)
    ensures |s| == n && forall i :: 0 <= i < n ==> s[i] == start + i
  {
    seq(n, i requires 0 <= i => start + i)
  }

  lemma SpanConcat(start: nat, m: nat, n: nat)
    ensures Span(start, m) + Span(start + m, n) == Span(start, m + n)
  {
  }

  // ---------- scatter lists ----------

  datatype Prd = Prd(addrlo: nat, flagcount: nat, addrhi: nat) {

    /** The entry as the disk controller reads it: a count of 0 means 64k. */
    function Len(): nat {
      if flagcount % K64 == 0 then K64 else flagcount % K64
    }

    predicate Last() {
      flagcount / ENDOFTABLE % 2 == 1
    }
  }

  /** The memory a controller walks through when it follows a table. */
  function Walk(t: seq<Prd>): seq<nat> {
    if t == [] then []
    else Span(t[0].addrlo + t[0].addrhi * 0x1_0000_0000, t[0].Len()) + if t[0].Last() then [] else Walk(t[1..])
  }

  /** The table covers n bytes from buf on, in order, and only its last entry is
      marked. */
  predicate Tiles(t: seq<Prd>, buf: nat, n: nat)
    decreases |t|
  {
    && t != []
    && t[0].addrlo == buf && t[0].addrhi == 0
    && if |t| == 1 then t[0].Last() && t[0].Len() == n
       else !t[0].Last() && t[0].Len() < n && Tiles(t[1..], buf + t[0].Len(), n - t[0].Len())
  }

  lemma {:induction false} TilesAreWalked(t: seq<Prd>, buf: nat, n: nat)
    requires Tiles(t, buf, n)
    ensures Walk(t) == Span(buf, n)
    decreases |t|
  {
    if |t| > 1 {
      TilesAreWalked(t[1..], buf + t[0].Len(), n - t[0].Len());
      SpanConcat(buf, t[0].Len(), n - t[0].Len());
    }
  }

  /** Appending behind a table that does not end yet. */
  lemma {:induction false} TilesAppend(t: seq<Prd>, buf: nat, m: nat, e: Prd, n: nat)
    requires forall i :: 0 <= i < |t| ==> t[i] == Prd(buf + i * K64, 0, 0)
    requires m == |t| * K64 && 0 < n <= K64
    requires e == Prd(buf + m, n % K64 + ENDOFTABLE, 0)
    ensures Tiles(t + [e], buf, m + n)
    decreases |t|
  {
    if t == [] {
      assert t + [e] == [e];
    } else {
      assert (t + [e])[1..] == t[1..] + [e];
      TilesAppend(t[1..], buf + K64, m - K64, e, n);
    }
  }

  method PrdFill(prds: array<Prd>, at: nat, buf: nat, n: nat) returns (k: nat)
    requires at + MAXPRD <= prds.Length && 0 < n <= MAXPRD * K64
    modifies prds
    ensures 1 <= k <= MAXPRD && Tiles(prds[at..at + k], buf, n)
    ensures forall j :: 0 <= j < prds.Length && (j < at || at + k <= j) ==> prds[j] == old(prds[j])
  {
    var prd, b, left := at, buf, n;
    k := 0;
    while true
      invariant k < MAXPRD && prd == at + k && b == buf + k * K64 && left == n - k * K64
      invariant 0 < left
      invariant forall i :: 0 <= i < k ==> prds[at..prd][i] == Prd(buf + i * K64, 0, 0)
      invariant forall j :: 0 <= j < prds.Length && (j < at || at + k <= j) ==> prds[j] == old(prds[j])
      decreases left
    {
      var nn := if left < K64 then left else K64;
      prds[prd] := Prd(b, nn % K64, 0);
      left := left - nn;
      if left == 0 {
        prds[prd] := prds[prd].(flagcount := prds[prd].flagcount + ENDOFTABLE);
        TilesAppend(prds[at..prd], buf, k * K64, prds[prd], nn);
        assert prds[at..prd + 1] == prds[at..prd] + [prds[prd]];
        k := k + 1;
        break;
      }
      prd := prd + 1;
      b := b + K64;
      k := k + 1;
    }
  }

  /** What lies behind the end of a table does not matter. */
  lemma {:induction false} WalkStops(t: seq<Prd>, k: nat, buf: nat, n: nat)
    requires 1 <= k <= |t| && Tiles(t[..k], buf, n)
    ensures Walk(t) == Span(buf, n)
    decreases k
  {
    assert t[..k][0] == t[0];
    if k > 1 {
      var len := t[0].Len();
      assert t[..k][1..] == t[1..][..k - 1];
      WalkStops(t[1..], k - 1, buf + len, n - len);
      SpanConcat(buf, len, n - len);
    } else {
      assert Span(buf, n) + [] == Span(buf, n);
    }
  }

  // ---------- one request ----------

  datatype Direction = Read | Write

  /** A request as written for the disk controller; a table of a long request is
      named by its index. */
  datatype Req = Req(prdlo: nat, prdhi: nat, ctl: nat, count: nat, ata0: nat, ata1: nat, ata2: nat, ata3: nat) {

    // how the controller and the disk read it

    function Command(): nat { ata0 / 0x1_0000 % 256 }

    function Lba(): nat { ata1 % 0x100_0000 + ata2 % 0x100_0000 * 0x100_0000 }

    function Sectors(): nat { ata0 / 0x100_0000 + ata2 / 0x100_0000 * 256 }

    function DiskTag(): nat { ata3 / 8 }

    function ControllerTag(): nat { ctl / 2 % 32 }

    function HostTag(): nat { ctl / 0x2_0000 }

    predicate ToMemory() { ctl % 2 == 1 }

    predicate Direct() { ctl / 0x1_0000 % 2 == 1 }

    function Memory(prds: seq<Prd>): seq<nat> {
      if Direct() then Span(prdlo, if count == 0 then K64 else count)
      else if prdlo <= |prds| then Walk(prds[prdlo..])
      else []
    }
  }

  const MAXSECTORS := MAXPRD * 128

  /** The disk and the controller read from the request what io was asked for, of which
      a request takes at most 1024 sectors. */
  ghost predicate Asks(rq: Req, t: Direction, buf: nat, ns: nat, lba: nat, tag: nat, prds: seq<Prd>) {
    && rq.Command() == (if t == Read then 0x60 else 0x61)
    && rq.Lba() == lba && rq.Sectors() == ns
    && rq.DiskTag() == rq.ControllerTag() == rq.HostTag() == tag
    && (rq.ToMemory() <==> t == Read)
    && rq.Memory(prds) == Span(buf, ns * SECTOR)
  }

  method MemoryFields(buf: nat, ns: nat, slot: nat, prds: array<Prd>)
      returns (prdlo: nat, ctl: nat, count: nat, ns': nat)
    requires 0 < ns && slot < 32 && prds.Length == 32 * MAXPRD
    modifies prds
    ensures ns' == Min(ns, MAXSECTORS)
    ensures ctl == (if ns <= 128 then 0x1_0000 else 0)
    ensures ns <= 128 ==> prdlo == buf && (if count == 0 then K64 else count) == ns' * SECTOR
    ensures ns > 128 ==> prdlo == slot * MAXPRD && Walk(prds[prdlo..]) == Span(buf, ns' * SECTOR)
    ensures forall j :: 0 <= j < prds.Length && (j < slot * MAXPRD || slot * MAXPRD + MAXPRD <= j) ==>
      prds[j] == old(prds[j])
  {
    ns' := ns;
    if ns > 128 {
      prdlo := slot * MAXPRD;
      if ns' > 8 * 128 {
        ns' := 8 * 128;
      }
      var k := PrdFill(prds, prdlo, buf, ns' * 512);
      ctl, count := 0, 0;
      assert prds[prdlo..prdlo + k] == prds[prdlo..][..k];
      WalkStops(prds[prdlo..], k, buf, ns' * 512);
    } else {
      prdlo, ctl, count := buf, 0x1_0000, ns * 512 % 0x1_0000;
    }
  }

  /** The part of io that writes the request into its slot. */
  method FillRequest(t: Direction, buf: nat, ns: nat, lba: nat, tag: nat, slot: nat, prds: array<Prd>)
      returns (rq: Req, ns': nat)
    requires 0 < ns && lba < 0x1_0000_0000_0000 && tag < 32 && slot < 32 && prds.Length == 32 * MAXPRD
    modifies prds
    ensures ns' == Min(ns, MAXSECTORS)
    ensures Asks(rq, t, buf, ns', lba, tag, prds[..])
    ensures forall j :: 0 <= j < prds.Length && (j < slot * MAXPRD || slot * MAXPRD + MAXPRD <= j) ==>
      prds[j] == old(prds[j])
  {
    var prdlo, ctl, count;
    prdlo, ctl, count, ns' := MemoryFields(buf, ns, slot, prds);
    ctl := ctl + (if t == Read then 1 else 0) + tag * 2 + tag * 0x2_0000;
    var lbalo, lbahi := lba % 0x100_0000, lba / 0x100_0000 % 0x100_0000;
    var nslo, nshi := ns' % 256, ns' / 256 % 256;
    var cmd := if t == Read then 0x60 else 0x61;
    assert ns > 128 ==> prds[..][prdlo..] == prds[prdlo..];
    rq := Req(prdlo, 0, ctl, count,
              cmd * 0x1_0000 + nslo * 0x100_0000,
              lbalo + 0x40 * 0x100_0000,
              lbahi + nshi * 0x100_0000,
              tag * 8);
    FieldsAsk(rq, t, buf, ns', lba, tag, prds[..], if ns <= 128 then 1 else 0);
  }

  lemma FieldsAsk(rq: Req, t: Direction, buf: nat, ns: nat, lba: nat, tag: nat, prds: seq<Prd>, direct: nat)
    requires ns <= MAXSECTORS && lba < 0x1_0000_0000_0000 && tag < 32 && direct < 2
    requires direct == 1 ==> rq.prdlo == buf && (if rq.count == 0 then K64 else rq.count) == ns * SECTOR
    requires direct == 0 ==> rq.prdlo <= |prds| && Walk(prds[rq.prdlo..]) == Span(buf, ns * SECTOR)
    requires rq.ctl == direct * 0x1_0000 + (if t == Read then 1 else 0) + tag * 2 + tag * 0x2_0000
    requires rq.ata0 == (if t == Read then 0x60 else 0x61) * 0x1_0000 + ns % 256 * 0x100_0000
    requires rq.ata1 == lba % 0x100_0000 + 0x40 * 0x100_0000
    requires rq.ata2 == lba / 0x100_0000 % 0x100_0000 + ns / 256 % 256 * 0x100_0000
    requires rq.ata3 == tag * 8
    ensures Asks(rq, t, buf, ns, lba, tag, prds)
  {
    var cmd := if t == Read then 0x60 else 0x61;
    AtaFields(cmd, ns % 256, lba % 0x100_0000, lba / 0x100_0000 % 0x100_0000, ns / 256 % 256);
    CtlFields(direct, if t == Read then 1 else 0, tag);
  }

  lemma AtaFields(cmd: nat, nslo: nat, lbalo: nat, lbahi: nat, nshi: nat)
    requires cmd < 256 && nslo < 256 && nshi < 256 && lbalo < 0x100_0000 && lbahi < 0x100_0000
    ensures (cmd * 0x1_0000 + nslo * 0x100_0000) / 0x1_0000 % 256 == cmd
    ensures (cmd * 0x1_0000 + nslo * 0x100_0000) / 0x100_0000 == nslo
    ensures (lbalo + 0x40 * 0x100_0000) % 0x100_0000 == lbalo
    ensures (lbahi + nshi * 0x100_0000) % 0x100_0000 == lbahi
    ensures (lbahi + nshi * 0x100_0000) / 0x100_0000 == nshi
  {
  }

  lemma CtlFields(direct: nat, read: nat, tag: nat)
    requires direct < 2 && read < 2 && tag < 32
    ensures var ctl := direct * 0x1_0000 + read + tag * 2 + tag * 0x2_0000;
      ctl / 2 % 32 == tag && ctl / 0x2_0000 == tag && ctl % 2 == read && ctl / 0x1_0000 % 2 == direct
  {
    var ctl := direct * 0x1_0000 + read + tag * 2 + tag * 0x2_0000;
    assert ctl / 2 == direct * 0x8000 + tag + tag * 0x1_0000;
    assert ctl / 0x1_0000 == direct + tag * 2;
  }

  // ---------- what a request does ----------

  /** The bytes of the disk and of memory. */
  datatype World = World(disk: nat -> byte, mem: nat -> byte)

  /** to, with the bytes of from at src copied to dst, one after the other. */
  ghost function Copied(from: nat -> byte, src: seq<nat>, to: nat -> byte, dst: seq<nat>): nat -> byte
    requires |src| == |dst|
    decreases |src|
  {
    if src == [] then to
    else
      var n := |src| - 1;
      var before := Copied(from, src[..n], to, dst[..n]);
      (a: nat) => if a == dst[n] then from(src[n]) else before(a)
  }

  lemma {:induction false} CopiedSpans(from: nat -> byte, s: nat, to: nat -> byte, d: nat, n: nat, a: nat)
    ensures Copied(from, Span(s, n), to, Span(d, n))(a) == if d <= a < d + n then from(s + a - d) else to(a)
    decreases n
  {
    if n > 0 {
      assert Span(s, n)[..n - 1] == Span(s, n - 1) && Span(d, n)[..n - 1] == Span(d, n - 1);
      CopiedSpans(from, s, to, d, n - 1, a);
    }
  }

  /** Disk and controller carry out a request: a read command (0x60) with the direction
      bit set copies from the disk to memory, a write command (0x61) without it the other
      way.  They are never asked for anything else. */
  ghost function Carried(rq: Req, prds: seq<Prd>, w: World): World {
    var m := rq.Memory(prds);
    var n := Min(rq.Sectors() * SECTOR, |m|);
    var d := Span(rq.Lba() * SECTOR, n);
    if rq.Command() == 0x60 && rq.ToMemory() then w.(mem := Copied(w.disk, d, w.mem, m[..n]))
    else if rq.Command() == 0x61 && !rq.ToMemory() then w.(disk := Copied(w.mem, m[..n], w.disk, d))
    else w
  }

  /** A read has copied n bytes of the disk, from off on, to memory at buf, and a write the
      other way; and nothing else has changed. */
  ghost predicate Moved(t: Direction, off: nat, buf: nat, n: nat, w: World, w': World) {
    match t
    case Read =>
      && (forall a: nat :: w'.disk(a) == w.disk(a))
      && (forall a: nat :: w'.mem(a) == if buf <= a < buf + n then w.disk(off + a - buf) else w.mem(a))
    case Write =>
      && (forall a: nat :: w'.mem(a) == w.mem(a))
      && (forall a: nat :: w'.disk(a) == if off <= a < off + n then w.mem(buf + a - off) else w.disk(a))
  }

  /** The same for some of the bytes. */
  ghost predicate Partly(t: Direction, off: nat, buf: nat, n: nat, w: World, w': World) {
    match t
    case Read =>
      && (forall a: nat :: w'.disk(a) == w.disk(a))
      && (forall a: nat :: w'.mem(a) == w.mem(a) || (buf <= a < buf + n && w'.mem(a) == w.disk(off + a - buf)))
    case Write =>
      && (forall a: nat :: w'.mem(a) == w.mem(a))
      && (forall a: nat :: w'.disk(a) == w.disk(a) || (off <= a < off + n && w'.disk(a) == w.mem(buf + a - off)))
  }

  lemma ReadCarried(rq: Req, prds: seq<Prd>, s: nat, buf: nat, n: nat, w: World)
    requires rq.Command() == 0x60 && rq.ToMemory() && rq.Memory(prds) == Span(buf, n)
    requires rq.Sectors() * SECTOR == n && rq.Lba() * SECTOR == s
    ensures Moved(Read, s, buf, n, w, Carried(rq, prds, w))
  {
    assert Span(buf, n)[..n] == Span(buf, n);
    forall a: nat
      ensures Carried(rq, prds, w).mem(a) == if buf <= a < buf + n then w.disk(s + a - buf) else w.mem(a)
    {
      CopiedSpans(w.disk, s, w.mem, buf, n, a);
    }
  }

  lemma WriteCarried(rq: Req, prds: seq<Prd>, s: nat, buf: nat, n: nat, w: World)
    requires rq.Command() == 0x61 && !rq.ToMemory() && rq.Memory(prds) == Span(buf, n)
    requires rq.Sectors() * SECTOR == n && rq.Lba() * SECTOR == s
    ensures Moved(Write, s, buf, n, w, Carried(rq, prds, w))
  {
    assert Span(buf, n)[..n] == Span(buf, n);
    forall a: nat
      ensures Carried(rq, prds, w).disk(a) == if s <= a < s + n then w.mem(buf + a - s) else w.disk(a)
    {
      CopiedSpans(w.mem, buf, w.disk, s, n, a);
    }
  }

  /** A request as it was asked for moves what it should. */
  lemma AskedIsMoved(rq: Req, t: Direction, buf: nat, ns: nat, lba: nat, tag: nat, prds: seq<Prd>, w: World)
    requires Asks(rq, t, buf, ns, lba, tag, prds)
    ensures Moved(t, lba * SECTOR, buf, ns * SECTOR, w, Carried(rq, prds, w))
  {
    if t == Read {
      ReadCarried(rq, prds, lba * SECTOR, buf, ns * SECTOR, w);
    } else {
      WriteCarried(rq, prds, lba * SECTOR, buf, ns * SECTOR, w);
    }
  }

  // ---------- io, and the loops over it ----------

  datatype Result = Ok(n: nat) | Error

  datatype Disk = Disk(valid: bool, sectors: nat)

  /** io refuses these, before it issues a request. */
  predicate Refused(disk: Disk, buf: nat, nb: int, off: int) {
    || !disk.valid || nb < 0 || off < 0 || off % SECTOR != 0
    || (nb != 0 && (nb % SECTOR != 0 || buf % 2 != 0 || off / SECTOR > disk.sectors))
  }

  /** How much one call transfers. */
  function Transferred(disk: Disk, buf: nat, nb: int, off: int, fails: bool): Result {
    if Refused(disk, buf, nb, off) then Error
    else if nb == 0 || off / SECTOR == disk.sectors then Ok(0)
    else if fails then Error
    else Ok(Min(nb, MAXSECTORS * SECTOR))
  }

  /** Whatever tag and slot the request gets; fails says that the disk or the
      controller reports an error, or that none answers in time. */
  method Io(t: Direction, disk: Disk, buf: nat, nb: int, off: int, tag: nat, slot: nat, prds: array<Prd>, fails: bool,
            ghost w: World) returns (r: Result, ghost w': World)
    requires tag < 32 && slot < 32 && prds.Length == 32 * MAXPRD && disk.sectors < 0x1_0000_0000_0000
    modifies prds
    ensures r == Transferred(disk, buf, nb, off, fails)
    ensures r.Ok? && off >= 0 ==> Moved(t, off, buf, r.n, w, w')
    ensures Refused(disk, buf, nb, off) ==> w' == w
    ensures r.Error? && !Refused(disk, buf, nb, off) ==> Partly(t, off, buf, nb, w, w')
  {
    w' := w;
    if !disk.valid {
      return Error, w';
    }
    if nb < 0 || off < 0 || off % 512 != 0 {
      return Error, w';
    }
    var ns, lba := nb / 512, off / 512;
    if nb == 0 {
      return Ok(0), w';
    }
    if nb % 512 != 0 {
      return Error, w';
    }
    if buf % 2 == 1 {
      return Error, w';
    }
    if lba == disk.sectors {
      return Ok(0), w';
    }
    if lba > disk.sectors {
      return Error, w';
    }
    r, w' := Issue(t, buf, ns, lba, tag, slot, prds, fails, w);
  }

  /** The part of io from the request on. */
  method Issue(t: Direction, buf: nat, ns: nat, lba: nat, tag: nat, slot: nat, prds: array<Prd>, fails: bool,
               ghost w: World) returns (r: Result, ghost w': World)
    requires 0 < ns && lba < 0x1_0000_0000_0000 && tag < 32 && slot < 32 && prds.Length == 32 * MAXPRD
    modifies prds
    ensures r == if fails then Error else Ok(Min(ns, MAXSECTORS) * SECTOR)
    ensures if fails then Partly(t, lba * SECTOR, buf, ns * SECTOR, w, w')
            else Moved(t, lba * SECTOR, buf, r.n, w, w')
  {
    var rq, ns' := FillRequest(t, buf, ns, lba, tag, slot, prds);
    if fails {
      assert Partly(t, lba * SECTOR, buf, ns * SECTOR, w, w);
      w' :| Partly(t, lba * SECTOR, buf, ns * SECTOR, w, w');
      return Error, w';
    }
    AskedIsMoved(rq, t, buf, ns', lba, tag, prds[..], w);
    w' := Carried(rq, prds[..], w);
    r := Ok(ns' * 512);
  }

  lemma MovedFurther(t: Direction, off: nat, buf: nat, m: nat, n: nat, w: World, w': World, w'': World)
    requires Moved(t, off, buf, m, w, w') && Moved(t, off + m, buf + m, n, w', w'')
    ensures Moved(t, off, buf, m + n, w, w'')
  {
  }

  lemma PartlyFurther(t: Direction, off: nat, buf: nat, m: nat, n: nat, w: World, w': World, w'': World)
    requires Moved(t, off, buf, m, w, w') && (w'' == w' || Partly(t, off + m, buf + m, n, w', w''))
    ensures Partly(t, off, buf, m + n, w, w'')
  {
  }

  /** What is refused part of the way is refused because it begins behind the end. */
  lemma RefusedLater(disk: Disk, buf: nat, n: nat, off: nat, r: nat)
    requires 0 <= r < n && r % SECTOR == 0
    requires !Refused(disk, buf, n, off)
    ensures Refused(disk, buf + r, n - r, off + r) <==> (off + r) / SECTOR > disk.sectors
    ensures n % SECTOR == 0 && (off + r) % SECTOR == 0
  {
  }

  /** One round of the loops below, after r of the n bytes. */
  method Turn(t: Direction, disk: Disk, buf: nat, n: nat, off: int, r: nat, tag: nat, slot: nat, fails: bool,
              prds: array<Prd>, ghost w: World, ghost before: World) returns (nn: Result, ghost w': World)
    requires tag < 32 && slot < 32 && prds.Length == 32 * MAXPRD && disk.sectors < 0x1_0000_0000_0000
    requires r < n && if off < 0 then r == 0 else Moved(t, off, buf, r, w, before)
    modifies prds
    ensures nn == Transferred(disk, buf + r, n - r, off + r, fails)
    ensures off >= 0 && nn.Ok? ==> Moved(t, off, buf, r + nn.n, w, w')
    ensures off >= 0 ==> Partly(t, off, buf, n, w, w')
    ensures Refused(disk, buf + r, n - r, off + r) ==> w' == before
  {
    nn, w' := Io(t, disk, buf + r, n - r, off + r, tag, slot, prds, fails, before);
    if off < 0 {
      return;
    }
    if nn.Ok? {
      MovedFurther(t, off, buf, r, nn.n, w, before, w');
      PartlyFurther(t, off, buf, r + nn.n, n - r - nn.n, w, w', w');
    } else {
      PartlyFurther(t, off, buf, r, n - r, w, before, w');
    }
  }

  /** The loops of sataread and satawrite.  A read copies from the disk to memory and a
      write the other way: without errors all that was asked for, up to the end of the
      disk; and never anything else. */
  method ReadWrite(t: Direction, disk: Disk, buf: nat, n: int, off: int, tags: nat -> nat, slots: nat -> nat,
                   fails: nat -> bool, prds: array<Prd>, ghost w: World)
      returns (result: Result, ghost w': World)
    requires forall i :: tags(i) < 32 && slots(i) < 32
    requires prds.Length == 32 * MAXPRD && disk.sectors < 0x1_0000_0000_0000
    modifies prds
    ensures result.Ok? && n > 0 ==> off >= 0 && Moved(t, off, buf, result.n, w, w')
    ensures result.Ok? && n > 0 && t == Read ==>
      forall a: nat :: buf <= a < buf + result.n ==> w'.mem(a) == w.disk(off + a - buf)
    ensures result.Ok? && n > 0 && t == Write ==>
      forall a: nat :: off <= a < off + result.n ==> w'.disk(a) == w.mem(buf + a - off)
    ensures result.Ok? && n > 0 ==> result.n == n || (result.n < n && off + result.n == disk.sectors * SECTOR)
    ensures n <= 0 ==> result == Ok(0) && w' == w
    ensures n > 0 && off >= 0 ==> Partly(t, off, buf, n, w, w')
    ensures n > 0 && (!disk.valid || off < 0 || off % 512 != 0 || off > 512 * disk.sectors) ==>
      result == Error && w' == w
    ensures n > 0 && (n % 512 != 0 || buf % 2 != 0) ==> result == Error && w' == w
    ensures Fine(disk, buf, n, off) && (forall i :: !fails(i)) ==> result == Ok(n)
  {
    var r: nat := 0;
    w' := w;
    while r < n
      invariant r % SECTOR == 0 && (r == 0 || r <= n)
      invariant r > 0 ==> off >= 0 && !Refused(disk, buf, n, off) && Partly(t, off, buf, n, w, w')
      invariant off >= 0 ==> Moved(t, off, buf, r, w, w')
      invariant r == 0 ==> w' == w
      decreases n - r
    {
      if r > 0 {
        RefusedLater(disk, buf, n, off, r);
      }
      var nn;
      nn, w' := Turn(t, disk, buf, n, off, r, tags(r), slots(r), fails(r), prds, w, w');
      if nn == Error {
        return Error, w';
      }
      if nn.n == 0 {
        break;
      }
      r := r + nn.n;
    }
    result := Ok(r);
  }

  /** A request that asks for whole sectors of the disk. */
  predicate Fine(disk: Disk, buf: nat, n: int, off: int) {
    && disk.valid && n > 0 && n % 512 == 0 && buf % 2 == 0
    && off >= 0 && off % 512 == 0 && off + n <= 512 * disk.sectors
  }
}
