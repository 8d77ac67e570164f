/** The version and exclusive-open protocol of a block store (devbs.c).  Every step
    happens as a whole. */
module BlockStore {
  import opened Bits
  import BlockIo

  /** A version is a C int: it comes round after this many initialisations. */
  const VERSIONS := 0x1_0000_0000

  datatype Error = NoDisk | NoPart | InUse | Perm | Stale | BadPartitions | DeviceError

  /** What a step ends in; Served is a transfer that reached the device. */
  datatype Outcome = Done | Served | Failed(error: Error) | Panic

  /** An open channel on a partition, with the version of the store it got, and the
      number of initialisations that the store had seen by then. */
  datatype Chan = Chan(part: nat, vers: nat, epoch: nat)

  /** What finding the device and reading its partition table come to: the device fails,
      the table is refused, or it gives so many partitions beside the whole disk. */
  datatype Found = NoDevice | BadTable | Parts(n: nat)

  datatype State = State(ready: bool, vers: nat, epoch: nat, isopen: seq<nat>, chans: map<nat, Chan>)

  datatype Event =
    | Open(c: nat, part: nat, denied: bool)
    | Close(c: nat)
    | Transfer(c: nat)
    | DiskInit(found: Found)
    | PartInit(vers: nat, denied: bool, found: Found)

  /** Partitions that nobody has open. */
  function Unopened(n: nat): (z: seq<nat>)
    ensures |z| == n && forall i :: 0 <= i < n ==> z[i] == 0
  {
    seq(n, _ => 0)
  }

  /** The partitions after a table was read: the whole disk is always there. */
  function PartsOf(first: nat, found: Found): seq<nat> {
    [first] + if found.Parts? then Unopened(found.n) else []
  }

  const START := State(false, 0, 0, [], map[])

  predicate Enabled(s: State, e: Event) {
    match e
    case Open(c, _, _) => c !in s.chans
    case Close(c) => c in s.chans
    case Transfer(c) => c in s.chans
    case _ => true
  }

  function Apply(s: State, e: Event): (State, Outcome)
    requires Enabled(s, e)
  {
    match e
    case Open(c, part, denied) =>
      if !s.ready then (s, Failed(NoDisk))
      else if part >= |s.isopen| then (s, Failed(NoPart))
      else if part != 0 && s.isopen[part] != 0 then (s, Failed(InUse))
      else if denied then (s, Failed(Perm))
      else
        (s.(chans := s.chans[c := Chan(part, s.vers, s.epoch)],
            isopen := if part == 0 then s.isopen else s.isopen[part := s.isopen[part] + 1]), Done)
    case Close(c) =>
      var ch := s.chans[c];
      var closed := s.(chans := s.chans - {c});
      if ch.part == 0 || ch.vers != s.vers then (closed, Done)
      else if !s.ready then (closed, Failed(NoDisk))
      else if ch.part >= |s.isopen| then (closed, Failed(NoPart))
      else if s.isopen[ch.part] != 1 then (closed, Panic)
      else (closed.(isopen := s.isopen[ch.part := 0]), Done)
    case Transfer(c) =>
      var ch := s.chans[c];
      if ch.vers != s.vers then (s, Failed(Stale))
      else if !s.ready then (s, Failed(NoDisk))
      else if ch.part >= |s.isopen| then (s, Failed(NoPart))
      else (s, Served)
    case DiskInit(found) =>
      var next := s.(vers := (s.vers + 1) % VERSIONS, epoch := s.epoch + 1);
      if found.NoDevice? then (next.(ready := false, isopen := []), Failed(DeviceError))
      else (next.(ready := true, isopen := PartsOf(0, found)), Done)
    case PartInit(vers, denied, found) =>
      if vers != s.vers then (s, Failed(Stale))
      else if !s.ready || s.isopen == [] then (s, Failed(NoDisk))
      else if denied then (s, Failed(Perm))
      else
        (s.(vers := (s.vers + 1) % VERSIONS, epoch := s.epoch + 1, isopen := PartsOf(s.isopen[0], found)),
         if found.Parts? then Done else Failed(BadPartitions))
  }

  // ---------- the invariant ----------

  predicate Current(s: State, c: nat) {
    c in s.chans && s.chans[c].epoch == s.epoch
  }

  /** The open channels on a partition that got the store's current version. */
  function Holders(s: State, part: nat): set<nat> {
    set c | c in s.chans && s.chans[c].epoch == s.epoch && s.chans[c].part == part
  }

  ghost predicate Counted(s: State, part: nat)
    requires part < |s.isopen|
  {
    s.isopen[part] == |Holders(s, part)| <= 1
  }

  ghost predicate ChanOk(s: State, c: nat)
    requires c in s.chans
  {
    var ch := s.chans[c];
    && ch.epoch <= s.epoch && ch.vers == ch.epoch % VERSIONS
    && (ch.epoch == s.epoch ==> s.ready && ch.part < |s.isopen|)
  }

  ghost predicate Inv(s: State) {
    && s.vers == s.epoch % VERSIONS
    && (s.ready <==> s.isopen != [])
    && (forall c :: c in s.chans ==> ChanOk(s, c))
    && (forall part :: 0 < part < |s.isopen| ==> Counted(s, part))
  }

  /** Equal versions mean that whole rounds of them have passed. */
  lemma SameVersion(a: nat, b: nat)
    requires a <= b
    ensures a % VERSIONS == b % VERSIONS <==> (b - a) % VERSIONS == 0
  {
  }

  /** The step does not close a channel that has seen a whole number of rounds of
      versions go by. */
  predicate Guarded(s: State, e: Event) {
    e.Close? && e.c in s.chans && s.chans[e.c].part != 0 && s.chans[e.c].epoch < s.epoch ==>
      (s.epoch - s.chans[e.c].epoch) % VERSIONS != 0
  }

  lemma OpenInv(s: State, e: Event)
    requires Inv(s) && Enabled(s, e) && e.Open?
    ensures Inv(Apply(s, e).0)
  {
    var s' := Apply(s, e).0;
    if Apply(s, e).1 == Done {
      forall c | c in s'.chans
        ensures ChanOk(s', c)
      {
        assert c != e.c ==> ChanOk(s, c);
      }
      forall part | 0 < part < |s'.isopen|
        ensures Counted(s', part)
      {
        assert Counted(s, part);
        assert Holders(s', part) == Holders(s, part) + if part == e.part then {e.c} else {};
      }
    }
  }

  lemma CloseInv(s: State, e: Event)
    requires Inv(s) && Enabled(s, e) && e.Close? && Guarded(s, e)
    ensures Inv(Apply(s, e).0) && Apply(s, e).1 == Done
  {
    var s', ch := Apply(s, e).0, s.chans[e.c];
    assert ChanOk(s, e.c);
    SameVersion(ch.epoch, s.epoch);
    if ch.part != 0 && ch.epoch == s.epoch {
      assert Counted(s, ch.part);
      OneMember(Holders(s, ch.part), e.c);
    }
    forall c | c in s'.chans
      ensures ChanOk(s', c)
    {
      assert ChanOk(s, c);
    }
    forall part | 0 < part < |s'.isopen|
      ensures Counted(s', part)
    {
      assert Counted(s, part);
      assert Holders(s', part) == Holders(s, part) - {e.c};
    }
  }

  lemma OneMember(a: set<nat>, x: nat)
    requires x in a && |a| <= 1
    ensures a == {x}
  {
    assert |a - {x}| == 0;
  }

  lemma InitInv(s: State, e: Event)
    requires Inv(s) && Enabled(s, e) && (e.DiskInit? || e.PartInit?)
    ensures Inv(Apply(s, e).0)
  {
    var s' := Apply(s, e).0;
    if s'.epoch > s.epoch {
      forall c | c in s'.chans
        ensures ChanOk(s', c) && s'.chans[c].epoch < s'.epoch
      {
        assert ChanOk(s, c);
      }
      forall part | 0 < part < |s'.isopen|
        ensures Counted(s', part)
      {
        assert Holders(s', part) == {};
      }
    }
  }

  lemma StepInv(s: State, e: Event)
    requires Inv(s) && Enabled(s, e) && Guarded(s, e)
    ensures Inv(Apply(s, e).0) && Apply(s, e).1 != Panic
  {
    match e
    case Open(_, _, _) => OpenInv(s, e);
    case Close(_) => CloseInv(s, e);
    case Transfer(_) =>
    case _ => InitInv(s, e);
  }

  // ---------- whole runs ----------

  predicate Possible(s: State, es: seq<Event>)
    decreases |es|
  {
    es == [] || (Enabled(s, es[0]) && Possible(Apply(s, es[0]).0, es[1..]))
  }

  predicate AllGuarded(s: State, es: seq<Event>)
    requires Possible(s, es)
    decreases |es|
  {
    es == [] || (Guarded(s, es[0]) && AllGuarded(Apply(s, es[0]).0, es[1..]))
  }

  function Final(s: State, es: seq<Event>): State
    requires Possible(s, es)
    decreases |es|
  {
    if es == [] then s else Final(Apply(s, es[0]).0, es[1..])
  }

  function Outcomes(s: State, es: seq<Event>): seq<Outcome>
    requires Possible(s, es)
    decreases |es|
  {
    if es == [] then [] else [Apply(s, es[0]).1] + Outcomes(Apply(s, es[0]).0, es[1..])
  }

  lemma {:induction false} RunInv(s: State, es: seq<Event>)
    requires Inv(s) && Possible(s, es) && AllGuarded(s, es)
    ensures Inv(Final(s, es)) && Panic !in Outcomes(s, es)
    decreases |es|
  {
    if es != [] {
      StepInv(s, es[0]);
      RunInv(Apply(s, es[0]).0, es[1..]);
    }
  }

  /** Every run from the beginning, in which the versions do not come round. */
  lemma EveryRun(es: seq<Event>)
    requires Possible(START, es) && Inits(es) < VERSIONS
    ensures Inv(Final(START, es)) && Panic !in Outcomes(START, es)
  {
    FewInitsAreGuarded(START, es);
    RunInv(START, es);
  }

  function Inits(es: seq<Event>): nat {
    if es == [] then 0 else (if es[0].DiskInit? || es[0].PartInit? then 1 else 0) + Inits(es[1..])
  }

  /** A run in which the versions do not come round is guarded. */
  lemma {:induction false} FewInitsAreGuarded(s: State, es: seq<Event>)
    requires Inv(s) && Possible(s, es) && s.epoch + Inits(es) < VERSIONS
    ensures AllGuarded(s, es)
    decreases |es|
  {
    if es != [] {
      StepInv(s, es[0]);
      FewInitsAreGuarded(Apply(s, es[0]).0, es[1..]);
    }
  }

  // ---------- what the protocol is for ----------

  /** No two channels of the current version are open on a partition. */
  lemma OpenIsExclusive(s: State, c: nat, c': nat)
    requires Inv(s) && Current(s, c) && Current(s, c') && s.chans[c].part == s.chans[c'].part != 0
    ensures c == c'
  {
    var part := s.chans[c].part;
    assert ChanOk(s, c) && Counted(s, part);
    OneMember(Holders(s, part), c);
    assert c' in Holders(s, part);
  }

  /** A partition that can be opened has no open channel of the current version; but the
      partition of the whole disk may have any number. */
  lemma OpenedWhenFree(s: State, e: Event)
    requires Inv(s) && Enabled(s, e) && e.Open?
    ensures Apply(s, e).1 == Done <==>
      s.ready && e.part < |s.isopen| && !e.denied && (e.part == 0 || Holders(s, e.part) == {})
  {
    if 0 < e.part < |s.isopen| {
      assert Counted(s, e.part);
      assert |Holders(s, e.part)| == 0 <==> Holders(s, e.part) == {};
    }
  }

  /** A transfer reaches the device exactly when the channel got the current version,
      or whole rounds of versions have passed since. */
  lemma ReachesDeviceExactlyWhen(s: State, c: nat)
    requires Inv(s) && c in s.chans
    ensures Apply(s, Transfer(c)).1 == Served <==>
      (s.epoch - s.chans[c].epoch) % VERSIONS == 0 && s.chans[c].part < |s.isopen|
    ensures Current(s, c) ==> Apply(s, Transfer(c)).1 == Served
    ensures 0 < s.epoch - s.chans[c].epoch < VERSIONS ==> Apply(s, Transfer(c)).1 == Failed(Stale)
  {
    assert ChanOk(s, c);
    SameVersion(s.chans[c].epoch, s.epoch);
  }

  /** The panic in bsclose is reached exactly by a channel for which the versions have
      come round, and whose partition nobody has opened since. */
  lemma PanicsExactlyWhen(s: State, c: nat)
    requires Inv(s) && c in s.chans
    ensures Apply(s, Close(c)).1 == Panic <==>
      var ch := s.chans[c];
      && 0 < ch.part < |s.isopen|
      && ch.epoch < s.epoch && (s.epoch - ch.epoch) % VERSIONS == 0
      && Holders(s, ch.part) == {}
  {
    var ch := s.chans[c];
    assert ChanOk(s, c);
    SameVersion(ch.epoch, s.epoch);
    if 0 < ch.part < |s.isopen| {
      assert Counted(s, ch.part);
      assert |Holders(s, ch.part)| == 0 <==> Holders(s, ch.part) == {};
      if ch.epoch == s.epoch {
        OneMember(Holders(s, ch.part), c);
      }
    }
  }

  function Repeat(e: Event, k: nat): (es: seq<Event>)
    ensures |es| == k && forall i :: 0 <= i < k ==> es[i] == e
  {
    seq(k, _ => e)
  }

  /** Initialisations, one after the other. */
  lemma {:induction false} ManyInits(s: State, n: nat, k: nat)
    requires Inv(s) && k > 0
    ensures var es := Repeat(DiskInit(Parts(n)), k);
      && Possible(s, es)
      && Final(s, es) == s.(ready := true, vers := (s.epoch + k) % VERSIONS, epoch := s.epoch + k,
                            isopen := PartsOf(0, Parts(n)))
    decreases k
  {
    var e := DiskInit(Parts(n));
    var es, s' := Repeat(e, k), Apply(s, e).0;
    assert es[1..] == Repeat(e, k - 1);
    InitInv(s, e);
    if k > 1 {
      ManyInits(s', n, k - 1);
    } else {
      assert Possible(s', []) && Final(s', []) == s';
    }
  }

  /** After a whole round of initialisations, closing an old channel panics: the
      guard on runs cannot be left out. */
  lemma RoundPanics(s: State, c: nat, n: nat, k: nat)
    requires Inv(s) && Current(s, c) && 0 < s.chans[c].part <= n && k == VERSIONS
    ensures var es := Repeat(DiskInit(Parts(n)), k);
      Possible(s, es) && c in Final(s, es).chans && Apply(Final(s, es), Close(c)).1 == Panic
  {
    ManyInits(s, n, k);
    OldCloses(s, Final(s, Repeat(DiskInit(Parts(n)), k)), c, n);
  }

  lemma OldCloses(s: State, t: State, c: nat, n: nat)
    requires Inv(s) && Current(s, c) && 0 < s.chans[c].part <= n
    requires t == s.(ready := true, vers := (s.epoch + VERSIONS) % VERSIONS, epoch := s.epoch + VERSIONS,
                     isopen := PartsOf(0, Parts(n)))
    ensures c in t.chans && Apply(t, Close(c)).1 == Panic
  {
    assert ChanOk(s, c);
    SameVersion(s.epoch, s.epoch + VERSIONS);
  }

  // ---------- the store ----------

  /** What partinit makes of a disk: it raises an error, or returns these partitions. */
  datatype Table = NoTable | Table(extents: seq<BlockIo.Extent>)

  function FoundOf(t: Table): Found {
    if t.NoTable? then BadTable else Parts(|t.extents|)
  }

  ghost predicate AllFit(parts: seq<BlockIo.Extent>, a: nat, size: nat)
    requires a > 0
  {
    forall i :: 0 <= i < |parts| ==> BlockIo.Fits(parts[i], a, size)
  }

  ghost predicate TableFits(t: Table, a: nat, size: nat)
    requires a > 0
  {
    t.Table? ==> AllFit(t.extents, a, size)
  }

  /** The partitions of a store: the whole disk, and those of the table. */
  function Layout(size: nat, table: Table): seq<BlockIo.Extent> {
    [BlockIo.Extent(0, size)] + if table.Table? then table.extents else []
  }

  lemma LayoutFits(size: nat, table: Table, a: nat, first: nat)
    requires BlockIo.BlockSize(a) && BlockIo.Aligned(size, a) && TableFits(table, a, size)
    ensures AllFit(Layout(size, table), a, size)
    ensures |Layout(size, table)| == |PartsOf(first, FoundOf(table))|
  {
  }

  class Store {
    const a: nat                        // alignmask + 1
    var device: BlockIo.Device
    var ready: bool
    var vers: nat
    var parts: seq<BlockIo.Extent>      // first the whole disk
    var isopen: seq<nat>                // by partition
    var chans: map<nat, Chan>           // the kernel's open channels on this store
    var epoch: nat                      // initialisations so far; the program does not count them

    ghost function Abs(): State
      reads this
    {
      State(ready, vers, epoch, isopen, chans)
    }

    ghost predicate Valid()
      reads this
    {
      && BlockIo.BlockSize(a) && Inv(Abs()) && device.data.Length < TWO63
      && |parts| == |isopen|
      && (ready ==> parts[0] == BlockIo.Extent(0, device.data.Length))
      && AllFit(parts, a, device.data.Length)
    }

    constructor (a: nat, device: BlockIo.Device)
      requires BlockIo.BlockSize(a) && device.data.Length < TWO63
      ensures Valid() && Abs() == START && this.a == a
    {
      this.a, this.device := a, device;
      ready, vers, epoch := false, 0, 0;
      parts, isopen, chans := [], [], map[];
    }

    method OpenPart(c: nat, part: nat, denied: bool) returns (o: Outcome)
      requires Valid() && c !in chans
      modifies `isopen, `chans
      ensures Valid() && (Abs(), o) == Apply(old(Abs()), Open(c, part, denied))
    {
      OpenInv(Abs(), Open(c, part, denied));
      if !ready {
        return Failed(NoDisk);
      }
      if part >= |parts| {
        return Failed(NoPart);
      }
      if part != 0 && isopen[part] != 0 {
        return Failed(InUse);
      }
      if denied {
        return Failed(Perm);
      }
      if part != 0 {
        isopen := isopen[part := isopen[part] + 1];
      }
      chans := chans[c := Chan(part, vers, epoch)];
      o := Done;
    }

    method ClosePart(c: nat) returns (o: Outcome)
      requires Valid() && c in chans
      modifies `isopen, `chans
      ensures (Abs(), o) == Apply(old(Abs()), Close(c))
      ensures old(Guarded(Abs(), Close(c))) ==> Valid() && o == Done
    {
      if Guarded(Abs(), Close(c)) {
        CloseInv(Abs(), Close(c));
      }
      var ch := chans[c];
      chans := chans - {c};
      if ch.part == 0 || ch.vers != vers {
        return Done;
      }
      if !ready {
        return Failed(NoDisk);
      }
      if ch.part >= |parts| {
        return Failed(NoPart);
      }
      if isopen[ch.part] != 1 {
        return Panic;
      }
      isopen := isopen[ch.part := 0];
      o := Done;
    }

    /** bsdevread and bsdevwrite on a partition. */
    method ReadWrite(c: nat, write: bool, buf: array<byte>, n: int, off: int, ans: BlockIo.Answer)
        returns (o: Outcome, r: BlockIo.Result)
      requires Valid() && c in chans && buf != device.data && n <= buf.Length && n <= BlockIo.LONGEST
      requires off < TWO63 && off + n < TWO63
      modifies device`asked, device.data, buf
      ensures o == Apply(Abs(), Transfer(c)).1 && Abs() == old(Abs()) && Valid()
      ensures o != Served || BlockIo.Refuses(ready, a, write, n, off) ==>
        && r == BlockIo.Error && device.asked == old(device.asked)
        && device.data[..] == old(device.data[..]) && buf[..] == old(buf[..])
      ensures o == Served && !BlockIo.Refuses(ready, a, write, n, off) ==>
        var (s, m) := BlockIo.Clip(parts[chans[c].part], n, off); var (xs, xn) := BlockIo.Widen(s, m, a);
        var k := device.Moves(xn, xs, ans);
        && device.asked == old(device.asked) + [BlockIo.Request(write, xs, xn)]
        && r == (if ans.fails then BlockIo.Error else BlockIo.Ok(BlockIo.Wanted(k, s % a, m)))
        && BlockIo.Served(write, r, s, k, old(device.data[..]), device.data[..], old(buf[..]), buf[..])
      ensures chans[c].vers == vers && ready && chans[c].part < |parts| ==>
        BlockIo.AsPromised(true, a, parts[chans[c].part], write, n, off,
                           !ans.fails && device.data.Length <= ans.most, r,
                           old(device.data[..]), device.data[..], old(buf[..]), buf[..])
      ensures chans[c].vers != vers || !ready ==>
        r == BlockIo.Error && device.data[..] == old(device.data[..]) && buf[..] == old(buf[..])
    {
      if chans[c].vers != vers {
        return Failed(Stale), BlockIo.Error;
      }
      if !ready {
        return Failed(NoDisk), BlockIo.Error;
      }
      if chans[c].part >= |parts| {
        return Failed(NoPart), BlockIo.Error;
      }
      r := BlockIo.Io(device, ready, a, parts[chans[c].part], write, buf, n, off, ans);
      o := Served;
    }

    /** diskinit, when devinit finds a disk or fails, and partinit reads a table from it
        or fails; with a size that is no whole number of blocks it fails as well. */
    method Init(disk: BlockIo.Device?, table: Table) returns (o: Outcome)
      requires Valid() && (disk != null ==> disk.data.Length < TWO63 && TableFits(table, a, disk.data.Length))
      modifies this
      ensures Valid() && (Abs(), o) == Apply(old(Abs()),
        DiskInit(if disk == null || !BlockIo.Aligned(disk.data.Length, a) then NoDevice else FoundOf(table)))
      ensures o == Done ==> disk != null && device == disk
      ensures o == Done ==> parts == Layout(disk.data.Length, table)
    {
      ghost var none := disk == null || !BlockIo.Aligned(disk.data.Length, a);
      ghost var e := DiskInit(if none then NoDevice else FoundOf(table));
      InitInv(Abs(), e);
      ready, parts, isopen := false, [], [];
      vers, epoch := (vers + 1) % VERSIONS, epoch + 1;
      if disk == null {
        return Failed(DeviceError);
      }
      device := disk;
      if device.data.Length % a != 0 {
        return Failed(DeviceError);
      }
      parts, isopen := [BlockIo.Extent(0, device.data.Length)], [0];
      ready := true;
      if table.Table? {
        parts, isopen := parts + table.extents, isopen + Unopened(|table.extents|);
      }
      LayoutFits(disk.data.Length, table, a, 0);
      assert parts == Layout(disk.data.Length, table) && isopen == PartsOf(0, FoundOf(table));
      o := Done;
    }

    /** The partinit control message, on a channel of this version. */
    method InitParts(cvers: nat, denied: bool, table: Table) returns (o: Outcome)
      requires Valid() && TableFits(table, a, device.data.Length)
      modifies this
      ensures Valid() && (Abs(), o) == Apply(old(Abs()), PartInit(cvers, denied, FoundOf(table)))
      ensures device == old(device)
      ensures cvers != old(vers) || !old(ready) || denied ==>
        o != Done && parts == old(parts) && isopen == old(isopen) && vers == old(vers)
      ensures cvers == old(vers) && old(ready) && !denied ==>
        (o == Done <==> table.Table?) && vers == (old(vers) + 1) % VERSIONS
      ensures o == Done ==> parts == Layout(device.data.Length, table)
    {
      InitInv(Abs(), PartInit(cvers, denied, FoundOf(table)));
      if cvers != vers {
        return Failed(Stale);
      }
      if !ready {
        return Failed(NoDisk);
      }
      if denied {
        return Failed(Perm);
      }
      LayoutFits(device.data.Length, table, a, isopen[0]);
      parts, isopen := parts[..1], isopen[..1];
      vers, epoch := (vers + 1) % VERSIONS, epoch + 1;
      if table.Table? {
        parts, isopen := parts + table.extents, isopen + Unopened(|table.extents|);
      }
      assert parts == Layout(device.data.Length, table) && isopen == PartsOf(old(isopen)[0], FoundOf(table));
      o := if table.Table? then Done else Failed(BadPartitions);
    }
  }
}
