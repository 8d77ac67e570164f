/** Finding a disk and keeping the partitions that it says it has: the store of BlockStore
    gets what the tables of Partitions say (devbs.c, part.c). */
module DiskInit {
  import opened Bits
  import opened BlockIo
  import opened BlockStore
  import P = Partitions

  /** The sectors of a disk that answers each read as it likes. */
  function Sectors(data: seq<byte>, answers: int -> Answer): P.Reader {
    off => if off < 0 || answers(off).fails then P.Err(P.ReadingTable)
           else P.Ok(Bytes(data, off, Min(Min(answers(off).most, P.SECTOR), Left(data, off))))
  }

  function Left(data: seq<byte>, off: nat): nat {
    if off < |data| then |data| - off else 0
  }

  /** What the store is told of the tables. */
  function TableOf(r: P.Result<seq<P.Part>>): Table {
    if r.Err? || r.value == [] then NoTable else Table(P.Extents(r.value[1..]))
  }

  predicate Inside(p: Extent, q: Extent) {
    q.start <= p.start && p.start + p.size <= q.start + q.size
  }

  /** Two partitions of the first table. */
  predicate Neighbours(p: Extent, q: Extent) {
    Disjoint(p, q) || Inside(p, q) || Inside(q, p)
  }

  ghost predicate InsideFirst(parts: seq<Extent>, end: nat, j: nat)
    requires end <= |parts| && j < |parts|
  {
    exists i :: 1 <= i < end && Inside(parts[j], parts[i])
  }

  /** The first end partitions are neighbours, and each of the others lies inside one of
      those. */
  ghost predicate WellPlaced(parts: seq<Extent>, end: nat) {
    && 1 <= end <= |parts|
    && (forall i, j :: 1 <= i < j < end ==> Neighbours(parts[i], parts[j]))
    && (forall j :: end <= j < |parts| ==> InsideFirst(parts, end, j))
  }

  /** What the store keeps: the disk and the partitions its tables name, or just the disk. */
  function Kept(r: P.Result<seq<P.Part>>, size: nat): seq<Extent> {
    if r.Ok? then P.Extents(r.value) else [Extent(0, size)]
  }

  /** Every partition of a disk whose tables can be read fits a store, and they are well
      placed. */
  lemma TablesFit(read: P.Reader, parse: P.Parser, size: nat, a: nat) returns (end: nat)
    requires BlockSize(a) && size < P.BIGDISK && P.DiskInRange(read, parse, size)
    ensures var r := P.AllParts(read, parse, size);
      && TableFits(TableOf(r), a, size)
      && Layout(size, TableOf(r)) == Kept(r, size) && WellPlaced(Kept(r, size), end)
  {
    end := P.PartitionsArePlaced(read, parse, size);
    var r := P.AllParts(read, parse, size);
    if r.Err? {
      end := 1;
    } else {
      P.PartitionsFit(r.value, size, a);
      LayoutIsExtents(r.value, size);
      NeighboursKept(r.value, end, size);
      NestedKept(r.value, end, size);
    }
  }

  lemma LayoutIsExtents(parts: seq<P.Part>, size: nat)
    requires parts != [] && parts[0] == P.Data(size)
    ensures Layout(size, TableOf(P.Ok(parts))) == P.Extents(parts)
  {
    var x, y := Layout(size, TableOf(P.Ok(parts))), P.Extents(parts);
    forall i | 0 <= i < |parts|
      ensures x[i] == y[i]
    {
      if i > 0 {
        assert parts[1..][i - 1] == parts[i];
      }
    }
  }

  lemma NeighboursKept(parts: seq<P.Part>, end: nat, size: nat)
    requires 1 <= end <= |parts| && P.AllInDisk(parts, size) && P.Separate(parts[..end])
    requires forall j :: 1 <= j < end ==> parts[j].e == parts[j].s + parts[j].size
    ensures forall i, j :: 1 <= i < j < end ==> Neighbours(P.Extents(parts)[i], P.Extents(parts)[j])
  {
    forall i, j | 1 <= i < j < end
      ensures Neighbours(P.Extents(parts)[i], P.Extents(parts)[j])
    {
      assert P.InDisk(parts[i], size) && P.InDisk(parts[j], size);
      assert P.Beside(parts[..end][i], parts[..end][j]);
    }
  }

  lemma NestedKept(parts: seq<P.Part>, end: nat, size: nat)
    requires 1 <= end <= |parts| && P.AllInDisk(parts, size) && P.Nested(parts, end)
    ensures forall j :: end <= j < |parts| ==> InsideFirst(P.Extents(parts), end, j)
  {
    forall j | end <= j < |parts|
      ensures InsideFirst(P.Extents(parts), end, j)
    {
      assert P.InDisk(parts[j], size);
      var i :| 1 <= i < end && P.HasTable(parts[i]) && P.Within(parts[j], parts[i]);
      assert P.InDisk(parts[i], size);
      assert Inside(P.Extents(parts)[j], P.Extents(parts)[i]);
    }
  }

  /** diskinit, whatever was open before: it succeeds exactly with a disk of whole blocks,
      and then the store has that disk and the partitions its tables name, or just the
      whole of it. */
  method Diskinit(st: Store, disk: Device?, answers: int -> Answer, parse: P.Parser)
      returns (o: Outcome, ghost end: nat)
    requires st.Valid()
    requires disk != null ==>
      var size := disk.data.Length;
      size < P.BIGDISK && P.DiskInRange(Sectors(disk.data[..], answers), parse, size)
    modifies st
    ensures st.Valid() && st.vers == (old(st.vers) + 1) % VERSIONS
    ensures o == Done <==> disk != null && Aligned(disk.data.Length, st.a)
    ensures o == Done ==> st.ready && st.device == disk && WellPlaced(st.parts, end)
    ensures o == Done ==>
      st.parts == Kept(P.AllParts(Sectors(disk.data[..], answers), parse, disk.data.Length), disk.data.Length)
  {
    var table := NoTable;
    end := 1;
    if disk != null {
      table, end := ReadTables(disk, answers, parse, st.a);
    }
    o := st.Init(disk, table);
  }

  method ReadTables(disk: Device, answers: int -> Answer, parse: P.Parser, a: nat)
      returns (t: Table, ghost end: nat)
    requires BlockSize(a) && disk.data.Length < P.BIGDISK
    requires P.DiskInRange(Sectors(disk.data[..], answers), parse, disk.data.Length)
    ensures t == TableOf(P.AllParts(Sectors(disk.data[..], answers), parse, disk.data.Length))
    ensures TableFits(t, a, disk.data.Length)
    ensures Layout(disk.data.Length, t)
         == Kept(P.AllParts(Sectors(disk.data[..], answers), parse, disk.data.Length), disk.data.Length)
    ensures WellPlaced(Layout(disk.data.Length, t), end)
  {
    var read := Sectors(disk.data[..], answers);
    var r := P.PartInit(read, parse, disk.data.Length);
    t := TableOf(r);
    end := TablesFit(read, parse, disk.data.Length, a);
  }

  /** The partinit control message: the partitions are read again from the same disk. */
  method Partinit(st: Store, cvers: nat, denied: bool, answers: int -> Answer, parse: P.Parser)
      returns (o: Outcome, ghost end: nat)
    requires st.Valid() && st.device.data.Length < P.BIGDISK
    requires P.DiskInRange(Sectors(st.device.data[..], answers), parse, st.device.data.Length)
    modifies st
    ensures st.Valid() && st.device == old(st.device)
    ensures o == Done ==>
      var size := st.device.data.Length;
      var r := P.AllParts(Sectors(st.device.data[..], answers), parse, size);
      cvers == old(st.vers) && r.Ok? && st.parts == Kept(r, size) && WellPlaced(st.parts, end)
  {
    var table;
    table, end := ReadTables(st.device, answers, parse, st.a);
    o := st.InitParts(cvers, denied, table);
  }
}
