/** Reading the partitions of a disk: the table in its first sector, and inside Plan 9
    partitions a table of their own (part.c). */
module Partitions {
  import opened Bits
  import BlockIo
  import BlockStore

  const SECTOR := 512

  /** The longest name that a Part's name field holds. */
  const LONGNAME := 31

  datatype Part = Part(typ: byte, name: string, s: int, e: int, size: int)

  datatype Error =
    | ReadingMbr | NoSignature | LongName | BeyondEnd | StartAfterEnd | Overlapping | ReadingTable | BadTable

  datatype Result<T> = Ok(value: T) | Err(error: Error)

  // ---------- names ----------

  function Digit(d: nat): char
    requires d < 10
  {
    '0' + d as char
  }

  /** %d */
  function Decimal(n: nat): (s: string)
    ensures |s| > 0
  {
    if n < 10 then [Digit(n)] else Decimal(n / 10) + [Digit(n % 10)]
  }

  lemma {:induction false} DecimalInjective(m: nat, n: nat)
    requires Decimal(m) == Decimal(n)
    ensures m == n
  {
    var s := Decimal(m);
    if m < 10 && n < 10 {
      assert s[0] == Digit(m) == Digit(n);
    } else if m >= 10 && n >= 10 {
      assert s[|s| - 1] == Digit(m % 10) == Digit(n % 10);
      assert s[..|s| - 1] == Decimal(m / 10) == Decimal(n / 10);
      DecimalInjective(m / 10, n / 10);
    }
  }

  function Numbered(next: string, i: nat): string {
    next + "." + Decimal(i)
  }

  lemma NumberedInjective(next: string, i: nat, j: nat)
    requires Numbered(next, i) == Numbered(next, j)
    ensures i == j
  {
    assert Numbered(next, i)[|next| + 1..] == Decimal(i);
    assert Numbered(next, j)[|next| + 1..] == Decimal(j);
    DecimalInjective(i, j);
  }

  /** Numbered names that are all taken are no more than the names there are. */
  lemma {:induction false} Pigeonhole(names: set<string>, next: string, n: nat)
    requires forall j :: 0 <= j < n ==> Numbered(next, j) in names
    ensures n <= |names|
  {
    if n > 0 {
      var last := Numbered(next, n - 1);
      forall j | 0 <= j < n - 1
        ensures Numbered(next, j) in names - {last}
      {
        if Numbered(next, j) == last {
          NumberedInjective(next, j, n - 1);
        }
      }
      Pigeonhole(names - {last}, next, n - 1);
    }
  }

  function Names(parts: seq<Part>): set<string> {
    set i | 0 <= i < |parts| :: parts[i].name
  }

  /** The first number from i on that makes a new name. */
  function FirstFree(names: set<string>, next: string, i: nat): (k: nat)
    requires forall j :: 0 <= j < i ==> Numbered(next, j) in names
    ensures i <= k <= |names| && Numbered(next, k) !in names
    ensures forall j :: 0 <= j < k ==> Numbered(next, j) in names
    decreases |names| - i
  {
    Pigeonhole(names, next, i);
    if Numbered(next, i) !in names then i
    else
      Pigeonhole(names, next, i + 1);
      FirstFree(names, next, i + 1)
  }

  function Fitting(name: string): (r: Result<string>)
    ensures r.Ok? ==> r.value == name && |name| <= LONGNAME
  {
    if |name| <= LONGNAME then Ok(name) else Err(LongName)
  }

  function GenName(names: set<string>, first: string, next: string): (r: Result<string>)
    ensures r.Ok? ==> r.value !in names && |r.value| <= LONGNAME
  {
    if first !in names then Fitting(first) else Fitting(Numbered(next, FirstFree(names, next, 0)))
  }

  lemma {:induction false} DecimalLonger(m: nat, n: nat)
    requires m <= n
    ensures |Decimal(m)| <= |Decimal(n)|
  {
    if m >= 10 {
      DecimalLonger(m / 10, n / 10);
    }
  }

  method HasPartName(parts: seq<Part>, name: string) returns (r: bool)
    ensures r <==> name in Names(parts)
  {
    var i := 0;
    while i < |parts|
      invariant 0 <= i <= |parts|
      invariant forall j :: 0 <= j < i ==> parts[j].name != name
    {
      if parts[i].name == name {
        assert parts[i].name in Names(parts);
        return true;
      }
      i := i + 1;
    }
    r := false;
  }

  method PartGenName(parts: seq<Part>, first: string, next: string) returns (r: Result<string>)
    ensures r == GenName(Names(parts), first, next)
  {
    var has := HasPartName(parts, first);
    if !has {
      return Fitting(first);
    }
    ghost var names := Names(parts);
    ghost var k := FirstFree(names, next, 0);
    var i := 0;
    while true
      invariant i <= k && k == FirstFree(names, next, 0)
      decreases k - i
    {
      var name := next + "." + Decimal(i);
      assert name == Numbered(next, i);
      if |name| > LONGNAME {
        DecimalLonger(i, k);
        return Err(LongName);
      }
      has := HasPartName(parts, name);
      if !has {
        return Ok(name);
      }
      i := i + 1;
    }
  }

  /** The name of a partition of the first table, by its type and its place there. */
  function MbrName(typ: byte, names: set<string>, i: nat): Result<string> {
    if typ == 0x39 then GenName(names, "plan9", "plan9")
    else if typ in {0x01, 0x04, 0x06, 0x0b, 0x0c, 0x0e} then GenName(names, "9fat", "dos")
    else Ok("p" + Decimal(i))
  }

  method PartName(typ: byte, parts: seq<Part>, i: nat) returns (r: Result<string>)
    ensures r == MbrName(typ, Names(parts), i)
  {
    if typ == 0x39 {
      r := PartGenName(parts, "plan9", "plan9");
    } else if typ == 0x01 || typ == 0x04 || typ == 0x06 || typ == 0x0b || typ == 0x0c || typ == 0x0e {
      r := PartGenName(parts, "9fat", "dos");
    } else {
      r := Ok("p" + Decimal(i));
    }
  }

  // ---------- checking a partition ----------

  predicate Overlaps(p: Part, js: int, je: int) {
    (p.s <= js < p.e) || (p.s < je <= p.e)
  }

  /** What partcheck says of p, with parts[0] the disk or the partition around it. */
  function Check(p: Part, parts: seq<Part>, size: int): Result<()> {
    if p.e > size then Err(BeyondEnd)
    else if p.s > p.e then Err(StartAfterEnd)
    else if exists i :: 1 <= i < |parts| && Overlaps(p, parts[i].s, parts[i].e) then Err(Overlapping)
    else Ok(())
  }

  method PartCheck(p: Part, parts: seq<Part>, size: int) returns (r: Result<()>)
    ensures r == Check(p, parts, size)
  {
    if p.e > size {
      return Err(BeyondEnd);
    }
    if p.s > p.e {
      return Err(StartAfterEnd);
    }
    var i := 1;
    while i < |parts|
      invariant 1 <= i
      invariant forall j :: 1 <= j < i && j < |parts| ==> !Overlaps(p, parts[j].s, parts[j].e)
    {
      var js, je := parts[i].s, parts[i].e;
      if (js >= p.s && js < p.e) || (je > p.s && je <= p.e) {
        return Err(Overlapping);
      }
      i := i + 1;
    }
    r := Ok(());
  }

  predicate Apart(p: Part, js: int, je: int) {
    je <= p.s || p.e <= js
  }

  predicate StrictlyInside(p: Part, js: int, je: int) {
    js < p.s && p.e < je
  }

  /** The test lets a partition pass beside another exactly when the two are disjoint or
      the new one lies strictly inside the other. */
  lemma OverlapsExactlyWhen(p: Part, js: int, je: int)
    requires p.s < p.e && js < je
    ensures Overlaps(p, js, je) <==> !Apart(p, js, je) && !StrictlyInside(p, js, je)
  {
  }

  /** An entry is accepted exactly if it ends on the disk, and lies apart from each of the
      others, or strictly inside it. */
  lemma AcceptedExactlyWhen(p: Part, parts: seq<Part>, size: int)
    requires p.s < p.e && forall i :: 1 <= i < |parts| ==> parts[i].s < parts[i].e
    ensures Check(p, parts, size).Ok? <==>
      && p.e <= size
      && forall i :: 1 <= i < |parts| ==>
           parts[i].e <= p.s || p.e <= parts[i].s || (parts[i].s < p.s && p.e < parts[i].e)
  {
    forall i | 1 <= i < |parts|
      ensures Overlaps(p, parts[i].s, parts[i].e) <==>
        !(parts[i].e <= p.s || p.e <= parts[i].s || (parts[i].s < p.s && p.e < parts[i].e))
    {
      OverlapsExactlyWhen(p, parts[i].s, parts[i].e);
    }
  }

  /** Sectors 10 to 20 are accepted inside sectors 0 to 100, but not the other way round. */
  lemma NestedExample(disk: Part, size: nat)
    requires 100 * SECTOR <= size
    ensures var outer := Part(0x0c, "9fat", 0, 100 * SECTOR, 100 * SECTOR);
      var inner := Part(0x0c, "dos.0", 10 * SECTOR, 20 * SECTOR, 10 * SECTOR);
      Check(inner, [disk, outer], size).Ok? && Check(outer, [disk, inner], size) == Err(Overlapping)
  {
    var outer := Part(0x0c, "9fat", 0, 100 * SECTOR, 100 * SECTOR);
    var inner := Part(0x0c, "dos.0", 10 * SECTOR, 20 * SECTOR, 10 * SECTOR);
    var parts := [disk, inner];
    assert Overlaps(outer, parts[1].s, parts[1].e);
  }

  // ---------- the first table ----------

  function Data(size: nat): Part {
    Part(0, "data", 0, size, size)
  }

  function MbrPart(buf: seq<byte>, i: nat, name: string): Part
    requires |buf| == SECTOR && i < 4
  {
    var o := 446 + i * 16;
    var start, len := Le(buf, o + 8) * SECTOR, Le(buf, o + 12) * SECTOR;
    Part(buf[o + 4], name, start, start + len, len)
  }

  /** The entries from i on, added to parts. */
  function MbrFrom(buf: seq<byte>, size: nat, i: nat, parts: seq<Part>): Result<seq<Part>>
    requires |buf| == SECTOR && i <= 4
    decreases 4 - i, buf
  {
    if i == 4 then Ok(parts)
    else if buf[446 + i * 16 + 4] == 0 then MbrFrom(buf, size, i + 1, parts)
    else
      var name := MbrName(buf[446 + i * 16 + 4], Names(parts), i);
      if name.Err? then Err(name.error)
      else
        var p := MbrPart(buf, i, name.value);
        var ok := Check(p, parts, size);
        if ok.Err? then Err(ok.error) else MbrFrom(buf, size, i + 1, parts + [p])
  }

  method PartInitMbr(buf: seq<byte>, size: nat) returns (r: Result<seq<Part>>)
    requires |buf| == SECTOR
    ensures r == MbrFrom(buf, size, 0, [Data(size)])
  {
    var parts := [Data(size)];
    var i := 0;
    while i < 4
      invariant 0 <= i <= 4
      invariant MbrFrom(buf, size, i, parts) == MbrFrom(buf, size, 0, [Data(size)])
    {
      var o := 446 + i * 16;
      var typ := buf[o + 4];
      if typ != 0 {
        var name := PartName(typ, parts, i);
        if name.Err? {
          return Err(name.error);
        }
        var s, len := Le(buf, o + 8) * 512, Le(buf, o + 12) * 512;
        var p := Part(typ, name.value, s, s + len, len);
        var ok := PartCheck(p, parts, size);
        if ok.Err? {
          return Err(ok.error);
        }
        parts := parts + [p];
      }
      i := i + 1;
    }
    r := Ok(parts);
  }

  // ---------- the tables of Plan 9 partitions ----------

  /** A line of such a table, with the numbers as strtoull read them. */
  datatype Line = Bad | Entry(name: string, start: nat, end: nat)

  /** The entry as partcheck sees it: relative to the partition around it. */
  function SubPart(l: Line, name: string): Part
    requires l.Entry?
  {
    var s, e := Vlong(l.start * SECTOR), Vlong(l.end * SECTOR);
    Part(0, name, s, e, Vlong(e - s))
  }

  /** The entry as it is kept; e has the end of the partition around it added. */
  function Placed(p: Part, parent: Part): Part {
    p.(s := Vlong(p.s + parent.s), e := Vlong(p.e + parent.e))
  }

  /** The lines from k on, found in partition i, added to parts. */
  function SubsFrom(lines: seq<Line>, k: nat, i: nat, parts: seq<Part>): Result<seq<Part>>
    requires i < |parts| && k <= |lines|
    decreases |lines| - k
  {
    if k == |lines| then Ok(parts)
    else if lines[k].Bad? then Err(BadTable)
    else
      var name := GenName(Names(parts), lines[k].name, lines[k].name);
      if name.Err? then Err(name.error)
      else
        var p := SubPart(lines[k], name.value);
        var ok := Check(p, parts[i..], parts[i].size);
        if ok.Err? then Err(ok.error) else SubsFrom(lines, k + 1, i, parts + [Placed(p, parts[i])])
  }

  method PartInitSubs(lines: seq<Line>, i: nat, before: seq<Part>) returns (r: Result<seq<Part>>)
    requires i < |before|
    ensures r == SubsFrom(lines, 0, i, before)
  {
    var parts := before;
    var k := 0;
    while k < |lines|
      invariant 0 <= k <= |lines| && i < |parts|
      invariant SubsFrom(lines, k, i, parts) == SubsFrom(lines, 0, i, before)
    {
      if lines[k].Bad? {
        return Err(BadTable);
      }
      var name := PartGenName(parts, lines[k].name, lines[k].name);
      if name.Err? {
        return Err(name.error);
      }
      var p := SubPart(lines[k], name.value);
      var ok := PartCheck(p, parts[i..], parts[i].size);
      if ok.Err? {
        return Err(ok.error);
      }
      parts := parts + [Placed(p, parts[i])];
      k := k + 1;
    }
    r := Ok(parts);
  }

  /** What a read of a sector at an offset gives. */
  type Reader = int -> Result<seq<byte>>

  /** The lines of a sector. */
  type Parser = seq<byte> -> seq<Line>

  function HasTable(p: Part): bool {
    p.typ == 0x39 && p.size >= 2 * SECTOR
  }

  /** The tables of the partitions from i on to end. */
  function PartsFrom(read: Reader, parse: Parser, i: nat, end: nat, parts: seq<Part>): Result<seq<Part>>
    requires i <= end <= |parts|
    decreases end - i
  {
    if i == end then Ok(parts)
    else if !HasTable(parts[i]) then PartsFrom(read, parse, i + 1, end, parts)
    else
      var sector := read(parts[i].s + SECTOR);
      if sector.Err? || |sector.value| != SECTOR then Err(ReadingTable)
      else
        var r := SubsFrom(parse(sector.value), 0, i, parts);
        if r.Err? then r
        else
          SubsExtend(parse(sector.value), 0, i, parts);
          PartsFrom(read, parse, i + 1, end, r.value)
  }

  lemma {:induction false} SubsExtend(lines: seq<Line>, k: nat, i: nat, parts: seq<Part>)
    requires i < |parts| && k <= |lines|
    ensures var r := SubsFrom(lines, k, i, parts); r.Ok? ==> parts <= r.value
    decreases |lines| - k
  {
    if k < |lines| && lines[k].Entry? {
      var name := GenName(Names(parts), lines[k].name, lines[k].name);
      if name.Ok? {
        SubsExtend(lines, k + 1, i, parts + [Placed(SubPart(lines[k], name.value), parts[i])]);
      }
    }
  }

  lemma {:induction false} MbrExtend(buf: seq<byte>, size: nat, i: nat, parts: seq<Part>)
    requires |buf| == SECTOR && i <= 4
    ensures var r := MbrFrom(buf, size, i, parts); r.Ok? ==> parts <= r.value
    decreases 4 - i
  {
    if i < 4 && buf[446 + i * 16 + 4] == 0 {
      MbrExtend(buf, size, i + 1, parts);
    } else if i < 4 {
      var name := MbrName(buf[446 + i * 16 + 4], Names(parts), i);
      if name.Ok? {
        MbrExtend(buf, size, i + 1, parts + [MbrPart(buf, i, name.value)]);
      }
    }
  }

  function AllParts(read: Reader, parse: Parser, size: nat): Result<seq<Part>> {
    var sector := read(0);
    if sector.Err? || |sector.value| != SECTOR then Err(ReadingMbr)
    else if sector.value[510] != 0x55 || sector.value[511] != 0xaa then Err(NoSignature)
    else
      var mbr := MbrFrom(sector.value, size, 0, [Data(size)]);
      if mbr.Err? then mbr
      else
        MbrExtend(sector.value, size, 0, [Data(size)]);
        PartsFrom(read, parse, 1, |mbr.value|, mbr.value)
  }

  method PartInit(read: Reader, parse: Parser, size: nat) returns (r: Result<seq<Part>>)
    ensures r == AllParts(read, parse, size)
    ensures r.Ok? ==> forall h :: 1 <= h < |r.value| ==> LinesRead(read, parse, r.value[h], r.value)
  {
    AllTablesRead(read, parse, size);
    var sector := read(0);
    if sector.Err? || |sector.value| != 512 {
      return Err(ReadingMbr);
    }
    if sector.value[510] != 0x55 || sector.value[511] != 0xaa {
      return Err(NoSignature);
    }
    r := PartInitMbr(sector.value, size);
    MbrExtend(sector.value, size, 0, [Data(size)]);
    if r.Err? {
      return;
    }
    var parts, end := r.value, |r.value|;
    var i := 1;
    while i < end
      invariant 1 <= i <= end <= |parts|
      invariant PartsFrom(read, parse, i, end, parts) == AllParts(read, parse, size)
    {
      if HasTable(parts[i]) {
        sector := read(parts[i].s + 512);
        if sector.Err? || |sector.value| != 512 {
          return Err(ReadingTable);
        }
        SubsExtend(parse(sector.value), 0, i, parts);
        r := PartInitSubs(parse(sector.value), i, parts);
        if r.Err? {
          return;
        }
        parts := r.value;
      }
      i := i + 1;
    }
    r := Ok(parts);
  }

  // ---------- every entry becomes one partition ----------

  predicate Used(buf: seq<byte>, i: nat)
    requires |buf| == SECTOR && i < 4
  {
    buf[446 + i * 16 + 4] != 0
  }

  /** How many of the entries before i are used. */
  function UsedBefore(buf: seq<byte>, i: nat): nat
    requires |buf| == SECTOR && i <= 4
    decreases i, buf
  {
    if i == 0 then 0 else UsedBefore(buf, i - 1) + if Used(buf, i - 1) then 1 else 0
  }

  /** p is what the entry i says: type, and start and length in sectors, little-endian. */
  predicate IsEntry(p: Part, buf: seq<byte>, i: nat)
    requires |buf| == SECTOR && i < 4
  {
    && p.typ == buf[446 + i * 16 + 4]
    && p.s == Le(buf, 446 + i * 16 + 8) * 512
    && p.size == Le(buf, 446 + i * 16 + 12) * 512
    && IsNamed(p, i)
  }

  /** Plan 9 and FAT partitions have names of their own, numbered but for the first of them;
      others are named after their place. */
  predicate IsNamed(p: Part, i: nat) {
    if p.typ == 0x39 then p.name == "plan9" || "plan9." <= p.name
    else if p.typ in [0x01, 0x04, 0x06, 0x0b, 0x0c, 0x0e] then p.name == "9fat" || "dos." <= p.name
    else p.name == "p" + Decimal(i)
  }

  /** The used entries before i are there, in order. */
  ghost predicate HasEntries(parts: seq<Part>, buf: seq<byte>, i: nat)
    requires |buf| == SECTOR && i <= 4
  {
    && |parts| == 1 + UsedBefore(buf, i)
    && forall j :: 0 <= j < i && Used(buf, j) ==>
      1 + UsedBefore(buf, j) < |parts| && IsEntry(parts[1 + UsedBefore(buf, j)], buf, j)
  }

  lemma HasEntriesNext(parts: seq<Part>, buf: seq<byte>, i: nat, name: string)
    requires |buf| == SECTOR && i < 4 && HasEntries(parts, buf, i)
    requires Used(buf, i) ==> MbrName(buf[446 + i * 16 + 4], Names(parts), i) == Ok(name)
    ensures Used(buf, i) ==> HasEntries(parts + [MbrPart(buf, i, name)], buf, i + 1)
    ensures !Used(buf, i) ==> HasEntries(parts, buf, i + 1)
  {
    var p := MbrPart(buf, i, name);
    var all := if Used(buf, i) then parts + [p] else parts;
    forall j | 0 <= j < i + 1 && Used(buf, j)
      ensures 1 + UsedBefore(buf, j) < |all| && IsEntry(all[1 + UsedBefore(buf, j)], buf, j)
    {
      if j == i {
        assert all[|parts|] == p;
      } else {
        assert all[1 + UsedBefore(buf, j)] == parts[1 + UsedBefore(buf, j)];
      }
    }
  }

  lemma {:induction false} MbrHasEntries(buf: seq<byte>, size: nat, i: nat, parts: seq<Part>)
    requires |buf| == SECTOR && i <= 4 && HasEntries(parts, buf, i)
    ensures var r := MbrFrom(buf, size, i, parts); r.Ok? ==> HasEntries(r.value, buf, 4)
    decreases 4 - i
  {
    if i < 4 && !Used(buf, i) {
      HasEntriesNext(parts, buf, i, "");
      MbrHasEntries(buf, size, i + 1, parts);
    } else if i < 4 {
      var name := MbrName(buf[446 + i * 16 + 4], Names(parts), i);
      if name.Ok? {
        var p := MbrPart(buf, i, name.value);
        if Check(p, parts, size).Ok? {
          HasEntriesNext(parts, buf, i, name.value);
          MbrHasEntries(buf, size, i + 1, parts + [p]);
        }
      }
    }
  }

  /** p is what the line says, from the beginning of the partition around it. */
  predicate IsLine(p: Part, l: Line, parent: Part) {
    && l.Entry? && p.typ == 0
    && p.s == Vlong(Vlong(l.start * 512) + parent.s)
    && p.size == Vlong(Vlong(l.end * 512) - Vlong(l.start * 512))
    && (p.name == l.name || l.name + "." <= p.name)
  }

  /** A table of lines is read whole: each line becomes one partition, in order, placed
      relative to the partition it was found in. */
  lemma {:induction false} SubsHaveLines(lines: seq<Line>, k: nat, i: nat, parts: seq<Part>)
    requires i < |parts| && k <= |lines|
    ensures var r := SubsFrom(lines, k, i, parts); r.Ok? ==>
      && parts <= r.value && |r.value| == |parts| + |lines| - k
      && forall j :: k <= j < |lines| ==> IsLine(r.value[|parts| + j - k], lines[j], parts[i])
    decreases |lines| - k
  {
    if k < |lines| && lines[k].Entry? {
      var name := GenName(Names(parts), lines[k].name, lines[k].name);
      if name.Ok? {
        var p := Placed(SubPart(lines[k], name.value), parts[i]);
        SubsHaveLines(lines, k + 1, i, parts + [p]);
      }
    }
  }

  /** If p is a Plan 9 partition of two sectors or more, its second sector has been read,
      and every line there has become a partition. */
  ghost predicate LinesRead(read: Reader, parse: Parser, p: Part, parts: seq<Part>) {
    p.typ == 0x39 && p.size >= 1024 ==>
      var sector := read(p.s + 512);
      && sector.Ok? && |sector.value| == 512
      && var lines := parse(sector.value);
         forall j :: 0 <= j < |lines| ==> LineRead(lines[j], p, parts)
  }

  ghost predicate LineRead(l: Line, p: Part, parts: seq<Part>) {
    exists k :: 0 <= k < |parts| && IsLine(parts[k], l, p)
  }

  lemma LinesStay(read: Reader, parse: Parser, p: Part, parts: seq<Part>, more: seq<Part>)
    requires LinesRead(read, parse, p, parts) && parts <= more
    ensures LinesRead(read, parse, p, more)
  {
    var sector := read(p.s + 512);
    if p.typ == 0x39 && p.size >= 1024 {
      var lines := parse(sector.value);
      forall j | 0 <= j < |lines|
        ensures LineRead(lines[j], p, more)
      {
        assert LineRead(lines[j], p, parts);
        var k :| 0 <= k < |parts| && IsLine(parts[k], lines[j], p);
        assert more[k] == parts[k];
      }
    }
  }

  lemma TableRead(read: Reader, parse: Parser, i: nat, parts: seq<Part>)
    requires i < |parts| && HasTable(parts[i])
    ensures var sector := read(parts[i].s + SECTOR);
      sector.Ok? && |sector.value| == SECTOR ==>
        var r := SubsFrom(parse(sector.value), 0, i, parts);
        r.Ok? ==>
          && parts <= r.value && LinesRead(read, parse, parts[i], r.value)
          && forall h :: |parts| <= h < |r.value| ==> r.value[h].typ == 0
  {
    var sector := read(parts[i].s + SECTOR);
    if sector.Ok? && |sector.value| == SECTOR {
      var lines := parse(sector.value);
      var r := SubsFrom(lines, 0, i, parts);
      SubsHaveLines(lines, 0, i, parts);
      if r.Ok? {
        forall j | 0 <= j < |lines|
          ensures LineRead(lines[j], parts[i], r.value)
        {
          var k := |parts| + j;
          assert IsLine(r.value[k], lines[j], parts[i]);
        }
        forall h | |parts| <= h < |r.value|
          ensures r.value[h].typ == 0
        {
          var j := h - |parts|;
          assert IsLine(r.value[|parts| + j], lines[j], parts[i]);
        }
      }
    }
  }

  lemma {:induction false} TablesRead(read: Reader, parse: Parser, i: nat, end: nat, parts: seq<Part>)
    requires i <= end <= |parts| && forall h :: end <= h < |parts| ==> parts[h].typ == 0
    requires forall h :: 1 <= h < i ==> LinesRead(read, parse, parts[h], parts)
    ensures var r := PartsFrom(read, parse, i, end, parts);
      r.Ok? ==> forall h :: 1 <= h < |r.value| ==> LinesRead(read, parse, r.value[h], r.value)
    decreases end - i
  {
    if i < end && !HasTable(parts[i]) {
      TablesRead(read, parse, i + 1, end, parts);
    } else if i < end {
      var sector := read(parts[i].s + SECTOR);
      TableRead(read, parse, i, parts);
      if sector.Ok? && |sector.value| == SECTOR {
        var r := SubsFrom(parse(sector.value), 0, i, parts);
        if r.Ok? {
          forall h | 1 <= h < i + 1
            ensures LinesRead(read, parse, r.value[h], r.value)
          {
            if h < i {
              LinesStay(read, parse, parts[h], parts, r.value);
            }
          }
          TablesRead(read, parse, i + 1, end, r.value);
        }
      }
    }
  }

  lemma AllTablesRead(read: Reader, parse: Parser, size: nat)
    ensures var r := AllParts(read, parse, size);
      r.Ok? ==> forall h :: 1 <= h < |r.value| ==> LinesRead(read, parse, r.value[h], r.value)
  {
    var sector := read(0);
    if sector.Ok? && |sector.value| == SECTOR {
      var mbr := MbrFrom(sector.value, size, 0, [Data(size)]);
      MbrExtend(sector.value, size, 0, [Data(size)]);
      if mbr.Ok? {
        TablesRead(read, parse, 1, |mbr.value|, mbr.value);
      }
    }
  }

  /** A table that is read has the signature, and starts with the disk and the partitions
      that the entries of the first sector say. */
  lemma AllEntriesRead(read: Reader, parse: Parser, size: nat)
    ensures var r, sector := AllParts(read, parse, size), read(0); r.Ok? ==>
      && sector.Ok? && |sector.value| == 512 && sector.value[510] == 0x55 && sector.value[511] == 0xaa
      && var n := 1 + UsedBefore(sector.value, 4);
         n <= |r.value| && r.value[0] == Data(size) && HasEntries(r.value[..n], sector.value, 4)
  {
    var sector := read(0);
    if sector.Ok? && |sector.value| == SECTOR {
      var mbr := MbrFrom(sector.value, size, 0, [Data(size)]);
      MbrExtend(sector.value, size, 0, [Data(size)]);
      MbrHasEntries(sector.value, size, 0, [Data(size)]);
      if mbr.Ok? {
        PartsExtend(read, parse, 1, |mbr.value|, mbr.value);
        var r := PartsFrom(read, parse, 1, |mbr.value|, mbr.value);
        assert r.Ok? ==> r.value[..|mbr.value|] == mbr.value;
      }
    }
  }

  lemma {:induction false} PartsExtend(read: Reader, parse: Parser, i: nat, end: nat, parts: seq<Part>)
    requires i <= end <= |parts|
    ensures var r := PartsFrom(read, parse, i, end, parts); r.Ok? ==> parts <= r.value
    decreases end - i
  {
    if i < end && !HasTable(parts[i]) {
      PartsExtend(read, parse, i + 1, end, parts);
    } else if i < end {
      var sector := read(parts[i].s + SECTOR);
      if sector.Ok? && |sector.value| == SECTOR {
        SubsExtend(parse(sector.value), 0, i, parts);
        var r := SubsFrom(parse(sector.value), 0, i, parts);
        if r.Ok? {
          PartsExtend(read, parse, i + 1, end, r.value);
        }
      }
    }
  }

  // ---------- no two partitions have the same name ----------

  ghost predicate Distinct(parts: seq<Part>) {
    forall i, j :: 0 <= i < j < |parts| ==> parts[i].name != parts[j].name
  }

  lemma DistinctAppend(parts: seq<Part>, p: Part)
    requires Distinct(parts) && p.name !in Names(parts)
    ensures Distinct(parts + [p])
  {
    var all := parts + [p];
    forall i, j | 0 <= i < j < |all|
      ensures all[i].name != all[j].name
    {
      if j == |parts| {
        assert parts[i].name in Names(parts);
      }
    }
  }

  /** Of the names with two letters, those of the places before i are taken at most. */
  ghost predicate PlacesBefore(parts: seq<Part>, i: nat)
    requires i <= 4
  {
    forall j :: 0 <= j < |parts| && |parts[j].name| == 2 ==> parts[j].name[1] < Digit(i)
  }

  lemma {:induction false} MbrDistinct(buf: seq<byte>, size: nat, i: nat, parts: seq<Part>)
    requires |buf| == SECTOR && i <= 4 && Distinct(parts) && PlacesBefore(parts, i)
    ensures var r := MbrFrom(buf, size, i, parts); r.Ok? ==> Distinct(r.value)
    decreases 4 - i
  {
    if i < 4 && buf[446 + i * 16 + 4] == 0 {
      MbrDistinct(buf, size, i + 1, parts);
    } else if i < 4 {
      var typ := buf[446 + i * 16 + 4];
      var name := MbrName(typ, Names(parts), i);
      if name.Ok? {
        MbrNameIsNew(typ, parts, i);
        var p := MbrPart(buf, i, name.value);
        DistinctAppend(parts, p);
        MbrDistinct(buf, size, i + 1, parts + [p]);
      }
    }
  }

  lemma MbrNameIsNew(typ: byte, parts: seq<Part>, i: nat)
    requires i < 4 && PlacesBefore(parts, i)
    ensures var name := MbrName(typ, Names(parts), i); name.Ok? ==>
      name.value !in Names(parts) && (|name.value| == 2 ==> name.value[1] < Digit(i + 1))
  {
    assert Decimal(i) == [Digit(i)];
  }

  lemma {:induction false} SubsDistinct(lines: seq<Line>, k: nat, i: nat, parts: seq<Part>)
    requires i < |parts| && k <= |lines| && Distinct(parts)
    ensures var r := SubsFrom(lines, k, i, parts); r.Ok? ==> Distinct(r.value)
    decreases |lines| - k
  {
    if k < |lines| && lines[k].Entry? {
      var name := GenName(Names(parts), lines[k].name, lines[k].name);
      if name.Ok? {
        var p := Placed(SubPart(lines[k], name.value), parts[i]);
        DistinctAppend(parts, p);
        SubsDistinct(lines, k + 1, i, parts + [p]);
      }
    }
  }

  lemma {:induction false} PartsDistinct(read: Reader, parse: Parser, i: nat, end: nat, parts: seq<Part>)
    requires i <= end <= |parts| && Distinct(parts)
    ensures var r := PartsFrom(read, parse, i, end, parts); r.Ok? ==> Distinct(r.value)
    decreases end - i
  {
    if i < end && !HasTable(parts[i]) {
      PartsDistinct(read, parse, i + 1, end, parts);
    } else if i < end {
      var sector := read(parts[i].s + SECTOR);
      if sector.Ok? && |sector.value| == SECTOR {
        var lines := parse(sector.value);
        var r := SubsFrom(lines, 0, i, parts);
        if r.Ok? {
          SubsExtend(lines, 0, i, parts);
          SubsDistinct(lines, 0, i, parts);
          PartsDistinct(read, parse, i + 1, end, r.value);
        }
      }
    }
  }

  lemma NamesAreDistinct(read: Reader, parse: Parser, size: nat)
    ensures var r := AllParts(read, parse, size); r.Ok? ==> Distinct(r.value)
  {
    var sector := read(0);
    if sector.Ok? && |sector.value| == SECTOR {
      var mbr := MbrFrom(sector.value, size, 0, [Data(size)]);
      MbrDistinct(sector.value, size, 0, [Data(size)]);
      MbrExtend(sector.value, size, 0, [Data(size)]);
      if mbr.Ok? {
        PartsDistinct(read, parse, 1, |mbr.value|, mbr.value);
      }
    }
  }

  // ---------- where the partitions are ----------

  predicate InDisk(p: Part, size: nat) {
    && 0 <= p.s && 0 <= p.size && p.s + p.size <= size
    && p.s % SECTOR == 0 && p.size % SECTOR == 0
  }

  ghost predicate AllInDisk(parts: seq<Part>, size: nat) {
    forall i :: 1 <= i < |parts| ==> InDisk(parts[i], size)
  }

  /** The later of two partitions of the first table is disjoint from the earlier, or
      lies strictly inside it. */
  ghost predicate Separate(parts: seq<Part>) {
    forall i, j :: 1 <= i < j < |parts| ==> Beside(parts[i], parts[j])
  }

  predicate Beside(q: Part, p: Part) {
    q.s < q.e && p.s < p.e ==> Apart(p, q.s, q.e) || StrictlyInside(p, q.s, q.e)
  }

  /** The first table gives partitions inside the disk, each beside the others. */
  lemma {:induction false} MbrPlaces(buf: seq<byte>, size: nat, i: nat, parts: seq<Part>)
    requires |buf| == SECTOR && i <= 4 && AllInDisk(parts, size) && Separate(parts)
    requires parts != [] && forall j :: 1 <= j < |parts| ==> parts[j].e == parts[j].s + parts[j].size
    ensures var r := MbrFrom(buf, size, i, parts); r.Ok? ==>
      && AllInDisk(r.value, size) && Separate(r.value)
      && forall j :: 1 <= j < |r.value| ==> r.value[j].e == r.value[j].s + r.value[j].size
    decreases 4 - i
  {
    if i < 4 && buf[446 + i * 16 + 4] == 0 {
      MbrPlaces(buf, size, i + 1, parts);
    } else if i < 4 {
      var name := MbrName(buf[446 + i * 16 + 4], Names(parts), i);
      if name.Ok? {
        var p := MbrPart(buf, i, name.value);
        if Check(p, parts, size).Ok? {
          SeparateAppend(parts, p, size);
          EntryInDisk(buf, i, name.value, parts, size);
          MbrPlaces(buf, size, i + 1, parts + [p]);
        }
      }
    }
  }

  lemma EntryInDisk(buf: seq<byte>, i: nat, name: string, parts: seq<Part>, size: nat)
    requires |buf| == SECTOR && i < 4 && AllInDisk(parts, size) && Check(MbrPart(buf, i, name), parts, size).Ok?
    ensures AllInDisk(parts + [MbrPart(buf, i, name)], size)
  {
    assert InDisk(MbrPart(buf, i, name), size);
  }

  lemma SeparateAppend(parts: seq<Part>, p: Part, size: nat)
    requires Separate(parts) && parts != [] && Check(p, parts, size).Ok?
    ensures Separate(parts + [p])
  {
    var all := parts + [p];
    forall i, j | 1 <= i < j < |all|
      ensures Beside(all[i], all[j])
    {
      if j == |parts| {
        assert !Overlaps(p, parts[i].s, parts[i].e);
      } else {
        assert Beside(parts[i], parts[j]);
      }
    }
  }

  const BIGDISK := 0x4000_0000_0000_0000

  lemma VlongAligned(x: int)
    ensures -TWO63 <= Vlong(x * SECTOR) < TWO63 && Vlong(x * SECTOR) % SECTOR == 0
  {
    var y := x * SECTOR;
    var k := x - y / TWO64 * 0x80_0000_0000_0000;
    assert y % TWO64 == k * SECTOR;
    assert Vlong(y) == k * SECTOR || Vlong(y) == (k - 0x80_0000_0000_0000) * SECTOR;
  }

  predicate Within(p: Part, parent: Part) {
    parent.s <= p.s && p.s + p.size <= parent.s + parent.size
  }

  /** A line that partcheck accepts gives a partition inside the one around it exactly
      when its start does not turn negative in a vlong. */
  lemma WithinExactlyWhen(l: Line, name: string, parent: Part, others: seq<Part>, size: nat)
    requires l.Entry? && size < BIGDISK && InDisk(parent, size)
    requires Check(SubPart(l, name), others, parent.size).Ok?
    ensures Within(Placed(SubPart(l, name), parent), parent) <==> Vlong(l.start * SECTOR) >= 0
    ensures Vlong(l.start * SECTOR) >= 0 ==> InDisk(Placed(SubPart(l, name), parent), size)
  {
    var p := SubPart(l, name);
    VlongAligned(l.start);
    VlongAligned(l.end);
    VlongSmall(p.s + parent.s);
    if p.s >= 0 {
      VlongSmall(p.e - p.s);
      var m, n, o := p.s / SECTOR, p.e / SECTOR, parent.s / SECTOR;
      assert p.size == (n - m) * SECTOR && p.s + parent.s == (m + o) * SECTOR;
    }
  }

  /** In every Plan 9 partition, a line from sector 2^54 to sector 0 is accepted, and lies
      before the partition. */
  lemma NegativeStartExample(parent: Part, name: string, size: nat)
    requires size < BIGDISK && InDisk(parent, size)
    ensures var p := SubPart(Entry(name, 0x40_0000_0000_0000, 0), name);
      Check(p, [parent], parent.size).Ok? && p.s == -TWO63 && !Within(Placed(p, parent), parent)
  {
    var l := Entry(name, 0x40_0000_0000_0000, 0);
    assert l.start * SECTOR == TWO63;
    WithinExactlyWhen(l, name, parent, [parent], size);
  }

  /** Starts that stay positive. */
  ghost predicate InRange(lines: seq<Line>) {
    forall k :: 0 <= k < |lines| && lines[k].Entry? ==> Vlong(lines[k].start * SECTOR) >= 0
  }

  lemma {:induction false} SubsPlaces(lines: seq<Line>, k: nat, i: nat, parts: seq<Part>, size: nat)
    requires 1 <= i < |parts| && k <= |lines| && InRange(lines) && size < BIGDISK && AllInDisk(parts, size)
    ensures var r := SubsFrom(lines, k, i, parts); r.Ok? ==>
      && parts <= r.value && AllInDisk(r.value, size)
      && forall j :: |parts| <= j < |r.value| ==> Within(r.value[j], parts[i])
    decreases |lines| - k
  {
    if k < |lines| && lines[k].Entry? {
      var name := GenName(Names(parts), lines[k].name, lines[k].name);
      if name.Ok? {
        var p := SubPart(lines[k], name.value);
        if Check(p, parts[i..], parts[i].size).Ok? {
          WithinExactlyWhen(lines[k], name.value, parts[i], parts[i..], size);
          SubsPlaces(lines, k + 1, i, parts + [Placed(p, parts[i])], size);
        }
      }
    }
  }

  /** Behind the first end partitions, each lies inside a Plan 9 one of those. */
  ghost predicate Nested(parts: seq<Part>, end: nat) {
    forall j :: end <= j < |parts| ==> exists i :: 1 <= i < end && HasTable(parts[i]) && Within(parts[j], parts[i])
  }

  /** None of the tables found in the partitions of the first one has a start that turns
      negative. */
  ghost predicate TablesInRange(read: Reader, parse: Parser, first: seq<Part>) {
    forall i :: 1 <= i < |first| && HasTable(first[i]) ==> TableInRange(read, parse, first[i])
  }

  ghost predicate TableInRange(read: Reader, parse: Parser, p: Part) {
    var sector := read(p.s + SECTOR);
    sector.Ok? && |sector.value| == SECTOR ==> InRange(parse(sector.value))
  }

  ghost predicate DiskInRange(read: Reader, parse: Parser, size: nat) {
    var sector := read(0);
    sector.Ok? && |sector.value| == SECTOR ==>
      var mbr := MbrFrom(sector.value, size, 0, [Data(size)]);
      mbr.Ok? ==> TablesInRange(read, parse, mbr.value)
  }

  lemma {:induction false} PartsPlaces(read: Reader, parse: Parser, i: nat, end: nat, parts: seq<Part>, size: nat)
    requires 1 <= i <= end <= |parts| && size < BIGDISK && AllInDisk(parts, size) && Nested(parts, end)
    requires TablesInRange(read, parse, parts[..end])
    ensures var r := PartsFrom(read, parse, i, end, parts); r.Ok? ==>
      parts <= r.value && AllInDisk(r.value, size) && Nested(r.value, end)
    decreases end - i
  {
    if i < end && !HasTable(parts[i]) {
      PartsPlaces(read, parse, i + 1, end, parts, size);
    } else if i < end {
      var sector := read(parts[i].s + SECTOR);
      if sector.Ok? && |sector.value| == SECTOR {
        var lines := parse(sector.value);
        var r := SubsFrom(lines, 0, i, parts);
        if r.Ok? {
          assert TableInRange(read, parse, parts[..end][i]);
          SubsPlaces(lines, 0, i, parts, size);
          assert r.value[..end] == parts[..end];
          NestedExtends(parts, r.value, i, end);
          PartsPlaces(read, parse, i + 1, end, r.value, size);
        }
      }
    }
  }

  lemma NestedExtends(parts: seq<Part>, more: seq<Part>, i: nat, end: nat)
    requires 1 <= i < end <= |parts| && parts <= more && Nested(parts, end) && HasTable(parts[i])
    requires forall j :: |parts| <= j < |more| ==> Within(more[j], parts[i])
    ensures Nested(more, end)
  {
    forall j | end <= j < |more|
      ensures exists i :: 1 <= i < end && HasTable(more[i]) && Within(more[j], more[i])
    {
      if j < |parts| {
        var h :| 1 <= h < end && HasTable(parts[h]) && Within(parts[j], parts[h]);
        assert HasTable(more[h]) && Within(more[j], more[h]);
      } else {
        assert HasTable(more[i]) && Within(more[j], more[i]);
      }
    }
  }

  /** What a successful partinit gives: first the disk; then the partitions of the first
      table, inside the disk and beside each other; then those inside Plan 9 ones. */
  lemma PartitionsArePlaced(read: Reader, parse: Parser, size: nat) returns (end: nat)
    requires size < BIGDISK && DiskInRange(read, parse, size)
    ensures var r := AllParts(read, parse, size); r.Ok? ==>
      && 1 <= end <= |r.value| && r.value[0] == Data(size)
      && AllInDisk(r.value, size) && Separate(r.value[..end]) && Nested(r.value, end)
      && forall j :: 1 <= j < end ==> r.value[j].e == r.value[j].s + r.value[j].size
  {
    var sector := read(0);
    end := 1;
    if sector.Ok? && |sector.value| == SECTOR {
      var mbr := MbrFrom(sector.value, size, 0, [Data(size)]);
      MbrPlaces(sector.value, size, 0, [Data(size)]);
      MbrExtend(sector.value, size, 0, [Data(size)]);
      if mbr.Ok? {
        end := |mbr.value|;
        assert mbr.value[..end] == mbr.value;
        PartsPlaces(read, parse, 1, end, mbr.value, size);
        var r := PartsFrom(read, parse, 1, end, mbr.value);
        assert r.Ok? ==> r.value[..end] == mbr.value;
        if r.Ok? {
          forall j | 1 <= j < end
            ensures r.value[j] == mbr.value[j]
          {
            assert r.value[j] == r.value[..end][j];
          }
        }
      }
    }
  }

  /** What a block store keeps of a partition. */
  function ExtentOf(p: Part): BlockIo.Extent {
    if p.s < 0 || p.size < 0 then BlockIo.Extent(0, 0) else BlockIo.Extent(p.s, p.size)
  }

  function Extents(parts: seq<Part>): seq<BlockIo.Extent> {
    seq(|parts|, i requires 0 <= i < |parts| => ExtentOf(parts[i]))
  }

  /** They are what the store relies on, whatever the device's blocks are. */
  lemma PartitionsFit(parts: seq<Part>, size: nat, a: nat)
    requires BlockIo.BlockSize(a) && parts != [] && AllInDisk(parts, size)
    ensures BlockStore.AllFit(Extents(parts[1..]), a, size)
  {
    var rest := parts[1..];
    forall i | 0 <= i < |rest|
      ensures BlockIo.Fits(Extents(rest)[i], a, size)
    {
      assert rest[i] == parts[i + 1] && InDisk(parts[i + 1], size);
      BlockIo.SectorsAligned(rest[i].s / SECTOR, a);
      BlockIo.SectorsAligned(rest[i].size / SECTOR, a);
    }
  }
}
