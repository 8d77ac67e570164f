/** How an ethernet packet reaches the connections that want it (devether.c). */
module EtherMux {
  import opened Bits

  const NTYPES := 8
  const HEADER := 14

  /** What a connection's queue holds: packets, or the notes taken of them for a
      connection that wants no more than the beginning. */
  datatype Msg = Packet(bytes: seq<byte>) | Note(head: seq<byte>, hi: byte, lo: byte, ticks: word)

  datatype Netfile = Unused | File(typ: int, prom: bool, bridge: bool, headersonly: bool, inq: seq<Msg>)

  /** What the kernel's allocator and queues answer while a packet is handed out, by
      connection: whether there is a block for it, whether its queue refuses a block,
      whether its queue has room for a note. */
  datatype Answers = Answers(alloc: nat -> bool, refuses: nat -> bool, window: nat -> bool, ticks: word)

  /** The interface, but for the connections. */
  datatype Iface = Iface(ea: seq<byte>, bcast: seq<byte>, prom: bool, multi: set<seq<byte>>)

  function Dst(p: seq<byte>): seq<byte>
    requires |p| >= HEADER
  {
    p[..6]
  }

  function Src(p: seq<byte>): seq<byte>
    requires |p| >= HEADER
  {
    p[6..12]
  }

  function Type(p: seq<byte>): nat
    requires |p| >= HEADER
  {
    p[12] as int * 256 + p[13]
  }

  predicate Multicast(p: seq<byte>)
    requires |p| >= HEADER
  {
    p[0] % 2 == 1
  }

  /** A multicast packet that is no broadcast gets through only to an address somebody
      asked for, or in promiscuous mode. */
  predicate Passes(e: Iface, p: seq<byte>)
    requires |p| >= HEADER
  {
    Multicast(p) && Dst(p) != e.bcast && !e.prom ==> Dst(p) in e.multi
  }

  predicate Wants(f: Netfile, e: Iface, p: seq<byte>, fromwire: bool)
    requires |p| >= HEADER
  {
    && f.File?
    && (f.typ < 0 || f.typ == Type(p))
    && (Dst(p) == e.ea || Multicast(p) || f.prom)
    && (f.bridge ==> fromwire || Src(p) == e.ea)
  }

  predicate WantsAll(f: Netfile, e: Iface, p: seq<byte>, fromwire: bool)
    requires |p| >= HEADER
  {
    Wants(f, e, p, fromwire) && !f.headersonly
  }

  function NoteOf(p: seq<byte>, ticks: word): Msg {
    Note(if |p| > 58 then p[..58] else p, |p| / 256 % 256, |p| % 256, ticks)
  }

  // ---------- the specification, connection by connection ----------

  /** Whether connection i gets the packet; saved says that it gets the block itself and
      needs no copy. */
  predicate Gets(i: nat, saved: bool, a: Answers) {
    (saved || a.alloc(i)) && !a.refuses(i)
  }

  /** The connection afterwards. */
  function After(f: Netfile, i: nat, e: Iface, p: seq<byte>, fromwire: bool, saved: bool, a: Answers): Netfile
    requires |p| >= HEADER
  {
    if !Wants(f, e, p, fromwire) then f
    else if f.headersonly then
      if a.window(i) && a.alloc(i) && !a.refuses(i) then f.(inq := f.inq + [NoteOf(p, a.ticks)]) else f
    else if Gets(i, saved, a) then f.(inq := f.inq + [Packet(p)])
    else f
  }

  /** The first connection, from i on, that wants the whole packet. */
  function First(fs: seq<Netfile>, i: nat, e: Iface, p: seq<byte>, fromwire: bool): (k: nat)
    requires |p| >= HEADER && i <= |fs|
    ensures i <= k <= |fs| && (k < |fs| ==> WantsAll(fs[k], e, p, fromwire))
    ensures forall j :: i <= j < k ==> !WantsAll(fs[j], e, p, fromwire)
    decreases |fs| - i
  {
    if i == |fs| || WantsAll(fs[i], e, p, fromwire) then i else First(fs, i + 1, e, p, fromwire)
  }

  /** How many of the connections from i on that want the whole packet do not get it,
      when connection saved gets the block itself. */
  function Missed(fs: seq<Netfile>, i: nat, e: Iface, p: seq<byte>, fromwire: bool, saved: int, a: Answers): nat
    requires |p| >= HEADER && i <= |fs|
    decreases |fs| - i
  {
    if i == |fs| then 0
    else
      (if WantsAll(fs[i], e, p, fromwire) && !Gets(i, i == saved, a) then 1 else 0) +
      Missed(fs, i + 1, e, p, fromwire, saved, a)
  }

  // ---------- the same by the bytes of the packet ----------

  /** The packet has the type of this connection, or it takes any; it is sent to this
      address, to a group that is listened to, or the connection hears everything; and a
      bridge hears of its own side only what this address has sent. */
  predicate IsFor(f: Netfile, e: Iface, p: seq<byte>, fromwire: bool)
    requires |p| >= HEADER
  {
    && f.File?
    && (f.typ < 0 || (f.typ < 0x1_0000 && p[12] == f.typ / 256 && p[13] == f.typ % 256))
    && (p[0] % 2 == 1 ==> p[..6] == e.bcast || e.prom || p[..6] in e.multi)
    && (p[..6] == e.ea || p[0] % 2 == 1 || f.prom)
    && (f.bridge && !fromwire ==> p[6..12] == e.ea)
  }

  /** Whether a connection is g after f, when a packet was handed out: it gets one that is for
      it, as far as memory and its queue allow, and nothing else. */
  predicate Reached(f: Netfile, g: Netfile, e: Iface, p: seq<byte>, fromwire: bool, room: bool, window: bool)
    requires |p| >= HEADER
  {
    if !IsFor(f, e, p, fromwire) then g == f
    else if f.headersonly then Noted(f, g, p) || (g == f && !(room && window))
    else g == f.(inq := f.inq + [Packet(p)]) || (g == f && !room)
  }

  predicate Noted(f: Netfile, g: Netfile, p: seq<byte>)
    requires f.File?
  {
    && g.File? && |g.inq| == |f.inq| + 1 && IsNote(g.inq[|f.inq|], p)
    && g == f.(inq := f.inq + [g.inq[|f.inq|]])
  }

  /** A note holds the first 58 bytes, and the length of the packet in two bytes. */
  predicate IsNote(m: Msg, p: seq<byte>) {
    && m.Note? && m.head <= p && |m.head| == (if |p| < 58 then |p| else 58)
    && (|p| < 0x1_0000 ==> m.hi as int * 256 + m.lo as int == |p|)
  }

  lemma AfterReaches(f: Netfile, i: nat, e: Iface, p: seq<byte>, fromwire: bool, saved: bool, a: Answers)
    requires |p| >= HEADER
    ensures var g := if Passes(e, p) then After(f, i, e, p, fromwire, saved, a) else f;
      Reached(f, g, e, p, fromwire, a.alloc(i) && !a.refuses(i), a.window(i))
  {
    var t := Type(p);
    assert t / 256 == p[12] && t % 256 == p[13];
    assert f.File? && 0 <= f.typ < 0x1_0000 ==> f.typ == f.typ / 256 * 256 + f.typ % 256;
    assert NoteOf(p, a.ticks).head <= p;
  }

  lemma EachReached(fs: seq<Netfile>, e: Iface, p: seq<byte>, fromwire: bool, saved: int, a: Answers)
    requires |p| >= HEADER
    ensures forall i :: 0 <= i < |fs| ==>
      Reached(fs[i], if Passes(e, p) then After(fs[i], i, e, p, fromwire, i == saved, a) else fs[i],
              e, p, fromwire, a.alloc(i) && !a.refuses(i), a.window(i))
  {
    forall i | 0 <= i < |fs|
      ensures Reached(fs[i], if Passes(e, p) then After(fs[i], i, e, p, fromwire, i == saved, a) else fs[i],
                      e, p, fromwire, a.alloc(i) && !a.refuses(i), a.window(i))
    {
      AfterReaches(fs[i], i, e, p, fromwire, i == saved, a);
    }
  }

  // ---------- the driver ----------

  class Ether {
    const e: Iface
    const f: array<Netfile>
    var inpackets: nat
    var outpackets: nat
    var soverflows: nat
    var oq: seq<seq<byte>>
    /** How often a block that came in was freed or put into a queue. */
    var consumed: nat

    constructor (e: Iface)
      ensures this.e == e && f.Length == NTYPES && fresh(f)
    {
      this.e := e;
      f := new Netfile[NTYPES](_ => Unused);
      inpackets, outpackets, soverflows, consumed, oq := 0, 0, 0, 0, [];
    }

    /** qpass: a refused block is freed. */
    method Pass(i: nat, m: Msg, a: Answers) returns (ok: bool)
      requires i < f.Length && f[i].File?
      modifies f
      ensures ok == !a.refuses(i)
      ensures f[..] == old(f[..])[i := if ok then old(f[i]).(inq := old(f[i]).inq + [m]) else old(f[i])]
    {
      ok := !a.refuses(i);
      if ok {
        f[i] := f[i].(inq := f[i].inq + [m]);
      }
    }

    /** etherrtrace */
    method Trace(i: nat, p: seq<byte>, a: Answers)
      requires i < f.Length && f[i].File?
      modifies f
      ensures f[..] == old(f[..])[i := if a.window(i) && a.alloc(i) && !a.refuses(i)
        then old(f[i]).(inq := old(f[i]).inq + [NoteOf(p, a.ticks)]) else old(f[i])]
    {
      if !a.window(i) || !a.alloc(i) {
        return;
      }
      var n := if |p| > 58 then 58 else |p|;
      assert p[..|p|] == p;
      var ok := Pass(i, Note(p[..n], |p| / 256 % 256, |p| % 256, a.ticks), a);
    }

    /** A copy of the packet for connection i. */
    method Copy(i: nat, p: seq<byte>, a: Answers)
      requires i < f.Length && f[i].File?
      modifies f, `soverflows
      ensures f[..] == old(f[..])[i := if Gets(i, false, a)
        then old(f[i]).(inq := old(f[i]).inq + [Packet(p)]) else old(f[i])]
      ensures soverflows == old(soverflows) + if Gets(i, false, a) then 0 else 1
    {
      if a.alloc(i) {
        var ok := Pass(i, Packet(p), a);
        if !ok {
          soverflows := soverflows + 1;
        }
      } else {
        soverflows := soverflows + 1;
      }
    }

    /** One connection in the loop of etheriq; fx is the one that the block itself is for. */
    method Offer(i: nat, p: seq<byte>, fromwire: bool, fx: int, a: Answers) returns (fx': int)
      requires i < f.Length && |p| >= HEADER
      modifies f, `soverflows
      ensures var mine := WantsAll(old(f[i]), e, p, fromwire) && fromwire && fx < 0;
        && fx' == (if mine then i else fx)
        && f[..] == old(f[..])[i := if mine then old(f[i]) else After(old(f[i]), i, e, p, fromwire, false, a)]
        && soverflows == old(soverflows) +
          if WantsAll(old(f[i]), e, p, fromwire) && !mine && !Gets(i, false, a) then 1 else 0
    {
      fx' := fx;
      var tome, fromme := p[..6] == e.ea, p[6..12] == e.ea;
      if f[i].File? && (f[i].typ == Type(p) || f[i].typ < 0) {
        if tome || Multicast(p) || f[i].prom {
          if f[i].bridge && !fromwire && !fromme {
            return;
          }
          if !f[i].headersonly {
            if fromwire && fx < 0 {
              fx' := i;
            } else {
              Copy(i, p, a);
            }
          } else {
            Trace(i, p, a);
          }
        }
      }
    }

    /** etheriq: every connection that wants the packet is offered it, and the block comes
        back unless it came from the wire. */
    method EtherIq(p: seq<byte>, fromwire: bool, a: Answers) returns (back: bool)
      requires |p| >= HEADER && f.Length == NTYPES
      modifies f, `inpackets, `soverflows, `consumed
      ensures inpackets == old(inpackets) + 1
      ensures back == !fromwire && consumed == old(consumed) + if fromwire then 1 else 0
      ensures !Passes(e, p) ==> f[..] == old(f[..]) && soverflows == old(soverflows)
      ensures Passes(e, p) ==>
        var fs := old(f[..]); var saved := if fromwire then First(fs, 0, e, p, fromwire) else -1;
        && (forall i :: 0 <= i < NTYPES ==> f[i] == After(fs[i], i, e, p, fromwire, i == saved, a))
        && soverflows == old(soverflows) + Missed(fs, 0, e, p, fromwire, saved, a)
      ensures forall i :: 0 <= i < NTYPES ==>
        Reached(old(f[..])[i], f[i], e, p, fromwire, a.alloc(i) && !a.refuses(i), a.window(i))
      ensures forall i :: 0 <= i < NTYPES && f[i] != old(f[i]) ==>
        && old(f[i]).File?
        && (0 <= old(f[i]).typ < 0x1_0000 ==> p[12] == old(f[i]).typ / 256 && p[13] == old(f[i]).typ % 256)
      ensures forall i |
        && 0 <= i < NTYPES && old(f[i]).File? && !old(f[i]).bridge && !old(f[i]).headersonly
        && (old(f[i]).typ < 0 || old(f[i]).typ == p[12] as int * 256 + p[13] as int)
        && (if p[0] % 2 == 0 then p[..6] == e.ea || old(f[i]).prom
            else p[..6] == e.bcast || e.prom || p[..6] in e.multi)
        && a.alloc(i) && !a.refuses(i) ::
          f[i] == old(f[i]).(inq := old(f[i]).inq + [Packet(p)])
    {
      EachReached(f[..], e, p, fromwire, if fromwire then First(f[..], 0, e, p, fromwire) else -1, a);
      inpackets := inpackets + 1;
      if Multicast(p) && p[..6] != e.bcast && !e.prom {
        if p[..6] !in e.multi {
          if fromwire {
            consumed := consumed + 1;
          }
          return !fromwire;
        }
      }
      var fx := OfferAll(p, fromwire, a);
      if fx >= 0 {
        var ok := Pass(fx, Packet(p), a);
        consumed := consumed + 1;
        if !ok {
          soverflows := soverflows + 1;
        }
        return false;
      }
      if fromwire {
        consumed := consumed + 1;
        return false;
      }
      back := true;
    }

    /** The loop of etheriq. */
    method OfferAll(p: seq<byte>, fromwire: bool, a: Answers) returns (fx: int)
      requires |p| >= HEADER && f.Length == NTYPES
      modifies f, `soverflows
      ensures var fs := old(f[..]); var saved := if fromwire then First(fs, 0, e, p, fromwire) else -1;
        && fx == (if saved < NTYPES then saved else -1)
        && (forall j :: 0 <= j < NTYPES ==>
              f[j] == if j == saved then fs[j] else After(fs[j], j, e, p, fromwire, false, a))
        && soverflows + (if 0 <= saved < NTYPES && a.refuses(saved) then 1 else 0) ==
           old(soverflows) + Missed(fs, 0, e, p, fromwire, saved, a)
    {
      ghost var fs := f[..];
      ghost var saved := if fromwire then First(fs, 0, e, p, fromwire) else -1;
      ghost var start := soverflows;
      var i := 0;
      fx := -1;
      while i < NTYPES
        invariant 0 <= i <= NTYPES
        invariant fx == if saved < i then saved else -1
        invariant forall j :: i <= j < NTYPES ==> f[j] == fs[j]
        invariant forall j :: 0 <= j < i ==>
          f[j] == if j == saved then fs[j] else After(fs[j], j, e, p, fromwire, false, a)
        invariant soverflows + Missed(fs, i, e, p, fromwire, saved, a) +
          (if 0 <= saved < i && a.refuses(saved) then 1 else 0) == start + Missed(fs, 0, e, p, fromwire, saved, a)
        modifies f, `soverflows
      {
        fx := Offer(i, p, fromwire, fx, a);
        i := i + 1;
      }
    }

    /** etheroq: a packet for this address only comes back in; a broadcast, or any packet in
        promiscuous mode, comes back in and goes out; its block is used up in either way. */
    method EtherOq(p: seq<byte>, a: Answers)
      requires |p| >= HEADER && f.Length == NTYPES
      modifies f, `inpackets, `outpackets, `soverflows, `consumed, `oq
      ensures outpackets == old(outpackets) + 1 && consumed == old(consumed) + 1
      ensures oq == if Dst(p) == e.ea then old(oq) else old(oq) + [p]
      ensures var fs, feed := old(f[..]), Dst(p) == e.ea || Dst(p) == e.bcast || e.prom;
        && inpackets == old(inpackets) + (if feed then 1 else 0)
        && (feed && Passes(e, p) ==>
              && (forall i :: 0 <= i < NTYPES ==> f[i] == After(fs[i], i, e, p, false, false, a))
              && soverflows == old(soverflows) + Missed(fs, 0, e, p, false, -1, a))
        && (!(feed && Passes(e, p)) ==> f[..] == fs && soverflows == old(soverflows))
      ensures var fs := old(f[..]);
        if p[..6] == e.ea || p[..6] == e.bcast || e.prom
        then forall i :: 0 <= i < NTYPES ==> Reached(fs[i], f[i], e, p, false, a.alloc(i) && !a.refuses(i), a.window(i))
        else f[..] == fs
    {
      outpackets := outpackets + 1;
      var loopback := p[..6] == e.ea;
      if loopback || p[..6] == e.bcast || e.prom {
        var back := EtherIq(p, false, a);
      }
      if !loopback {
        oq := oq + [p];
      }
      consumed := consumed + 1;
    }
  }

  // ---------- what it means ----------

  /** The connections that want the whole packet and have nothing new afterwards. */
  function Empty(fs: seq<Netfile>, i: nat, e: Iface, p: seq<byte>, fromwire: bool, saved: int, a: Answers): set<nat>
    requires |p| >= HEADER
  {
    set j: nat | i <= j < |fs| && WantsAll(fs[j], e, p, fromwire)
                 && After(fs[j], j, e, p, fromwire, j == saved, a) == fs[j]
  }

  lemma EmptyStep(fs: seq<Netfile>, i: nat, e: Iface, p: seq<byte>, fromwire: bool, saved: int, a: Answers)
    requires |p| >= HEADER && i < |fs|
    ensures Empty(fs, i, e, p, fromwire, saved, a) == Empty(fs, i + 1, e, p, fromwire, saved, a) +
      if WantsAll(fs[i], e, p, fromwire) && !Gets(i, i == saved, a) then {i} else {}
  {
    AfterGrows(fs[i], i, e, p, fromwire, i == saved, a);
  }

  /** Overflows count exactly the connections that should have got the packet and did not. */
  lemma {:induction false} OverflowsAreCounted(fs: seq<Netfile>, i: nat, e: Iface, p: seq<byte>, fromwire: bool,
                                               saved: int, a: Answers)
    requires |p| >= HEADER && i <= |fs|
    ensures Missed(fs, i, e, p, fromwire, saved, a) == |Empty(fs, i, e, p, fromwire, saved, a)|
    decreases |fs| - i
  {
    if i < |fs| {
      OverflowsAreCounted(fs, i + 1, e, p, fromwire, saved, a);
      EmptyStep(fs, i, e, p, fromwire, saved, a);
      assert i !in Empty(fs, i + 1, e, p, fromwire, saved, a);
    } else {
      assert Empty(fs, i, e, p, fromwire, saved, a) == {};
    }
  }

  /** A connection that wants the whole packet gets it once or nothing; others get a note
      or nothing. */
  lemma AfterGrows(f: Netfile, i: nat, e: Iface, p: seq<byte>, fromwire: bool, saved: bool, a: Answers)
    requires |p| >= HEADER
    ensures var g := After(f, i, e, p, fromwire, saved, a);
      && (WantsAll(f, e, p, fromwire) ==>
            if Gets(i, saved, a) then g == f.(inq := f.inq + [Packet(p)]) != f else g == f)
      && (!WantsAll(f, e, p, fromwire) ==> g == f || g == f.(inq := f.inq + [NoteOf(p, a.ticks)]))
      && (!Wants(f, e, p, fromwire) ==> g == f)
  {
    if f.File? {
      assert |f.inq + [Packet(p)]| == |f.inq| + 1;
    }
  }

  /** As long as there is memory, the saved copy cannot be seen. */
  lemma {:induction false} SavingIsInvisible(fs: seq<Netfile>, i: nat, e: Iface, p: seq<byte>, fromwire: bool,
                                             saved: int, a: Answers)
    requires |p| >= HEADER && i <= |fs| && forall j :: a.alloc(j)
    ensures forall j :: i <= j < |fs| ==>
      After(fs[j], j, e, p, fromwire, j == saved, a) == After(fs[j], j, e, p, fromwire, false, a)
    ensures Missed(fs, i, e, p, fromwire, saved, a) == Missed(fs, i, e, p, fromwire, -1, a)
    decreases |fs| - i
  {
    if i < |fs| {
      SavingIsInvisible(fs, i + 1, e, p, fromwire, saved, a);
    }
  }

  /** In general it makes a difference exactly if there is no memory for the copy that was
      saved: then one connection more gets the packet, unless its queue refuses it. */
  lemma {:induction false} SavingGains(fs: seq<Netfile>, i: nat, e: Iface, p: seq<byte>, fromwire: bool,
                                       saved: nat, a: Answers)
    requires |p| >= HEADER && i <= |fs| && i <= saved < |fs| && WantsAll(fs[saved], e, p, fromwire)
    ensures Missed(fs, i, e, p, fromwire, -1, a) ==
      Missed(fs, i, e, p, fromwire, saved, a) + if a.alloc(saved) || a.refuses(saved) then 0 else 1
    decreases |fs| - i
  {
    if i < saved {
      SavingGains(fs, i + 1, e, p, fromwire, saved, a);
    } else {
      SameBehind(fs, i + 1, e, p, fromwire, saved, a);
    }
  }

  lemma {:induction false} SameBehind(fs: seq<Netfile>, i: nat, e: Iface, p: seq<byte>, fromwire: bool,
                                      saved: nat, a: Answers)
    requires |p| >= HEADER && saved < i <= |fs|
    ensures Missed(fs, i, e, p, fromwire, -1, a) == Missed(fs, i, e, p, fromwire, saved, a)
    decreases |fs| - i
  {
    if i < |fs| {
      SameBehind(fs, i + 1, e, p, fromwire, saved, a);
    }
  }
}
